/** Whole messages of the browser extension, as texts, and what becomes of them. */
module NativeMessagingTexts {
  import opened Wrappers
  import opened NativeMessaging

  const BROWSERS := ["chrome.exe", "msedge.exe", "brave.exe", "firefox.exe", "vivaldi.exe", "opera.exe"]

  /** At most 255 characters, all of them of these. */
  predicate IsHost(h: string) {
    |h| < 256 && forall k :: 0 <= k < |h| ==> h[k] in "abcdefghijklmnopqrstuvwxyz0123456789.-:"
  }

  lemma {:induction false} HostCharacter(c: char)
    ensures SafeHostnameChar(c) <==> c in "abcdefghijklmnopqrstuvwxyz0123456789.-:"
  {
  }

  /** What may stand between the parts of a message: spaces, tabs, line feeds, vertical tabs, form feeds and carriage
      returns. */
  lemma {:induction false} BlankCharacter(c: char)
    ensures IsSpace(c)
            <==> c as int == 32 || c as int == 9 || c as int == 10 || c as int == 11 || c as int == 12 || c as int == 13
  {
  }

  lemma {:induction false} HostIsSafe(h: string)
    ensures SafeHostname(h) <==> IsHost(h)
  {
    forall k | 0 <= k < |h| ensures SafeHostnameChar(h[k]) <==> h[k] in "abcdefghijklmnopqrstuvwxyz0123456789.-:" {
      HostCharacter(h[k]);
    }
    hide SafeHostnameChar;
  }

  // ---------- Any layout ----------

  /** Fields that have a message in them, but for the browser and the hostname. */
  predicate Otherwise(fs: seq<Field>, protocol: int, browser: string, hostname: string, route: Route, focused: bool) {
    && NoRepeats(fs) && HasProtocol(fs, protocol)
    && FBrowser(browser) in fs && FHostname(hostname) in fs && FRoute(route) in fs && FFocused(focused) in fs
    && (protocol == 1 || protocol == 2)
    && ((exists mode :: FMode(mode) in fs) <==> protocol == 2)
  }

  /** In any layout they are accepted if and only if the browser is one of the six, the hostname is one, and it is not
      empty when the page has the focus. */
  lemma {:induction false} BrowserAndHostDecide(
      d: Document, protocol: int, browser: string, hostname: string, route: Route, focused: bool)
    requires d.Valid() && |d.Text()| <= 8192
    requires Otherwise(d.body.Fields(), protocol, browser, hostname, route, focused)
    ensures Parse(d.Text()).Ok?
            <==> browser in BROWSERS && IsHost(hostname) && (focused ==> hostname != "")
    ensures Parse(d.Text()).Ok? ==>
              var m := Parse(d.Text()).value;
              && m.protocol == protocol && m.browser == browser && m.hostname == hostname
              && m.route == route && m.focused == focused
              && if protocol == 2 then FMode(m.mode) in d.body.Fields() else m.mode == DefaultMode
  {
    var fs := d.body.Fields();
    HostIsSafe(hostname);
    hide Parse, IsHost, SafeHostname, Document.Text;
    if protocol == 2 {
      var mode :| FMode(mode) in fs;
      DocumentSays(d, Message(protocol, browser, hostname, route, mode, focused));
    } else {
      DocumentSays(d, Message(protocol, browser, hostname, route, DefaultMode, focused));
    }
    if Parse(d.Text()).Ok? {
      DocumentSays(d, Parse(d.Text()).value);
      OneOfEach(fs, Parse(d.Text()).value, protocol, browser, hostname, route, focused);
    }
  }

  lemma {:induction false} OneOfEach(
      fs: seq<Field>, m: Message, protocol: int, browser: string, hostname: string, route: Route, focused: bool)
    requires Otherwise(fs, protocol, browser, hostname, route, focused) && Says(fs, m)
    ensures m.protocol == protocol && m.browser == browser && m.hostname == hostname
    ensures m.route == route && m.focused == focused
    ensures AllowedBrowser(browser) && SafeHostname(hostname) && (focused ==> hostname != "")
    ensures protocol == 2 ==> FMode(m.mode) in fs
  {
    hide AllowedBrowser, SafeHostname;
  }

  // ---------- One layout, with any words in it ----------

  /** A word that can stand between quotes: no quote, no backslash, no control character. */
  predicate IsWord(s: string) {
    forall k :: 0 <= k < |s| ==> s[k] != '"' && s[k] != '\\' && s[k] as int >= 32
  }

  /** `"key":value,` and what follows. */
  function Entry(key: string, value: string, tail: string): string {
    "\"" + key + "\":" + value + "," + tail
  }

  function InQuotes(s: string): string { "\"" + s + "\"" }

  /** A message as the extension writes it, but for the words. */
  function Written(
      protocol: int, browser: string, hostname: string, route: string, mode: Option<string>, focused: bool): string
  {
    "{" + BodyText(protocol, browser, hostname, route, mode, focused)
  }

  /** The message without its opening brace. */
  function BodyText(
      protocol: int, browser: string, hostname: string, route: string, mode: Option<string>, focused: bool): string
  {
    Entry("protocol", if protocol == 1 then "1" else "2",
    Entry("browser", InQuotes(browser),
    Entry("hostname", InQuotes(hostname),
    Entry("route", InQuotes(route), FromMode(mode, focused)))))
  }

  function FromMode(mode: Option<string>, focused: bool): string {
    match mode
    case None => Focus(focused)
    case Some(word) => Entry("mode", InQuotes(word), Focus(focused))
  }

  function Focus(focused: bool): string { "\"focused\":" + (if focused then "true" else "false") + "}" }

  /** What becomes of it. */
  function Outcome(
      protocol: int, browser: string, hostname: string, route: string, mode: Option<string>, focused: bool)
    : Result<Message, Error>
  {
    if route != "default" && route != "english" && route != "tsf" then Err(BadRoute)
    else if mode.Some? && mode.value != "default" && mode.value != "vietnamese" && mode.value != "english" then
      Err(BadMode)
    else if (protocol == 2) != mode.Some? then Err(RequiredFields)
    else if browser !in BROWSERS then Err(BrowserAllowlist)
    else if !IsHost(hostname) then Err(HostnameChars)
    else if focused && hostname == "" then Err(HostnameEmpty)
    else Ok(Message(
      protocol, browser, hostname,
      if route == "default" then DefaultRoute else if route == "english" then ForceEnglish else ForceTsf,
      if mode == Some("vietnamese") then Vietnamese else if mode == Some("english") then English else DefaultMode,
      focused))
  }

  lemma {:induction false} EntryIs(key: string, value: string, tail: string)
    ensures Entry(key, value, tail) == Quoted(key) + (":" + (value + ("," + tail)))
    ensures Entry(key, value, tail) != "" && Entry(key, value, tail)[0] == '"'
  {
  }

  lemma {:induction false} SpaceSkipsNothing(t: string)
    requires t != "" && t[0] != ' ' && t[0] as int > 13
    ensures SkipSpace(t) == t
  {
  }

  lemma {:induction false} WordIsPlain(s: string)
    ensures IsWord(s) <==> Plain(s)
  {
    forall k | 0 <= k < |s| ensures PlainChar(s[k]) <==> s[k] != '"' && s[k] != '\\' && s[k] as int >= 32 { }
  }

  /** A member at the front, up to its value. */
  lemma {:induction false} MemberAt(key: string, rest: string, slots: Slots)
    requires KindOf(key).Some? && Plain(key)
    ensures ReadMember(Quoted(key) + (":" + rest), slots)
            == if slots.Filled(KindOf(key).value) then Err(DuplicateField)
               else ReadValue(KindOf(key).value, rest, slots)
  {
    ReadStringReads("", key, ":" + rest);
    assert "" + (Quoted(key) + (":" + rest)) == Quoted(key) + (":" + rest);
    SpaceSkipsNothing(":" + rest);
    assert (":" + rest)[1..] == rest;
  }

  /** An entry at the front of a body. */
  lemma {:induction false} EntryAt(key: string, value: string, tail: string, slots: Slots)
    requires KindOf(key).Some? && Plain(key) && !slots.Filled(KindOf(key).value)
    ensures var read := ReadValue(KindOf(key).value, value + ("," + tail), slots);
            && (read.Err? ==> ReadBody(Entry(key, value, tail), slots) == Err(read.error))
            && (read.Ok? && read.value.1 == "," + tail ==>
                  ReadBody(Entry(key, value, tail), slots) == ReadBody(tail, read.value.0))
  {
    EntryIs(key, value, tail);
    SpaceSkipsNothing(Entry(key, value, tail));
    MemberAt(key, value + ("," + tail), slots);
    SpaceSkipsNothing("," + tail);
    assert ("," + tail)[1..] == tail;
    hide ReadValue, KindOf, SkipSpace;
  }

  /** A string value at the front. */
  lemma {:induction false} WordAt(word: string, tail: string)
    requires IsWord(word)
    ensures ReadString(InQuotes(word) + tail) == Some((word, tail))
  {
    WordIsPlain(word);
    ReadStringReads("", word, tail);
    assert "" + (Quoted(word) + tail) == InQuotes(word) + tail;
  }

  lemma {:induction false} FocusIsRead(focused: bool, slots: Slots)
    requires slots.focused == None
    ensures ReadBody(Focus(focused), slots) == Ok((slots.(focused := Some(focused)), ""))
  {
    var value := if focused then "true" else "false";
    assert Focus(focused) == Quoted("focused") + (":" + (value + "}"));
    SpaceSkipsNothing(Focus(focused));
    MemberAt("focused", value + "}", slots);
    ReadValueReads(FFocused(focused), "", "}", slots);
    assert "" + (value + "}") == value + "}";
    SpaceSkipsNothing("}");
    assert "}"[1..] == "";
  }

  lemma {:induction false} ModeIsRead(mode: Option<string>, focused: bool, slots: Slots)
    requires slots.mode == None && slots.focused == None && (mode.Some? ==> IsWord(mode.value))
    ensures ReadBody(FromMode(mode, focused), slots)
            == if mode.None? then Ok((slots.(focused := Some(focused)), ""))
               else if mode.value == "default" || mode.value == "vietnamese" || mode.value == "english" then
                 Ok((slots.(mode := ModeOf(mode.value), focused := Some(focused)), ""))
               else Err(BadMode)
  {
    if mode.None? {
      FocusIsRead(focused, slots);
    } else {
      EntryAt("mode", InQuotes(mode.value), Focus(focused), slots);
      WordAt(mode.value, "," + Focus(focused));
      if ModeOf(mode.value).Some? { FocusIsRead(focused, slots.(mode := ModeOf(mode.value))); }
    }
  }

  lemma {:induction false} RouteIsRead(route: string, mode: Option<string>, focused: bool, slots: Slots)
    requires slots.route == None && IsWord(route)
    requires mode.Some? ==> IsWord(mode.value)
    ensures ReadBody(Entry("route", InQuotes(route), FromMode(mode, focused)), slots)
            == if route == "default" || route == "english" || route == "tsf" then
                 ReadBody(FromMode(mode, focused), slots.(route := RouteOf(route)))
               else Err(BadRoute)
  {
    EntryAt("route", InQuotes(route), FromMode(mode, focused), slots);
    WordAt(route, "," + FromMode(mode, focused));
  }

  /** The slots behind the hostname. */
  function ThreeRead(protocol: int, browser: string, hostname: string): Slots {
    Slots(Some(protocol), Some(browser), Some(hostname), None, None, None)
  }

  lemma {:induction false} StringIsRead(key: string, word: string, tail: string, slots: Slots)
    requires IsWord(word) && (key == "browser" || key == "hostname") && !slots.Filled(KindOf(key).value)
    ensures ReadBody(Entry(key, InQuotes(word), tail), slots)
            == ReadBody(tail,
               if key == "browser" then slots.(browser := Some(word)) else slots.(hostname := Some(word)))
  {
    EntryAt(key, InQuotes(word), tail, slots);
    WordAt(word, "," + tail);
  }

  lemma {:induction false} FrontIsRead(protocol: int, browser: string, hostname: string, tail: string)
    requires protocol == 1 || protocol == 2
    requires IsWord(browser) && IsWord(hostname)
    ensures ReadBody(Entry("protocol", if protocol == 1 then "1" else "2",
                     Entry("browser", InQuotes(browser),
                     Entry("hostname", InQuotes(hostname), tail))), NO_SLOTS)
            == ReadBody(tail, ThreeRead(protocol, browser, hostname))
  {
    var h := Entry("hostname", InQuotes(hostname), tail);
    var b := Entry("browser", InQuotes(browser), h);
    var value := if protocol == 1 then "1" else "2";
    hide ReadBody, ReadValue, Entry;
    EntryAt("protocol", value, b, NO_SLOTS);
    ReadValueReads(FProtocol(0, protocol), "", "," + b, NO_SLOTS);
    assert FProtocol(0, protocol).ValueText() == value by { assert Zeros(0) + value == value; }
    assert "" + (value + ("," + b)) == value + ("," + b);
    StringIsRead("browser", browser, h, NO_SLOTS.(protocol := Some(protocol)));
    StringIsRead("hostname", hostname, tail, NO_SLOTS.(protocol := Some(protocol), browser := Some(browser)));
  }

  /** What the body of the message is read as, if nothing is wrong with its words. */
  function AllRead(
      protocol: int, browser: string, hostname: string, route: string, mode: Option<string>, focused: bool): Slots
  {
    Slots(Some(protocol), Some(browser), Some(hostname), RouteOf(route),
          if mode.Some? then ModeOf(mode.value) else None, Some(focused))
  }

  lemma {:induction false} BodyIsRead(
      protocol: int, browser: string, hostname: string, route: string, mode: Option<string>, focused: bool)
    requires protocol == 1 || protocol == 2
    requires IsWord(browser) && IsWord(hostname) && IsWord(route) && (mode.Some? ==> IsWord(mode.value))
    ensures ReadBody(BodyText(protocol, browser, hostname, route, mode, focused), NO_SLOTS)
            == if RouteOf(route) == None then Err(BadRoute)
               else if mode.Some? && ModeOf(mode.value) == None then Err(BadMode)
               else Ok((AllRead(protocol, browser, hostname, route, mode, focused), ""))
  {
    hide ReadBody, Entry, InQuotes, FromMode;
    var slots := ThreeRead(protocol, browser, hostname);
    FrontIsRead(protocol, browser, hostname, Entry("route", InQuotes(route), FromMode(mode, focused)));
    RouteIsRead(route, mode, focused, slots);
    ModeIsRead(mode, focused, slots.(route := RouteOf(route)));
  }

  lemma {:induction false} AllIsFinished(
      protocol: int, browser: string, hostname: string, route: string, mode: Option<string>, focused: bool)
    requires protocol == 1 || protocol == 2
    requires RouteOf(route).Some? && (mode.Some? ==> ModeOf(mode.value).Some?)
    ensures Finish(AllRead(protocol, browser, hostname, route, mode, focused), "")
            == Outcome(protocol, browser, hostname, route, mode, focused)
  {
    HostIsSafe(hostname);
    hide SafeHostname, IsHost;
  }

  lemma {:induction false} OpenedText(body: string)
    ensures Parse("{" + body)
            == if |body| >= 8192 then Err(MessageSize)
               else match ReadBody(body, NO_SLOTS)
                    case Err(e) => Err(e)
                    case Ok(p) => Finish(p.0, p.1)
  {
    SpaceSkipsNothing("{" + body);
    assert ("{" + body)[1..] == body;
    hide ReadBody, Finish, SkipSpace;
  }

  lemma {:induction false} WordsAreKnown(route: string, mode: Option<string>)
    ensures RouteOf(route) == None <==> route != "default" && route != "english" && route != "tsf"
    ensures mode.Some? ==>
              (ModeOf(mode.value) == None
               <==> mode.value != "default" && mode.value != "vietnamese" && mode.value != "english")
  {
  }

  /** For all words, the message is what was written, or the error is the first thing that is wrong with it. */
  lemma {:induction false} WrittenIsParsed(
      protocol: int, browser: string, hostname: string, route: string, mode: Option<string>, focused: bool)
    requires protocol == 1 || protocol == 2
    requires IsWord(browser) && IsWord(hostname) && IsWord(route) && (mode.Some? ==> IsWord(mode.value))
    ensures var text := Written(protocol, browser, hostname, route, mode, focused);
            Parse(text) == if |text| > 8192 then Err(MessageSize)
                           else Outcome(protocol, browser, hostname, route, mode, focused)
  {
    var body := BodyText(protocol, browser, hostname, route, mode, focused);
    hide IsWord, ReadBody, Finish, Parse, Entry, InQuotes, FromMode, RouteOf, ModeOf, IsHost, AllRead;
    assert Written(protocol, browser, hostname, route, mode, focused) == "{" + body;
    WordsAreKnown(route, mode);
    OpenedText(body);
    BodyIsRead(protocol, browser, hostname, route, mode, focused);
    if RouteOf(route).Some? && (mode.Some? ==> ModeOf(mode.value).Some?) {
      AllIsFinished(protocol, browser, hostname, route, mode, focused);
    }
  }

  /** A page of `voz.vn` that has the focus, on the route `tsf`. */
  lemma {:induction false} OnePage()
    ensures Parse(Written(1, "firefox.exe", "voz.vn", "tsf", None, true))
            == Ok(Message(1, "firefox.exe", "voz.vn", ForceTsf, DefaultMode, true))
  {
    hide Parse, BodyText;
    assert |Written(1, "firefox.exe", "voz.vn", "tsf", None, true)| < 200 by { OnePageIsShort(); }
    WrittenIsParsed(1, "firefox.exe", "voz.vn", "tsf", None, true);
    HostIsSafe("voz.vn");
  }

  lemma {:induction false} OnePageIsShort()
    ensures |Written(1, "firefox.exe", "voz.vn", "tsf", None, true)| < 200
  {
  }

  // ---------- The first thing that is wrong ----------

  /** A text that is no object. */
  lemma {:induction false} NoObject(json: string)
    requires json != "" && |json| <= 8192
    requires SkipSpace(json) == "" || SkipSpace(json)[0] != '{'
    ensures Parse(json) == Err(JsonObject)
  {
  }

  /** A body that starts with neither a key nor the closing brace. */
  lemma {:induction false} NoKey(body: string, slots: Slots)
    requires SkipSpace(body) == "" || (SkipSpace(body)[0] != '"' && SkipSpace(body)[0] != '}')
    ensures ReadBody(body, slots) == Err(JsonKey)
  {
    SkippedOnce(body);
  }

  lemma {:induction false} SkippedOnce(t: string)
    ensures SkipSpace(SkipSpace(t)) == SkipSpace(t)
  {
  }

  /** A key with no colon behind it, an unknown key, or one that has come before. */
  lemma {:induction false} BadMember(key: string, rest: string, slots: Slots)
    requires IsWord(key)
    ensures SkipSpace(rest) == "" || SkipSpace(rest)[0] != ':' ==>
              ReadBody(InQuotes(key) + rest, slots) == Err(JsonColon)
    ensures SkipSpace(rest) != "" && SkipSpace(rest)[0] == ':' ==>
              && (key !in ["protocol", "browser", "hostname", "route", "mode", "focused"] ==>
                    ReadBody(InQuotes(key) + rest, slots) == Err(UnknownField))
              && (KindOf(key).Some? && slots.Filled(KindOf(key).value) ==>
                    ReadBody(InQuotes(key) + rest, slots) == Err(DuplicateField))
  {
    WordIsPlain(key);
    ReadStringReads("", key, rest);
    assert "" + (Quoted(key) + rest) == InQuotes(key) + rest;
    SpaceSkipsNothing(InQuotes(key) + rest);
    hide TakeQuoted, ReadValue;
  }

  /** A key whose value is not of its kind. */
  lemma {:induction false} BadValue(key: string, value: string, slots: Slots)
    requires KindOf(key).Some? && !slots.Filled(KindOf(key).value) && SkipSpace(value) != ""
    ensures var v, r := SkipSpace(value), ReadBody(InQuotes(key) + (":" + value), slots);
            && (key == "protocol" && !('0' <= v[0] <= '9') ==> r == Err(BadProtocol))
            && (key == "browser" && v[0] != '"' ==> r == Err(BadBrowser))
            && (key == "hostname" && v[0] != '"' ==> r == Err(BadHostname))
            && (key == "route" && v[0] != '"' ==> r == Err(BadRoute))
            && (key == "mode" && v[0] != '"' ==> r == Err(BadMode))
            && (key == "focused" && v[0] != 't' && v[0] != 'f' ==> r == Err(BadFocused))
  {
    assert Plain(key) by { KeyIsPlain(key); }
    MemberAt(key, value, slots);
    SpaceSkipsNothing(InQuotes(key) + (":" + value));
    hide TakeQuoted;
  }

  lemma {:induction false} KeyIsPlain(key: string)
    requires KindOf(key).Some?
    ensures Plain(key)
  {
  }

  /** A member with neither a comma nor the closing brace behind it. */
  lemma {:induction false} NoSeparator(key: string, value: string, rest: string, slots: Slots)
    requires KindOf(key).Some? && !slots.Filled(KindOf(key).value)
    requires ReadValue(KindOf(key).value, value + rest, slots).Ok?
    requires ReadValue(KindOf(key).value, value + rest, slots).value.1 == rest
    requires SkipSpace(rest) == "" || (SkipSpace(rest)[0] != ',' && SkipSpace(rest)[0] != '}')
    ensures ReadBody(InQuotes(key) + (":" + (value + rest)), slots) == Err(JsonSeparator)
  {
    KeyIsPlain(key);
    MemberAt(key, value + rest, slots);
    SpaceSkipsNothing(InQuotes(key) + (":" + (value + rest)));
    hide ReadValue;
  }
}
