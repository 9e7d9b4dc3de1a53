/** The browser host's message parser: which texts it accepts, and which message each one is.
    A text is a sequence of bytes, written here as characters. */
module NativeMessaging {

  import opened Wrappers
  import opened Sequences

  const MAX_MESSAGE_BYTES := 8192
  const MAX_INT := 0x7FFF_FFFF

  datatype Route = DefaultRoute | ForceEnglish | ForceTsf
  datatype Mode = DefaultMode | Vietnamese | English

  datatype Message = Message(protocol: int, browser: string, hostname: string, route: Route, mode: Mode, focused: bool)

  datatype Error =
    | MessageSize | JsonObject | JsonKey | JsonColon | JsonSeparator | DuplicateField | UnknownField
    | BadProtocol | BadBrowser | BadHostname | BadRoute | BadMode | BadFocused
    | RequiredFields | BrowserAllowlist | HostnameChars | HostnameEmpty

  // ---------- What a message is ----------

  datatype Kind = KProtocol | KBrowser | KHostname | KRoute | KMode | KFocused

  /** A member of the object, as it is written. */
  datatype Field =
    | FProtocol(zeros: nat, protocol: int)
    | FBrowser(browser: string)
    | FHostname(hostname: string)
    | FRoute(route: Route)
    | FMode(mode: Mode)
    | FFocused(focused: bool)
  {
    function Kind(): Kind {
      match this
      case FProtocol(_, _) => KProtocol
      case FBrowser(_) => KBrowser
      case FHostname(_) => KHostname
      case FRoute(_) => KRoute
      case FMode(_) => KMode
      case FFocused(_) => KFocused
    }

    predicate Writable() {
      match this
      case FProtocol(_, p) => p == 1 || p == 2
      case FBrowser(b) => Plain(b)
      case FHostname(h) => Plain(h)
      case _ => true
    }

    function ValueText(): string {
      match this
      case FProtocol(z, p) => Zeros(z) + (if p == 1 then "1" else "2")
      case FBrowser(b) => Quoted(b)
      case FHostname(h) => Quoted(h)
      case FRoute(r) => Quoted(RouteText(r))
      case FMode(m) => Quoted(ModeText(m))
      case FFocused(f) => if f then "true" else "false"
    }
  }

  function KeyText(k: Kind): string {
    match k
    case KProtocol => "protocol"
    case KBrowser => "browser"
    case KHostname => "hostname"
    case KRoute => "route"
    case KMode => "mode"
    case KFocused => "focused"
  }

  function RouteText(r: Route): string {
    match r
    case DefaultRoute => "default"
    case ForceEnglish => "english"
    case ForceTsf => "tsf"
  }

  function ModeText(m: Mode): string {
    match m
    case DefaultMode => "default"
    case Vietnamese => "vietnamese"
    case English => "english"
  }

  function Zeros(n: nat): (r: string)
    ensures |r| == n && forall k :: 0 <= k < n ==> r[k] == '0'
  {
    seq(n, _ => '0')
  }

  function Quoted(s: string): string { "\"" + s + "\"" }

  /** `std::isspace` in the C locale. */
  predicate IsSpace(c: char) { c == ' ' || 9 <= c as int <= 13 }

  predicate Blank(s: string) { forall k :: 0 <= k < |s| ==> IsSpace(s[k]) }

  predicate PlainChar(c: char) { c != '"' && c != '\\' && c as int >= 0x20 }

  predicate Plain(s: string) { forall k :: 0 <= k < |s| ==> PlainChar(s[k]) }

  /** One member with the blanks around its tokens. */
  datatype Member = Member(
    field: Field, beforeKey: string, beforeColon: string, beforeValue: string, afterValue: string)
  {
    predicate Valid() {
      field.Writable() && Blank(beforeKey) && Blank(beforeColon) && Blank(beforeValue) && Blank(afterValue)
    }

    /** The text after the blanks before the key. */
    function FromKey(rest: string): string {
      Quoted(KeyText(field.Kind())) + (beforeColon + (":" + (beforeValue + (field.ValueText() + (afterValue + rest)))))
    }

    function Text(rest: string): string { beforeKey + FromKey(rest) }
  }

  /** What follows the opening brace: members between commas, with one allowed after the last. */
  datatype Body = Close(blank: string) | Last(member: Member) | More(member: Member, others: Body) {
    predicate Valid() {
      match this
      case Close(b) => Blank(b)
      case Last(m) => m.Valid()
      case More(m, o) => m.Valid() && o.Valid()
    }

    function Text(rest: string): string {
      match this
      case Close(b) => b + ("}" + rest)
      case Last(m) => m.Text("}" + rest)
      case More(m, o) => m.Text("," + o.Text(rest))
    }

    function Fields(): seq<Field> {
      match this
      case Close(_) => []
      case Last(m) => [m.field]
      case More(m, o) => [m.field] + o.Fields()
    }
  }

  datatype Document = Document(before: string, body: Body, after: string) {
    predicate Valid() { Blank(before) && body.Valid() && Blank(after) }
    function Text(): string { before + ("{" + body.Text(after)) }
  }

  predicate NoRepeats(fs: seq<Field>) {
    forall i, j :: 0 <= i < j < |fs| ==> fs[i].Kind() != fs[j].Kind()
  }

  predicate AllowedBrowser(b: string) {
    b in ["chrome.exe", "msedge.exe", "brave.exe", "firefox.exe", "vivaldi.exe", "opera.exe"]
  }

  predicate SafeHostnameChar(c: char) {
    'a' <= c <= 'z' || '0' <= c <= '9' || c == '.' || c == '-' || c == ':'
  }

  predicate SafeHostname(h: string) {
    |h| < 256 && forall k :: 0 <= k < |h| ==> SafeHostnameChar(h[k])
  }

  predicate HasProtocol(fs: seq<Field>, protocol: int) {
    exists k :: 0 <= k < |fs| && fs[k].FProtocol? && fs[k].protocol == protocol
  }

  /** The fields, in any order, say exactly this message. */
  predicate Says(fs: seq<Field>, m: Message) {
    && NoRepeats(fs)
    && HasProtocol(fs, m.protocol)
    && FBrowser(m.browser) in fs && FHostname(m.hostname) in fs && FRoute(m.route) in fs && FFocused(m.focused) in fs
    && (if m.protocol == 2 then FMode(m.mode) in fs
        else m.mode == DefaultMode && forall f :: f in fs ==> !f.FMode?)
    && AllowedBrowser(m.browser) && SafeHostname(m.hostname) && (m.focused ==> m.hostname != "")
  }

  ghost predicate Accepted(json: string, m: Message) {
    |json| <= MAX_MESSAGE_BYTES && exists d: Document :: d.Valid() && d.Text() == json && Says(d.body.Fields(), m)
  }

  // ---------- The reader, on the text that is left ----------

  function SkipSpace(t: string): (r: string)
    ensures |r| <= |t| && (r == [] || !IsSpace(r[0]))
  {
    if t != [] && IsSpace(t[0]) then SkipSpace(t[1..]) else t
  }

  /** The text up to the closing quote, and what follows the quote. */
  function TakeQuoted(t: string): (r: Option<(string, string)>)
    ensures r.Some? ==> |r.value.1| < |t|
  {
    if t == [] then None
    else if t[0] == '"' then Some(("", t[1..]))
    else if !PlainChar(t[0]) then None
    else match TakeQuoted(t[1..])
      case None => None
      case Some(p) => Some(([t[0]] + p.0, p.1))
  }

  function ReadString(t: string): (r: Option<(string, string)>)
    ensures r.Some? ==> |r.value.1| < |t|
  {
    var u := SkipSpace(t);
    if u == [] || u[0] != '"' then None else TakeQuoted(u[1..])
  }

  function ReadLiteral(t: string, literal: string): (r: Option<string>)
    ensures r.Some? ==> |r.value| <= |t|
  {
    var u := SkipSpace(t);
    if literal <= u then Some(u[|literal|..]) else None
  }

  predicate IsDigit(c: char) { '0' <= c <= '9' }

  function TakeDigits(t: string): (r: (string, string))
    ensures |r.1| <= |t| && |r.0| + |r.1| == |t|
  {
    if t != [] && IsDigit(t[0]) then
      var r := TakeDigits(t[1..]);
      ([t[0]] + r.0, r.1)
    else ("", t)
  }

  function DigitsValue(d: string): int {
    if d == [] then 0 else DigitsValue(d[..|d| - 1]) * 10 + (d[|d| - 1] as int - '0' as int)
  }

  /** `std::from_chars` into an int, given a run of digits. */
  function FromChars(d: string): Option<int> {
    if d == [] || DigitsValue(d) > MAX_INT then None else Some(DigitsValue(d))
  }

  function KindOf(key: string): Option<Kind> {
    if key == "protocol" then Some(KProtocol)
    else if key == "browser" then Some(KBrowser)
    else if key == "hostname" then Some(KHostname)
    else if key == "route" then Some(KRoute)
    else if key == "mode" then Some(KMode)
    else if key == "focused" then Some(KFocused)
    else None
  }

  function RouteOf(s: string): Option<Route> {
    if s == "default" then Some(DefaultRoute)
    else if s == "english" then Some(ForceEnglish)
    else if s == "tsf" then Some(ForceTsf)
    else None
  }

  function ModeOf(s: string): Option<Mode> {
    if s == "default" then Some(DefaultMode)
    else if s == "vietnamese" then Some(Vietnamese)
    else if s == "english" then Some(English)
    else None
  }

  /** The values read so far; a missing value stands for its `have` flag unset. */
  datatype Slots = Slots(protocol: Option<int>, browser: Option<string>, hostname: Option<string>,
                         route: Option<Route>, mode: Option<Mode>, focused: Option<bool>)
  {
    predicate Filled(k: Kind) {
      match k
      case KProtocol => protocol.Some?
      case KBrowser => browser.Some?
      case KHostname => hostname.Some?
      case KRoute => route.Some?
      case KMode => mode.Some?
      case KFocused => focused.Some?
    }

    function Put(f: Field): Slots {
      match f
      case FProtocol(_, p) => this.(protocol := Some(p))
      case FBrowser(b) => this.(browser := Some(b))
      case FHostname(h) => this.(hostname := Some(h))
      case FRoute(r) => this.(route := Some(r))
      case FMode(m) => this.(mode := Some(m))
      case FFocused(b) => this.(focused := Some(b))
    }
  }

  const NO_SLOTS := Slots(None, None, None, None, None, None)

  function ReadProtocol(t: string): (r: Result<(int, string), Error>)
    ensures r.Ok? ==> |r.value.1| <= |t| && r.value.0 in [1, 2]
  {
    var d := TakeDigits(SkipSpace(t));
    match FromChars(d.0)
    case Some(v) => if v == 1 || v == 2 then Ok((v, d.1)) else Err(BadProtocol)
    case None => Err(BadProtocol)
  }

  /** The value of a field of the given kind, put in its slot. */
  function ReadValue(k: Kind, t: string, slots: Slots): (r: Result<(Slots, string), Error>)
    ensures r.Ok? ==> |r.value.1| <= |t|
  {
    match k
    case KProtocol =>
      (match ReadProtocol(t)
       case Ok(p) => Ok((slots.(protocol := Some(p.0)), p.1))
       case Err(e) => Err(e))
    case KBrowser =>
      (match ReadString(t)
       case Some(p) => Ok((slots.(browser := Some(p.0)), p.1))
       case None => Err(BadBrowser))
    case KHostname =>
      (match ReadString(t)
       case Some(p) => Ok((slots.(hostname := Some(p.0)), p.1))
       case None => Err(BadHostname))
    case KRoute =>
      (match ReadString(t)
       case Some(p) => if RouteOf(p.0).Some? then Ok((slots.(route := RouteOf(p.0)), p.1)) else Err(BadRoute)
       case None => Err(BadRoute))
    case KMode =>
      (match ReadString(t)
       case Some(p) => if ModeOf(p.0).Some? then Ok((slots.(mode := ModeOf(p.0)), p.1)) else Err(BadMode)
       case None => Err(BadMode))
    case KFocused =>
      var yes, no := ReadLiteral(t, "true"), ReadLiteral(t, "false");
      if yes.Some? then Ok((slots.(focused := Some(true)), yes.value))
      else if no.Some? then Ok((slots.(focused := Some(false)), no.value))
      else Err(BadFocused)
  }

  /** One member up to the end of its value. */
  function ReadMember(t: string, slots: Slots): (r: Result<(Slots, string), Error>)
    ensures r.Ok? ==> |r.value.1| < |t|
  {
    match ReadString(t)
    case None => Err(JsonKey)
    case Some(p) =>
      var c := SkipSpace(p.1);
      if c == [] || c[0] != ':' then Err(JsonColon)
      else
        match KindOf(p.0)
        case None => Err(UnknownField)
        case Some(k) => if slots.Filled(k) then Err(DuplicateField) else ReadValue(k, c[1..], slots)
  }

  function ReadBody(t: string, slots: Slots): Result<(Slots, string), Error>
    decreases |t|
  {
    var u := SkipSpace(t);
    if u != [] && u[0] == '}' then Ok((slots, u[1..]))
    else
      match ReadMember(u, slots)
      case Err(e) => Err(e)
      case Ok(p) =>
        var w := SkipSpace(p.1);
        if w != [] && w[0] == ',' then ReadBody(w[1..], p.0)
        else if w != [] && w[0] == '}' then Ok((p.0, w[1..]))
        else Err(JsonSeparator)
  }

  predicate Complete(s: Slots) {
    && s.protocol.Some? && s.browser.Some? && s.hostname.Some? && s.route.Some? && s.focused.Some?
    && (s.protocol.value == 2 ==> s.mode.Some?) && (s.protocol.value == 1 ==> s.mode.None?)
  }

  function Finish(s: Slots, rest: string): Result<Message, Error> {
    if SkipSpace(rest) != [] || !Complete(s) then Err(RequiredFields)
    else if !AllowedBrowser(s.browser.value) then Err(BrowserAllowlist)
    else if !SafeHostname(s.hostname.value) then Err(HostnameChars)
    else if s.focused.value && s.hostname.value == "" then Err(HostnameEmpty)
    else Ok(Message(s.protocol.value, s.browser.value, s.hostname.value, s.route.value,
                         if s.mode.Some? then s.mode.value else DefaultMode, s.focused.value))
  }

  function Parse(json: string): Result<Message, Error> {
    if json == [] || |json| > MAX_MESSAGE_BYTES then Err(MessageSize)
    else
      var u := SkipSpace(json);
      if u == [] || u[0] != '{' then Err(JsonObject)
      else
        match ReadBody(u[1..], NO_SLOTS)
        case Err(e) => Err(e)
        case Ok(p) => Finish(p.0, p.1)
  }

  // ---------- Every layout is read ----------

  predicate StartsBlank(t: string) { t != [] && IsSpace(t[0]) }

  lemma {:induction false} SkipBlank(b: string, t: string)
    requires Blank(b) && !StartsBlank(t)
    ensures SkipSpace(b + t) == t
  {
    if b == [] {
      assert b + t == t;
    } else {
      assert (b + t)[1..] == b[1..] + t;
      SkipBlank(b[1..], t);
    }
  }

  lemma {:induction false} TakeQuotedReads(v: string, t: string)
    requires Plain(v)
    ensures TakeQuoted(v + ("\"" + t)) == Some((v, t))
  {
    var all := v + ("\"" + t);
    if v == [] {
      assert all[0] == '"' && all[1..] == t;
    } else {
      assert all[0] == v[0] && all[1..] == v[1..] + ("\"" + t);
      TakeQuotedReads(v[1..], t);
      assert v == [v[0]] + v[1..];
    }
  }

  lemma {:induction false} ReadStringReads(b: string, v: string, t: string)
    requires Blank(b) && Plain(v)
    ensures ReadString(b + (Quoted(v) + t)) == Some((v, t))
  {
    SkipBlank(b, Quoted(v) + t);
    TakeQuotedReads(v, t);
    QuotedStarts(v, t);
    hide SkipSpace, TakeQuoted, Blank, Plain, IsSpace, Quoted;
  }

  lemma {:induction false} QuotedStarts(v: string, t: string)
    ensures (Quoted(v) + t)[0] == '"' && (Quoted(v) + t)[1..] == v + ("\"" + t)
  {
  }

  predicate Digits(d: string) { forall k :: 0 <= k < |d| ==> IsDigit(d[k]) }

  predicate StartsDigit(t: string) { t != [] && IsDigit(t[0]) }

  lemma {:induction false} TakeDigitsReads(d: string, t: string)
    requires Digits(d) && !StartsDigit(t)
    ensures TakeDigits(d + t) == (d, t)
  {
    if d == [] {
      assert d + t == t;
    } else {
      assert (d + t)[1..] == d[1..] + t && d == [d[0]] + d[1..];
      TakeDigitsReads(d[1..], t);
    }
  }

  lemma {:induction false} ZerosAreZero(d: string)
    requires Digits(d)
    ensures DigitsValue(d) >= 0
    ensures DigitsValue(d) == 0 <==> d == Zeros(|d|)
  {
    if d != [] {
      ZerosAreZero(d[..|d| - 1]);
      assert Zeros(|d|) == Zeros(|d| - 1) + "0";
      assert d == d[..|d| - 1] + [d[|d| - 1]];
    }
  }

  /** A run of digits is worth one or two exactly when it is that digit behind zeros. */
  lemma {:induction false} SmallDigits(d: string)
    requires Digits(d) && d != []
    ensures DigitsValue(d) == 1 <==> d == Zeros(|d| - 1) + "1"
    ensures DigitsValue(d) == 2 <==> d == Zeros(|d| - 1) + "2"
  {
    ZerosAreZero(d[..|d| - 1]);
    assert d == d[..|d| - 1] + [d[|d| - 1]];
    if DigitsValue(d) in [1, 2] { assert d[..|d| - 1] == Zeros(|d| - 1); }
  }

  lemma {:induction false} ReadProtocolReads(b: string, zeros: nat, p: int, t: string)
    requires Blank(b) && p in [1, 2] && !StartsDigit(t)
    ensures ReadProtocol(b + (FProtocol(zeros, p).ValueText() + t)) == Ok((p, t))
  {
    var d := FProtocol(zeros, p).ValueText();
    assert |d| == zeros + 1 && d == Zeros(|d| - 1) + (if p == 1 then "1" else "2");
    assert Digits(d);
    SkipBlank(b, d + t);
    TakeDigitsReads(d, t);
    SmallDigits(d);
  }

  lemma {:induction false} ReadLiteralReads(b: string, literal: string, t: string)
    requires Blank(b) && literal != [] && !IsSpace(literal[0])
    ensures ReadLiteral(b + (literal + t), literal) == Some(t)
  {
    SkipBlank(b, literal + t);
    assert literal <= literal + t && (literal + t)[|literal|..] == t;
  }

  lemma {:induction false} RoutesArePlain(r: Route)
    ensures Plain(RouteText(r)) && RouteOf(RouteText(r)) == Some(r)
  {
  }

  lemma {:induction false} ModesArePlain(m: Mode)
    ensures Plain(ModeText(m)) && ModeOf(ModeText(m)) == Some(m)
  {
  }

  lemma {:induction false} KeysArePlain(k: Kind)
    ensures Plain(KeyText(k)) && KindOf(KeyText(k)) == Some(k)
  {
  }

  lemma {:induction false} ReadValueReads(f: Field, b: string, t: string, slots: Slots)
    requires f.Writable() && Blank(b) && !StartsDigit(t)
    ensures ReadValue(f.Kind(), b + (f.ValueText() + t), slots) == Ok((slots.Put(f), t))
  {
    match f
    case FProtocol(z, p) =>
      ReadProtocolReads(b, z, p, t);
    case FBrowser(v) =>
      ReadStringReads(b, v, t);
    case FHostname(v) =>
      ReadStringReads(b, v, t);
    case FRoute(r) =>
      RoutesArePlain(r);
      ReadStringReads(b, RouteText(r), t);
    case FMode(m) =>
      ModesArePlain(m);
      ReadStringReads(b, ModeText(m), t);
    case FFocused(v) =>
      ReadLiteralReads(b, if v then "true" else "false", t);
      SkipBlank(b, f.ValueText() + t);
      if !v { assert (f.ValueText() + t)[0] == 'f'; }
  }

  lemma {:induction false} ReadMemberReads(m: Member, rest: string, slots: Slots)
    requires m.Valid() && !slots.Filled(m.field.Kind())
    requires !StartsDigit(rest) && !StartsBlank(rest)
    ensures ReadMember(m.FromKey(rest), slots) == Ok((slots.Put(m.field), m.afterValue + rest))
  {
    var key := KeyText(m.field.Kind());
    var value := m.beforeValue + (m.field.ValueText() + (m.afterValue + rest));
    KeysArePlain(m.field.Kind());
    ReadStringReads("", key, m.beforeColon + (":" + value));
    assert "" + m.FromKey(rest) == m.FromKey(rest);
    SkipBlank(m.beforeColon, ":" + value);
    assert (":" + value)[1..] == value;
    ReadValueReads(m.field, m.beforeValue, m.afterValue + rest, slots);
  }

  predicate CanPutAll(slots: Slots, fs: seq<Field>)
    decreases |fs|
  {
    fs == [] || (!slots.Filled(fs[0].Kind()) && CanPutAll(slots.Put(fs[0]), fs[1..]))
  }

  function PutAll(slots: Slots, fs: seq<Field>): Slots
    decreases |fs|
  {
    if fs == [] then slots else PutAll(slots.Put(fs[0]), fs[1..])
  }

  lemma {:induction false} ReadBodyReads(body: Body, rest: string, slots: Slots)
    requires body.Valid() && CanPutAll(slots, body.Fields())
    ensures ReadBody(body.Text(rest), slots) == Ok((PutAll(slots, body.Fields()), rest))
  {
    hide IsSpace, PlainChar, ReadMember, KeyText;
    match body
    case Close(b) =>
      CloseReads(b, "}" + rest);
      assert ("}" + rest)[1..] == rest;
    case Last(m) =>
      MemberReads(m, "}" + rest, slots);
      assert ("}" + rest)[1..] == rest;
      assert [m.field][1..] == [];
    case More(m, others) =>
      MemberReads(m, "," + others.Text(rest), slots);
      assert ("," + others.Text(rest))[1..] == others.Text(rest);
      assert body.Fields()[1..] == others.Fields();
      ReadBodyReads(others, rest, slots.Put(m.field));
  }

  lemma {:induction false} CloseReads(b: string, t: string)
    requires Blank(b) && t != [] && t[0] == '}'
    ensures SkipSpace(b + t) == t
  {
    SkipBlank(b, t);
  }

  /** A member, then the separator that follows it. */
  lemma {:induction false} MemberReads(m: Member, rest: string, slots: Slots)
    requires m.Valid() && !slots.Filled(m.field.Kind())
    requires rest != [] && rest[0] in [',', '}']
    ensures SkipSpace(m.Text(rest)) == m.FromKey(rest) && m.FromKey(rest)[0] == '"'
    ensures ReadMember(m.FromKey(rest), slots) == Ok((slots.Put(m.field), m.afterValue + rest))
    ensures SkipSpace(m.afterValue + rest) == rest
  {
    SkipBlank(m.beforeKey, m.FromKey(rest));
    ReadMemberReads(m, rest, slots);
    SkipBlank(m.afterValue, rest);
  }

  // ---------- Everything read has a layout ----------

  lemma {:induction false} SplitBlank(t: string) returns (b: string)
    ensures Blank(b) && t == b + SkipSpace(t)
  {
    if t != [] && IsSpace(t[0]) {
      var c := SplitBlank(t[1..]);
      b := [t[0]] + c;
      assert t == [t[0]] + t[1..];
    } else {
      b := "";
    }
  }

  lemma {:induction false} TakeQuotedSplits(t: string)
    requires TakeQuoted(t).Some?
    ensures var (v, r) := TakeQuoted(t).value; Plain(v) && t == v + ("\"" + r)
  {
    if t[0] != '"' {
      TakeQuotedSplits(t[1..]);
      var (v, r) := TakeQuoted(t[1..]).value;
      assert t == [t[0]] + t[1..] == ([t[0]] + v) + ("\"" + r);
    }
  }

  lemma {:induction false} ReadStringSplits(t: string) returns (b: string)
    requires ReadString(t).Some?
    ensures var (v, r) := ReadString(t).value; Blank(b) && Plain(v) && t == b + (Quoted(v) + r)
  {
    b := SplitBlank(t);
    var u := SkipSpace(t);
    TakeQuotedSplits(u[1..]);
    var (v, r) := ReadString(t).value;
    hide SkipSpace, TakeQuoted, IsSpace, PlainChar, ReadString;
    Regroup("\"", v, "\"" + r);
    Regroup("\"" + v, "\"", r);
    assert u == "\"" + u[1..];
  }

  lemma {:induction false} TakeDigitsSplits(t: string)
    ensures var (d, r) := TakeDigits(t); Digits(d) && t == d + r
  {
    if t != [] && IsDigit(t[0]) {
      TakeDigitsSplits(t[1..]);
      var (d, r) := TakeDigits(t[1..]);
      Regroup([t[0]], d, r);
      assert t == [t[0]] + t[1..];
      hide IsDigit;
    }
  }

  lemma {:induction false} ReadProtocolSplits(t: string) returns (b: string, zeros: nat)
    requires ReadProtocol(t).Ok?
    ensures var (p, r) := ReadProtocol(t).value; Blank(b) && t == b + (FProtocol(zeros, p).ValueText() + r)
  {
    b := SplitBlank(t);
    TakeDigitsSplits(SkipSpace(t));
    var (d, r) := TakeDigits(SkipSpace(t));
    SmallDigits(d);
    zeros := |d| - 1;
  }

  lemma {:induction false} ReadLiteralSplits(t: string, literal: string) returns (b: string)
    requires ReadLiteral(t, literal).Some?
    ensures Blank(b) && t == b + (literal + ReadLiteral(t, literal).value)
  {
    b := SplitBlank(t);
    hide SkipSpace, Blank, IsSpace;
    var u := SkipSpace(t);
    assert u == u[..|literal|] + u[|literal|..];
  }

  lemma {:induction false} WordsOf(s: string)
    ensures RouteOf(s).Some? ==> RouteText(RouteOf(s).value) == s
    ensures ModeOf(s).Some? ==> ModeText(ModeOf(s).value) == s
    ensures KindOf(s).Some? ==> KeyText(KindOf(s).value) == s
  {
  }

  lemma {:induction false} ReadValueSplits(k: Kind, t: string, slots: Slots) returns (f: Field, b: string)
    requires ReadValue(k, t, slots).Ok?
    ensures var (after, r) := ReadValue(k, t, slots).value;
            && f.Kind() == k && f.Writable() && Blank(b)
            && t == b + (f.ValueText() + r) && after == slots.Put(f)
  {
    hide SkipSpace, IsSpace, Plain, TakeQuoted, DigitsValue;
    match k
    case KProtocol =>
      var zeros;
      b, zeros := ReadProtocolSplits(t);
      f := FProtocol(zeros, ReadProtocol(t).value.0);
    case KBrowser =>
      b := ReadStringSplits(t);
      f := FBrowser(ReadString(t).value.0);
    case KHostname =>
      b := ReadStringSplits(t);
      f := FHostname(ReadString(t).value.0);
    case KRoute =>
      b := ReadStringSplits(t);
      WordsOf(ReadString(t).value.0);
      f := FRoute(RouteOf(ReadString(t).value.0).value);
    case KMode =>
      b := ReadStringSplits(t);
      WordsOf(ReadString(t).value.0);
      f := FMode(ModeOf(ReadString(t).value.0).value);
    case KFocused =>
      f := FFocused(ReadLiteral(t, "true").Some?);
      b := ReadLiteralSplits(t, if f.focused then "true" else "false");
  }

  lemma {:induction false} ReadMemberSplits(t: string, slots: Slots) returns (m: Member)
    requires ReadMember(t, slots).Ok?
    ensures var (after, r) := ReadMember(t, slots).value;
            && m.Valid() && m.afterValue == "" && t == m.Text(r)
            && !slots.Filled(m.field.Kind()) && after == slots.Put(m.field)
  {
    var beforeKey := ReadStringSplits(t);
    var (key, p) := ReadString(t).value;
    WordsOf(key);
    var k := KindOf(key).value;
    var beforeColon := SplitBlank(p);
    var c := SkipSpace(p);
    assert c == ":" + c[1..];
    var field, beforeValue := ReadValueSplits(k, c[1..], slots);
    m := Member(field, beforeKey, beforeColon, beforeValue, "");
    var (after, r) := ReadMember(t, slots).value;
    assert "" + r == r;
  }

  lemma {:induction false} ReadBodySplits(t: string, slots: Slots) returns (body: Body)
    requires ReadBody(t, slots).Ok?
    ensures var (after, r) := ReadBody(t, slots).value;
            && body.Valid() && t == body.Text(r)
            && CanPutAll(slots, body.Fields()) && after == PutAll(slots, body.Fields())
    decreases |t|
  {
    hide ReadMember, IsSpace, SkipSpace, KeyText;
    var lead := SplitBlank(t);
    var u := SkipSpace(t);
    if u != [] && u[0] == '}' {
      assert u == "}" + u[1..];
      return Close(lead);
    }
    var m := ReadMemberSplits(u, slots);
    var (after, v) := ReadMember(u, slots).value;
    var afterValue := SplitBlank(v);
    var w := SkipSpace(v);
    var whole := m.(beforeKey := lead + m.beforeKey, afterValue := afterValue);
    assert w == [w[0]] + w[1..];
    MemberWithBlanks(m, whole, lead, afterValue, w, v);
    if w[0] == ',' {
      var others := ReadBodySplits(w[1..], after);
      body := More(whole, others);
      assert body.Fields()[1..] == others.Fields();
    } else {
      body := Last(whole);
      assert body.Fields()[1..] == [];
    }
  }

  lemma {:induction false} MemberWithBlanks(
      m: Member, whole: Member, lead: string, afterValue: string, w: string, v: string)
    requires m.Valid() && m.afterValue == "" && Blank(lead) && Blank(afterValue) && v == afterValue + w
    requires whole == m.(beforeKey := lead + m.beforeKey, afterValue := afterValue)
    ensures whole.Valid() && whole.field == m.field && whole.Text(w) == lead + m.Text(v)
  {
    assert "" + v == v;
    var value := m.field.ValueText();
    FromKeyIs(m, v, value + v);
    FromKeyIs(whole, w, value + v);
    hide Member.FromKey, KeyText, Field.ValueText, Blank, Field.Kind;
    var key := m.FromKey(v);
    BlankBefore(lead, m.beforeKey);
    Regroup(lead, m.beforeKey, key);
  }

  lemma {:induction false} FromKeyIs(m: Member, rest: string, tail: string)
    requires tail == m.field.ValueText() + (m.afterValue + rest)
    ensures m.FromKey(rest) == Quoted(KeyText(m.field.Kind())) + (m.beforeColon + (":" + (m.beforeValue + tail)))
  {
  }

  lemma {:induction false} BlankBefore(a: string, b: string)
    requires Blank(a) && Blank(b)
    ensures Blank(a + b)
  {
  }

  // ---------- Slots and fields ----------

  /** The slot of this field's kind holds this field's value. */
  predicate Has(s: Slots, f: Field) {
    match f
    case FProtocol(_, p) => s.protocol == Some(p)
    case FBrowser(b) => s.browser == Some(b)
    case FHostname(h) => s.hostname == Some(h)
    case FRoute(r) => s.route == Some(r)
    case FMode(m) => s.mode == Some(m)
    case FFocused(b) => s.focused == Some(b)
  }

  /** Equal but for the zeros before a protocol number. */
  predicate SameValue(f: Field, g: Field) {
    f == g || (f.FProtocol? && g.FProtocol? && f.protocol == g.protocol)
  }

  ghost predicate Holds(fs: seq<Field>, f: Field) { exists k :: 0 <= k < |fs| && SameValue(fs[k], f) }

  lemma {:induction false} CanPutAllMeans(slots: Slots, fs: seq<Field>)
    ensures CanPutAll(slots, fs) <==> NoRepeats(fs) && forall i :: 0 <= i < |fs| ==> !slots.Filled(fs[i].Kind())
    decreases |fs|
  {
    if fs != [] {
      var rest := fs[1..];
      CanPutAllMeans(slots.Put(fs[0]), rest);
      assert forall i :: 1 <= i < |fs| ==> fs[i] == rest[i - 1];
      assert forall i :: 0 <= i < |rest| ==> rest[i] == fs[i + 1];
      forall i | 0 <= i < |rest|
        ensures slots.Put(fs[0]).Filled(rest[i].Kind())
                <==> slots.Filled(rest[i].Kind()) || rest[i].Kind() == fs[0].Kind()
      {
      }
    }
  }

  lemma {:induction false} PutAllHolds(slots: Slots, fs: seq<Field>, f: Field)
    requires CanPutAll(slots, fs)
    ensures Has(PutAll(slots, fs), f) <==> Has(slots, f) || Holds(fs, f)
    decreases |fs|
  {
    if fs != [] {
      var rest := fs[1..];
      PutAllHolds(slots.Put(fs[0]), rest, f);
      assert Holds(fs, f) <==> SameValue(fs[0], f) || Holds(rest, f) by {
        if Holds(fs, f) {
          var k :| 0 <= k < |fs| && SameValue(fs[k], f);
          if k > 0 { assert SameValue(rest[k - 1], f); }
        }
        if Holds(rest, f) {
          var k :| 0 <= k < |rest| && SameValue(rest[k], f);
          assert SameValue(fs[k + 1], f);
        }
      }
      assert !slots.Filled(fs[0].Kind());
      assert Has(slots.Put(fs[0]), f) <==> Has(slots, f) || SameValue(fs[0], f);
    }
  }

  predicate AllWritable(fs: seq<Field>) { forall i :: 0 <= i < |fs| ==> fs[i].Writable() }

  lemma {:induction false} BodyIsWritable(body: Body)
    requires body.Valid()
    ensures AllWritable(body.Fields())
  {
    if body.More? { BodyIsWritable(body.others); }
  }

  /** The slots hold what the fields say, kind by kind. */
  lemma {:induction false} SlotsSay(fs: seq<Field>, s: Slots)
    requires AllWritable(fs) && CanPutAll(NO_SLOTS, fs) && s == PutAll(NO_SLOTS, fs)
    ensures forall p :: s.protocol == Some(p) <==> HasProtocol(fs, p)
    ensures forall b :: s.browser == Some(b) <==> FBrowser(b) in fs
    ensures forall h :: s.hostname == Some(h) <==> FHostname(h) in fs
    ensures forall r :: s.route == Some(r) <==> FRoute(r) in fs
    ensures forall m :: s.mode == Some(m) <==> FMode(m) in fs
    ensures forall v :: s.focused == Some(v) <==> FFocused(v) in fs
    ensures s.protocol.Some? ==> s.protocol.value in [1, 2]
  {
    hide CanPutAll, PutAll;
    forall f: Field ensures Has(s, f) <==> Holds(fs, f) { PutAllHolds(NO_SLOTS, fs, f); }
    forall p ensures s.protocol == Some(p) <==> HasProtocol(fs, p) {
      assert Has(s, FProtocol(0, p)) <==> Holds(fs, FProtocol(0, p));
    }
    forall b
      ensures s.browser == Some(b) <==> FBrowser(b) in fs
    {
      assert Has(s, FBrowser(b)) <==> Holds(fs, FBrowser(b));
    }
    forall h
      ensures s.hostname == Some(h) <==> FHostname(h) in fs
    {
      assert Has(s, FHostname(h)) <==> Holds(fs, FHostname(h));
    }
    forall r ensures s.route == Some(r) <==> FRoute(r) in fs { assert Has(s, FRoute(r)) <==> Holds(fs, FRoute(r)); }
    forall m ensures s.mode == Some(m) <==> FMode(m) in fs { assert Has(s, FMode(m)) <==> Holds(fs, FMode(m)); }
    forall v
      ensures s.focused == Some(v) <==> FFocused(v) in fs
    {
      assert Has(s, FFocused(v)) <==> Holds(fs, FFocused(v));
    }
    if s.protocol.Some? { assert HasProtocol(fs, s.protocol.value); }
  }

  /** The closing checks accept exactly the message the fields say. */
  lemma {:induction false} FinishSays(fs: seq<Field>, s: Slots, rest: string, m: Message)
    requires AllWritable(fs) && CanPutAll(NO_SLOTS, fs) && s == PutAll(NO_SLOTS, fs)
    ensures Finish(s, rest) == Ok(m) <==> SkipSpace(rest) == [] && Says(fs, m)
  {
    CanPutAllMeans(NO_SLOTS, fs);
    SlotsSay(fs, s);
    hide CanPutAll, PutAll, SkipSpace, AllowedBrowser, SafeHostname, HasProtocol, NoRepeats, AllWritable;
    if s.mode.Some? { assert FMode(s.mode.value) in fs; }
  }

  lemma {:induction false} BlankIsSkipped(t: string)
    ensures SkipSpace(t) == [] <==> Blank(t)
  {
    var b := SplitBlank(t);
    assert SkipSpace(t) == t[|b|..];
    assert SkipSpace(t) == [] ==> t == b;
  }

  /** A document parses to a message exactly when its own fields say it. */
  lemma {:induction false} DocumentSays(d: Document, m: Message)
    requires d.Valid() && |d.Text()| <= MAX_MESSAGE_BYTES && NoRepeats(d.body.Fields())
    ensures Parse(d.Text()) == Ok(m) <==> Says(d.body.Fields(), m)
  {
    var fs, inner := d.body.Fields(), d.body.Text(d.after);
    SkipBlank(d.before, "{" + inner);
    assert ("{" + inner)[1..] == inner;
    CanPutAllMeans(NO_SLOTS, fs);
    ReadBodyReads(d.body, d.after, NO_SLOTS);
    BodyIsWritable(d.body);
    BlankIsSkipped(d.after);
    FinishSays(fs, PutAll(NO_SLOTS, fs), d.after, m);
  }

  /** `{"protocol":1,"browser":"chrome.exe","hostname":"","route":"default","focused":false}`, with as many zeros
      before the protocol, and with a comma after the last member or without. */
  function Plainest(zeros: nat, comma: bool): Document {
    Document("",
      More(Tight(FProtocol(zeros, 1)), More(Tight(FBrowser("chrome.exe")),
      More(Tight(FHostname("")), More(Tight(FRoute(DefaultRoute)),
        if comma then More(Tight(FFocused(false)), Close("")) else Last(Tight(FFocused(false))))))), "")
  }

  function Tight(f: Field): Member { Member(f, "", "", "", "") }

  const PLAINEST := Message(1, "chrome.exe", "", DefaultRoute, DefaultMode, false)

  lemma {:induction false} PlainestSays(zeros: nat, comma: bool)
    ensures Plainest(zeros, comma).Valid() && Says(Plainest(zeros, comma).body.Fields(), PLAINEST)
  {
    hide Says, Body.Fields, Body.Valid, Field.Writable;
    var a, b, c, d, e := FProtocol(zeros, 1), FBrowser("chrome.exe"), FHostname(""), FRoute(DefaultRoute),
      FFocused(false);
    LastField(e, comma);
    FieldsOfFour(a, b, c, d, if comma then More(Tight(e), Close("")) else Last(Tight(e)));
    FiveFieldsSay(zeros);
    assert [a, b, c, d] + [e] == [a, b, c, d, e];
  }

  lemma {:induction false} LastField(e: Field, comma: bool)
    requires e == FFocused(false)
    ensures (if comma then More(Tight(e), Close("")) else Last(Tight(e))).Valid()
    ensures (if comma then More(Tight(e), Close("")) else Last(Tight(e))).Fields() == [e]
    ensures FProtocol(0, 1).Writable() && (forall z :: FProtocol(z, 1).Writable()) && FBrowser("chrome.exe").Writable()
    ensures FHostname("").Writable() && FRoute(DefaultRoute).Writable()
  {
  }

  lemma {:induction false} FiveFieldsSay(zeros: nat)
    ensures Says([FProtocol(zeros, 1), FBrowser("chrome.exe"), FHostname(""), FRoute(DefaultRoute), FFocused(false)],
            PLAINEST)
  {
    var fs := [FProtocol(zeros, 1), FBrowser("chrome.exe"), FHostname(""), FRoute(DefaultRoute), FFocused(false)];
    assert fs[0].FProtocol? && fs[1] == FBrowser("chrome.exe") && fs[2] == FHostname("")
      && fs[3] == FRoute(DefaultRoute) && fs[4] == FFocused(false);
  }

  lemma {:induction false} FieldsOfFour(a: Field, b: Field, c: Field, d: Field, o: Body)
    ensures More(Tight(a), More(Tight(b), More(Tight(c), More(Tight(d), o)))).Fields() == [a, b, c, d] + o.Fields()
    ensures More(Tight(a), More(Tight(b), More(Tight(c), More(Tight(d), o)))).Valid()
            <==> a.Writable() && b.Writable() && c.Writable() && d.Writable() && o.Valid()
  {
    var o4 := More(Tight(d), o);
    var o3 := More(Tight(c), o4);
    var o2 := More(Tight(b), o3);
    assert o4.Fields() == [d] + o.Fields() && o3.Fields() == [c] + o4.Fields() && o2.Fields() == [b] + o3.Fields();
    assert More(Tight(a), o2).Fields() == [a] + o2.Fields();
    assert (o4.Valid() <==> d.Writable() && o.Valid()) && (o3.Valid() <==> c.Writable() && o4.Valid());
    assert (o2.Valid() <==> b.Writable() && o3.Valid()) && (More(Tight(a), o2).Valid() <==> a.Writable() && o2.Valid());
  }

  lemma {:induction false} TightLength(f: Field, rest: string)
    ensures |Tight(f).Text(rest)| == |KeyText(f.Kind())| + 3 + |f.ValueText()| + |rest|
  {
  }

  lemma {:induction false} LastLength(e: Field, comma: bool)
    requires e == FFocused(false)
    ensures |(if comma then More(Tight(e), Close("")) else Last(Tight(e))).Text("")| <= 17
  {
    TightLength(e, if comma then "," + Close("").Text("") else "}");
  }

  lemma {:induction false} PlainestIsShort(zeros: nat, comma: bool)
    requires zeros < 1000
    ensures |Plainest(zeros, comma).Text()| <= MAX_MESSAGE_BYTES
  {
    var a, b, c, d, e := FProtocol(zeros, 1), FBrowser("chrome.exe"), FHostname(""), FRoute(DefaultRoute),
      FFocused(false);
    var o: Body := if comma then More(Tight(e), Close("")) else Last(Tight(e));
    var o4 := More(Tight(d), o);
    var o3 := More(Tight(c), o4);
    var o2 := More(Tight(b), o3);
    LastLength(e, comma);
    hide Field.ValueText;
    TightLength(d, "," + o.Text(""));
    TightLength(c, "," + o4.Text(""));
    TightLength(b, "," + o3.Text(""));
    TightLength(a, "," + o2.Text(""));
    hide Member.Text;
    assert |o4.Text("")| <= 40 && |o3.Text("")| <= 60;
    assert |o2.Text("")| <= 90 && |More(Tight(a), o2).Text("")| <= 1200;
  }

  /** Two texts the format does not mention: a comma after the last member, and a protocol with a zero before it. */
  lemma {:induction false} CommaAndZeroAreAccepted()
    ensures Parse(Plainest(0, true).Text()) == Ok(PLAINEST)
    ensures Parse(Plainest(1, false).Text()) == Ok(PLAINEST)
  {
    hide *;
    PlainestIsRead(0, true);
    PlainestIsRead(1, false);
  }

  lemma {:induction false} PlainestIsRead(zeros: nat, comma: bool)
    requires zeros < 1000
    ensures Parse(Plainest(zeros, comma).Text()) == Ok(PLAINEST)
  {
    PlainestIsShort(zeros, comma);
    PlainestSays(zeros, comma);
    DocumentSays(Plainest(zeros, comma), PLAINEST);
    hide Document.Text, Parse, Plainest;
  }

  lemma {:induction false} ParsedDocument(json: string) returns (d: Document)
    requires Parse(json).Ok?
    ensures d.Valid() && d.Text() == json && Says(d.body.Fields(), Parse(json).value)
  {
    hide SkipSpace, ReadBody, Finish;
    var before := SplitBlank(json);
    var u := SkipSpace(json);
    assert u == "{" + u[1..];
    var body := ReadBodySplits(u[1..], NO_SLOTS);
    var (s, after) := ReadBody(u[1..], NO_SLOTS).value;
    d := Document(before, body, after);
    BodyIsWritable(body);
    BlankIsSkipped(after);
    FinishSays(body.Fields(), s, after, Parse(json).value);
  }

  /** The parser accepts exactly the laid-out documents that say a message, and returns that message. */
  lemma {:induction false} ParsesExactlyDocuments(json: string, m: Message)
    ensures Parse(json) == Ok(m) <==> Accepted(json, m)
  {
    if Parse(json) == Ok(m) {
      var d := ParsedDocument(json);
    }
    if Accepted(json, m) {
      var d: Document :| d.Valid() && d.Text() == json && Says(d.body.Fields(), m);
      DocumentSays(d, m);
    }
  }

  /** Two documents with the same fields are both accepted, as one message, or both refused. */
  lemma {:induction false} LayoutDoesNotMatter(d: Document, e: Document)
    requires d.Valid() && e.Valid() && |d.Text()| <= MAX_MESSAGE_BYTES && |e.Text()| <= MAX_MESSAGE_BYTES
    requires NoRepeats(d.body.Fields()) && NoRepeats(e.body.Fields())
    requires forall f :: f in d.body.Fields() <==> f in e.body.Fields()
    ensures Parse(d.Text()).Ok? == Parse(e.Text()).Ok?
    ensures Parse(d.Text()).Ok? ==> Parse(d.Text()) == Parse(e.Text())
  {
    var fs, gs := d.body.Fields(), e.body.Fields();
    hide Parse;
    forall m: Message ensures Parse(d.Text()) == Ok(m) <==> Parse(e.Text()) == Ok(m) {
      SameFieldsSay(d, e, m);
    }
    if Parse(d.Text()).Ok? { assert Parse(e.Text()) == Ok(Parse(d.Text()).value); }
    if Parse(e.Text()).Ok? { assert Parse(d.Text()) == Ok(Parse(e.Text()).value); }
  }

  lemma {:induction false} SameFieldsSay(d: Document, e: Document, m: Message)
    requires d.Valid() && e.Valid() && |d.Text()| <= MAX_MESSAGE_BYTES && |e.Text()| <= MAX_MESSAGE_BYTES
    requires NoRepeats(d.body.Fields()) && NoRepeats(e.body.Fields())
    requires forall f :: f in d.body.Fields() <==> f in e.body.Fields()
    ensures Parse(d.Text()) == Ok(m) <==> Parse(e.Text()) == Ok(m)
  {
    DocumentSays(d, m);
    DocumentSays(e, m);
    var fs, gs := d.body.Fields(), e.body.Fields();
    hide Parse, NoRepeats, AllowedBrowser, SafeHostname;
    assert forall p :: HasProtocol(fs, p) <==> HasProtocol(gs, p) by {
      forall p | HasProtocol(fs, p) ensures HasProtocol(gs, p) {
        var k :| 0 <= k < |fs| && fs[k].FProtocol? && fs[k].protocol == p;
        assert fs[k] in gs;
      }
      forall p | HasProtocol(gs, p) ensures HasProtocol(fs, p) {
        var k :| 0 <= k < |gs| && gs[k].FProtocol? && gs[k].protocol == p;
        assert gs[k] in fs;
      }
    }
  }

  // ---------- The parser ----------

  method SkipSpaceAt(text: string, start: nat) returns (pos: nat)
    requires start <= |text|
    ensures start <= pos <= |text| && text[pos..] == SkipSpace(text[start..])
  {
    pos := start;
    while pos < |text| && IsSpace(text[pos])
      invariant start <= pos <= |text| && SkipSpace(text[pos..]) == SkipSpace(text[start..])
    {
      assert text[pos..][1..] == text[pos + 1..];
      pos := pos + 1;
    }
  }

  lemma {:induction false} PlainRun(text: string, begin: nat, pos: nat)
    requires begin <= pos <= |text| && forall k :: begin <= k < pos ==> PlainChar(text[k])
    ensures pos == |text| || (text[pos] != '"' && !PlainChar(text[pos])) ==> TakeQuoted(text[begin..]).None?
    ensures pos < |text| && text[pos] == '"' ==> TakeQuoted(text[begin..]) == Some((text[begin..pos], text[pos + 1..]))
    decreases pos - begin
  {
    assert begin < |text| ==> text[begin..][1..] == text[begin + 1..];
    if begin < pos {
      PlainRun(text, begin + 1, pos);
      assert text[begin..pos] == [text[begin]] + text[begin + 1..pos];
    }
  }

  /** `ReadString`: on success the cursor stands after the closing quote. */
  method ReadStringAt(text: string, start: nat) returns (out: Option<string>, pos: nat)
    requires start <= |text|
    ensures pos <= |text| && out.Some? == ReadString(text[start..]).Some?
    ensures out.Some? ==> start < pos && ReadString(text[start..]) == Some((out.value, text[pos..]))
  {
    pos := SkipSpaceAt(text, start);
    if pos >= |text| || text[pos] != '"' { return None, pos; }
    assert text[pos..][1..] == text[pos + 1..];
    pos := pos + 1;
    var begin := pos;
    while pos < |text| && text[pos] != '"'
      invariant begin <= pos <= |text| && forall k :: begin <= k < pos ==> PlainChar(text[k])
    {
      if text[pos] == '\\' || text[pos] as int < 0x20 {
        PlainRun(text, begin, pos);
        return None, pos;
      }
      pos := pos + 1;
    }
    PlainRun(text, begin, pos);
    if pos >= |text| { return None, pos; }
    out := Some(text[begin..pos]);
    pos := pos + 1;
  }

  /** `ReadLiteral`: a miss still leaves the blanks behind. */
  method ReadLiteralAt(text: string, start: nat, literal: string) returns (ok: bool, pos: nat)
    requires start <= |text|
    ensures start <= pos <= |text| && ok == ReadLiteral(text[start..], literal).Some?
    ensures if ok then ReadLiteral(text[start..], literal) == Some(text[pos..])
            else text[pos..] == SkipSpace(text[start..])
  {
    pos := SkipSpaceAt(text, start);
    ok := literal <= text[pos..];
    if ok {
      assert text[pos..][|literal|..] == text[pos + |literal|..];
      pos := pos + |literal|;
    }
  }

  lemma {:induction false} DigitRun(text: string, begin: nat, pos: nat)
    requires begin <= pos <= |text| && forall k :: begin <= k < pos ==> IsDigit(text[k])
    requires pos == |text| || !IsDigit(text[pos])
    ensures TakeDigits(text[begin..]) == (text[begin..pos], text[pos..])
    decreases pos - begin
  {
    assert begin < |text| ==> text[begin..][1..] == text[begin + 1..];
    if begin < pos {
      DigitRun(text, begin + 1, pos);
      assert text[begin..pos] == [text[begin]] + text[begin + 1..pos];
    } else {
      assert text[begin..pos] == "";
      assert begin < |text| ==> text[begin..][0] == text[begin];
    }
  }

  method ReadProtocolAt(text: string, start: nat) returns (r: Result<int, Error>, pos: nat)
    requires start <= |text|
    ensures start <= pos <= |text|
    ensures match r
            case Ok(p) => ReadProtocol(text[start..]) == Ok((p, text[pos..]))
            case Err(e) => ReadProtocol(text[start..]) == Err(e)
  {
    pos := SkipSpaceAt(text, start);
    var begin := pos;
    while pos < |text| && IsDigit(text[pos])
      invariant begin <= pos <= |text| && forall k :: begin <= k < pos ==> IsDigit(text[k])
    {
      pos := pos + 1;
    }
    DigitRun(text, begin, pos);
    var value := FromChars(text[begin..pos]);
    if value.None? || (value.value != 1 && value.value != 2) { return Err(BadProtocol), pos; }
    r := Ok(value.value);
  }

  lemma {:induction false} BlanksOnce(t: string, literal: string)
    ensures SkipSpace(SkipSpace(t)) == SkipSpace(t)
    ensures ReadLiteral(SkipSpace(t), literal) == ReadLiteral(t, literal)
    ensures ReadString(SkipSpace(t)) == ReadString(t)
  {
  }

  method ReadFocusedAt(text: string, start: nat, slots: Slots) returns (r: Result<Slots, Error>, pos: nat)
    requires start <= |text|
    ensures start <= pos <= |text|
    ensures match r
            case Ok(after) => ReadValue(KFocused, text[start..], slots) == Ok((after, text[pos..]))
            case Err(e) => ReadValue(KFocused, text[start..], slots) == Err(e)
  {
    var ok;
    ok, pos := ReadLiteralAt(text, start, "true");
    if ok { return Ok(slots.(focused := Some(true))), pos; }
    BlanksOnce(text[start..], "false");
    ok, pos := ReadLiteralAt(text, pos, "false");
    if ok { return Ok(slots.(focused := Some(false))), pos; }
    r := Err(BadFocused);
  }

  method ReadValueAt(k: Kind, text: string, start: nat, slots: Slots) returns (r: Result<Slots, Error>, pos: nat)
    requires start <= |text|
    ensures pos <= |text|
    ensures match r
            case Ok(after) => start <= pos && ReadValue(k, text[start..], slots) == Ok((after, text[pos..]))
            case Err(e) => ReadValue(k, text[start..], slots) == Err(e)
  {
    hide ReadString, ReadLiteral, TakeDigits, SkipSpace, FromChars;
    match k {
      case KProtocol =>
        var p;
        p, pos := ReadProtocolAt(text, start);
        r := if p.Ok? then Ok(slots.(protocol := Some(p.value))) else Err(p.error);
      case KFocused =>
        r, pos := ReadFocusedAt(text, start, slots);
      case _ =>
        var out;
        out, pos := ReadStringAt(text, start);
        r := StoreString(k, out, slots);
    }
  }

  /** What a quoted value becomes in its slot. */
  function StoreString(k: Kind, out: Option<string>, slots: Slots): Result<Slots, Error>
    requires k != KProtocol && k != KFocused
  {
    if k == KBrowser then if out.Some? then Ok(slots.(browser := out)) else Err(BadBrowser)
    else if k == KHostname then if out.Some? then Ok(slots.(hostname := out)) else Err(BadHostname)
    else if k == KRoute then
      if out.Some? && RouteOf(out.value).Some? then Ok(slots.(route := RouteOf(out.value))) else Err(BadRoute)
    else if out.Some? && ModeOf(out.value).Some? then Ok(slots.(mode := ModeOf(out.value))) else Err(BadMode)
  }

  method ReadMemberAt(text: string, start: nat, slots: Slots) returns (r: Result<Slots, Error>, pos: nat)
    requires start <= |text|
    ensures pos <= |text|
    ensures match r
            case Ok(after) => start < pos && ReadMember(text[start..], slots) == Ok((after, text[pos..]))
            case Err(e) => ReadMember(text[start..], slots) == Err(e)
  {
    hide ReadString, ReadValue, SkipSpace, KindOf;
    var key;
    key, pos := ReadStringAt(text, start);
    if key.None? { return Err(JsonKey), pos; }
    pos := SkipSpaceAt(text, pos);
    if pos >= |text| || text[pos] != ':' { return Err(JsonColon), pos; }
    assert text[pos..][1..] == text[pos + 1..];
    pos := pos + 1;
    var kind := KindOf(key.value);
    if kind.None? { return Err(UnknownField), pos; }
    if slots.Filled(kind.value) { return Err(DuplicateField), pos; }
    r, pos := ReadValueAt(kind.value, text, pos, slots);
  }

  /** The member loop; every turn moves the cursor on. */
  method ReadBodyAt(text: string, start: nat) returns (r: Result<Slots, Error>, pos: nat)
    requires start <= |text|
    ensures pos <= |text|
    ensures match r
            case Ok(slots) => ReadBody(text[start..], NO_SLOTS) == Ok((slots, text[pos..]))
            case Err(e) => ReadBody(text[start..], NO_SLOTS) == Err(e)
  {
    r := Ok(NO_SLOTS);
    pos := start;
    var closed := false;
    while !closed
      invariant start <= pos <= |text| && r.Ok?
      invariant ReadBody(text[start..], NO_SLOTS)
                == if closed then Ok((r.value, text[pos..])) else ReadBody(text[pos..], r.value)
      decreases if closed then 0 else 1, |text| - pos
    {
      hide ReadBody;
      r, pos, closed := ReadTurn(text, pos, r.value);
      if r.Err? { return; }
    }
  }

  /** One turn of the member loop: a closing brace, or a member and the separator after it. */
  method ReadTurn(text: string, start: nat, slots: Slots) returns (r: Result<Slots, Error>, pos: nat, closed: bool)
    requires start <= |text|
    ensures pos <= |text| && (r.Ok? ==> start < pos)
    ensures ReadBody(text[start..], slots) ==
            if r.Err? then Err(r.error) else if closed then Ok((r.value, text[pos..]))
              else ReadBody(text[pos..], r.value)
  {
    hide ReadMember, SkipSpace;
    pos := SkipSpaceAt(text, start);
    assert pos < |text| ==> text[pos..][1..] == text[pos + 1..];
    if pos < |text| && text[pos] == '}' { return Ok(slots), pos + 1, true; }
    r, pos := ReadMemberAt(text, pos, slots);
    if r.Err? { return r, pos, false; }
    pos := SkipSpaceAt(text, pos);
    assert pos < |text| ==> text[pos..][1..] == text[pos + 1..];
    closed := pos < |text| && text[pos] == '}';
    if closed || (pos < |text| && text[pos] == ',') { return r, pos + 1, closed; }
    r := Err(JsonSeparator);
  }

  /** `ParseNativeMessage`. */
  method ParseNativeMessage(json: string) returns (r: Result<Message, Error>)
    ensures r == Parse(json)
    ensures forall m :: r == Ok(m) <==> Accepted(json, m)
  {
    forall m ensures Parse(json) == Ok(m) <==> Accepted(json, m) { ParsesExactlyDocuments(json, m); }
    hide Accepted, ReadBody, Complete, AllowedBrowser, SafeHostname;
    if |json| == 0 || |json| > MAX_MESSAGE_BYTES { return Err(MessageSize); }
    assert json[0..] == json;
    var pos := SkipSpaceAt(json, 0);
    if pos >= |json| || json[pos] != '{' { return Err(JsonObject); }
    assert json[pos..][1..] == json[pos + 1..];
    var read;
    read, pos := ReadBodyAt(json, pos + 1);
    if read.Err? { return Err(read.error); }
    var slots := read.value;
    ghost var rest := json[pos..];
    pos := SkipSpaceAt(json, pos);
    assert pos == |json| <==> SkipSpace(rest) == [];
    if pos != |json| || !Complete(slots) { return Err(RequiredFields); }
    if !AllowedBrowser(slots.browser.value) { return Err(BrowserAllowlist); }
    if !SafeHostname(slots.hostname.value) { return Err(HostnameChars); }
    if slots.focused.value && slots.hostname.value == "" { return Err(HostnameEmpty); }
    r := Ok(Message(slots.protocol.value, slots.browser.value, slots.hostname.value, slots.route.value,
                    if slots.mode.Some? then slots.mode.value else DefaultMode, slots.focused.value));
  }
}
