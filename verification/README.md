# VKey: models and proofs

This project models, in Dafny, the two parts of VKey that carry its hardest promises, and proves those
promises for all inputs, all runs and all reachable states.

The first part is the TOML engine behind the configuration files.

- `TomlContainers` flattens nested arrays in place and prunes empty containers.
- `Utf8` is the byte automaton and its encoder (sections 3 and 4 of RFC 3629); `Utf8Reader` feeds it in
  32-byte blocks with an ASCII path; `Utf8BufferedReader` looks back through a ring of 127 slots, and hands
  out pointers into the ring and into the buffer of the current block.
- `TomlIntegers` says what 64-bit integers in four bases mean and what the parser makes of them, and prints
  them.
- `TomlStrings` describes strings and keys as written and as read, `TomlStringWriter` writes them;
  `TomlParser` holds the loops that read strings, keys and integers through those pointers; `TomlText` joins
  bytes, blocks, code points, strings and integers from end to end.
- `TomlTree` reads a store of nodes as a tree; `TomlDocument` says what headers, dotted keys, arrays and
  inline tables do to it, with the lists that forbid redefinition (TOML v1.0.0, sections "Keys", "Table",
  "Inline Table" and "Array of Tables"); `TomlRedefinition` says which documents are allowed, from their
  statements alone; `TomlDocumentParser` holds the loops that build the document.
- `TomlPath` parses and prints paths into a document.
- Beside them stand modules that say from the texts alone what the parts above accept and mean: `Utf8Positions`,
  `TomlNumbers`, `TomlStringGrammar` and `TomlLineEnds`, `TomlNesting`, `TomlTwoStatements`, `TomlElements`,
  `TomlPathTexts`, and `TomlWritten` for what is written.

The second part is VKey's own portable decision core.

- `MacroPrefix` answers whether typed text may become a macro key, by a scan and by a sorted index.
- `MacroCase` plans an expansion, its case and its output; `MacroCaseExpansion` says character by character what
  it becomes; `MacroContextMatch` finds shortcuts in the text before the caret, and `MacroContextShortcuts` says
  which texts are shortcuts.
- `NativeMessaging` parses the messages of the browser extension; `NativeMessagingTexts` says what becomes of whole
  messages, word for word.
- `DorionHookReclaimPolicy` and `DorionHookReclaimSequence`, over `FixedSlots`, bound the keyboard-hook
  replacements for one application; `DorionHookReclaimLimits` says how many fit.
- `AutoCap` compares the keystroke automaton for sentence capitals with the scan of the document.

Code that updates fields or buffers in loops is a class or a method with loop invariants, proved against a
function or a relation that says what it is for; the lemmas about those functions are the promises. Every
lemma states its own induction: automatic induction is switched off.

`dafny verify dfyconfig.toml` checks everything.

## Assumptions about the platform

Locale functions are values with the stated laws. `MacroPrefix.Locale.Valid` says that lower-casing is the
identity on ASCII outside A to Z and that an ASCII character is upper case if and only if it is in A to Z.
`MacroCase.CharTables.KeepsTokens` says that upper-casing neither makes nor removes a backslash and never
yields `n`. Both are parameters of each call, so a locale may change between calls. A buffer is mapped to
lower case character by character. `std::sort` is an insertion sort with the same comparison, and
`std::to_chars` is repeated division.

## Where the code falls short of its description

- Behind a backslash at the end of a line blanks beyond ASCII are dropped as well, a no-break space for example,
  which TOML v1.0.0, section "String", counts as characters: `TomlLineEnds.LineEndIsDropped` is the exact rule,
  `TomlLineEnds.TwoLines` an instance.
- A multi-line string value loses a leading line break, and one that holds three apostrophes ends early:
  `TomlStrings.MultiLineValuesThatChange`; `TomlStrings.ReadUndoesPrint` says exactly which values survive.
- A path drops an empty key that stands directly before an index: `TomlPath.RoundTrip` is the exact rule,
  `TomlPath.EmptyKeyIsLost` an instance.
- The search before the caret cannot reach the longest key when a punctuation mark that is not part of the
  key triggers it, since the mark is charged to the bound: `MacroContextMatch.BeyondTheScan` is the exact
  loss, `MacroContextMatch.LongestKeyBeforePunctuation` an instance.
- In a hexadecimal, octal or binary number of 128 or more code points the parser looks at the character before
  through a pointer into a buffer that the next block of 32 bytes may have overwritten. It refuses valid numbers
  and accepts numbers with an underscore in a wrong place: `TomlIntegers.ReadingAtIsMeaning` says exactly when,
  `TomlIntegers.WrongSight` at which characters, and `TomlText.ValidNumberRefusedInDocument` and
  `TomlText.InvalidNumberAcceptedInDocument` are documents. Shorter tokens and decimal numbers are read right:
  `TomlIntegers.ShortTokensAreReadRight`, `TomlIntegers.DecimalsAreReadRight`.
- A single digit with underscores behind it is taken without them, and they are left for the caller to refuse:
  `TomlIntegers.LoneDigitIsItsToken`.
- The capital automaton forgets at a tab, takes Shift and period for a full stop, and misses the full stop of
  the numeric keypad: `AutoCap.KeyAgrees`, and `AutoCap.UsTypingAgrees` for a whole keyboard.
- A macro with an empty key, met with an empty buffer, eats its printable trigger, which is no part of the
  shortcut: `MacroCase.EmptyKeyEatsItsTrigger`.
- The message parser accepts one comma after the last member, and zeros before a protocol number, which
  the format in its comments does not mention: both are in `NativeMessaging.Body` and `NativeMessaging.Field`,
  and `NativeMessaging.CommaAndZeroAreAccepted` has an instance of each.

## Model

| member | source | states |
|---|---|---|
| `TomlContainers.TotalLeafCount` | extern/tomlplusplus/toml.hpp:11896-11905 | the count that sizes the flattened vector is the number of leaves, at any depth of nesting |
| `TomlContainers.NodeVector.PreinsertionResize` | extern/tomlplusplus/toml.hpp:11771-11784 | opens a gap of empty slots at the index: what stood before it stays, what stood after it moves behind it, by shifting from the back |
| `TomlContainers.NodeVector.FlattenChild` | extern/tomlplusplus/toml.hpp:11908-11922 | overwrites the slots from the destination on with the leaves of the child, left to right, and says where it stopped |
| `TomlContainers.NodeVector.DropLeaflessArrays` | extern/tomlplusplus/toml.hpp:11925-11951 | the first pass erases exactly the arrays without leaves, loses no leaf, and computes the size the vector will have |
| `TomlContainers.NodeVector.SpliceOne` | extern/tomlplusplus/toml.hpp:11953-11971 | one turn of the second pass replaces an array by its leaves and moves everything after it behind them |
| `TomlContainers.NodeVector.Flatten` | extern/tomlplusplus/toml.hpp:11925-11971 | flattening in place leaves exactly the left-to-right leaf sequence: no empty slot, no leaf lost, repeated or moved, never beyond the computed size, and it ends although it grows the vector it walks |
| `TomlContainers.LeavesAreFlat` | extern/tomlplusplus/toml.hpp:11925-11971 | what flattening leaves holds no array |
| `TomlContainers.LeavesOfFlat` | extern/tomlplusplus/toml.hpp:11936-11950 | a vector without arrays is its own leaf sequence, so flattening changes it no further |
| `TomlContainers.PruneArray` | extern/tomlplusplus/toml.hpp:11974-11998 | the back-to-front walk over a vector removes what the recursive description of pruning removes |
| `TomlContainers.PruneTable` | extern/tomlplusplus/toml.hpp:12282-12315 | the front-to-back walk over a table does the same for its entries, keys kept |
| `TomlContainers.PruneKeepsLeaves` | extern/tomlplusplus/toml.hpp:11974-11998 | every leaf keeps its keys, its nesting and its place in document order, recursive or not |
| `TomlContainers.PruneKeepsExactlyLeafHolders` | extern/tomlplusplus/toml.hpp:12282-12315 | a recursive prune keeps a child if and only if it still holds a leaf |
| `TomlContainers.PruneLeavesNoEmpty` | extern/tomlplusplus/toml.hpp:11974-11998 | after a recursive prune no container below the root is empty |
| `TomlContainers.PruneFixedPoint` | extern/tomlplusplus/toml.hpp:11974-11998 | pruning changes nothing if and only if no container below the root is empty |
| `TomlContainers.PruneIdempotent` | extern/tomlplusplus/toml.hpp:12282-12315 | pruning twice is pruning once |
| `Utf8BufferedReader.SlotsAreDistinct` | extern/tomlplusplus/toml.hpp:12944-12960 | positions less than a ring apart never share a slot |
| `Utf8BufferedReader.BufferedReader.constructor` | extern/tomlplusplus/toml.hpp:12962-12970 | a new reader stands before the first element |
| `Utf8BufferedReader.BlockReader.ReadNext` | extern/tomlplusplus/toml.hpp:12887-12903 | delivers the elements of all blocks in order as places in one buffer, which the next block overwrites; says what the place handed out before holds by then |
| `Utf8BufferedReader.WrongOnlyAtBlockEnds` | extern/tomlplusplus/toml.hpp:12753-12753 | a pointer kept over one more read reads its own element, unless it led into the block buffer, its element was the last of its block, and another block has come |
| `Utf8BufferedReader.BufferedReader.ReadNext` | extern/tomlplusplus/toml.hpp:12973-13009 | whatever mix of reads and steps back came before, the next read returns a pointer to the element at the cursor over the whole input, across wrap-around and at the end; says what the pointer handed out before reads by then |
| `Utf8BufferedReader.BufferedReader.CanStepBackIsTheAssertedCondition` | extern/tomlplusplus/toml.hpp:13012-13018 | the condition under which stepping back is right is the one the code asserts about its own fields |
| `Utf8BufferedReader.BufferedReader.StepBack` | extern/tomlplusplus/toml.hpp:13012-13024 | stepping back returns a pointer to the element that many places before the cursor and moves the cursor there |
| `Utf8.CharIsDecoded` | extern/tomlplusplus/toml.hpp:8994-9005 | a character of RFC 3629 section 4 is decoded to its value by its last byte and by no earlier one, from any state between two characters |
| `Utf8.NoCharNoCodePoint` | extern/tomlplusplus/toml.hpp:8957-9005 | bytes that start with no such character never complete a code point; four of them are an error |
| `Utf8.AcceptsExactlyWellFormed` | extern/tomlplusplus/toml.hpp:8957-9005 | the automaton completes on a byte sequence if and only if it is well formed in the sense of RFC 3629 section 4 |
| `Utf8.EncodeIsOneChar` | extern/tomlplusplus/toml.hpp:13875-13902 | the encoder of string escapes makes one well-formed character for every scalar value |
| `Utf8.DecodeEncode` | extern/tomlplusplus/toml.hpp:13875-13902 | decoding undoes encoding for every scalar value, from any state between characters |
| `Utf8.CharIsEncoding` | extern/tomlplusplus/toml.hpp:8994-9005 | conversely every well-formed character is the encoding of the scalar value it decodes to |
| `Utf8Reader.IsAscii` | extern/tomlplusplus/toml.hpp:12417-12451 | the vector-wide test with its scalar tail is true exactly when every byte is ASCII |
| `Utf8Reader.CharsCoverWellFormed` | extern/tomlplusplus/toml.hpp:12709-12862 | the characters of a text make up all of it if and only if it is well formed |
| `Utf8Reader.DecodeEncodeAll` | extern/tomlplusplus/toml.hpp:13875-13902 | decoding a whole encoded text gives back its code points |
| `Utf8Reader.OneMoreByte` | extern/tomlplusplus/toml.hpp:12810-12845 | one more byte after an unfinished character completes it, spoils the whole text, or leaves it unfinished |
| `Utf8Reader.Reader.CalcPositions` | extern/tomlplusplus/toml.hpp:12765-12779 | every code point of a block gets its position, going on from the one the block starts at; `Utf8Positions.PlacedBehind` says which that is |
| `Utf8Reader.Reader.DecodeBlock` | extern/tomlplusplus/toml.hpp:12801-12846 | decoding a block after a carried partial character yields the next characters of the whole text and carries the new partial one |
| `Utf8Reader.Reader.ReadNextBlock` | extern/tomlplusplus/toml.hpp:12709-12862 | filling a block, by the ASCII path or the decoder, keeps the promise that blocks and carried bytes add up to the source |
| `Utf8Reader.Reader.ReadNext` | extern/tomlplusplus/toml.hpp:12887-12903 | reading one by one delivers the code points and positions of one decode of the whole text, in an ill-formed text exactly those of the blocks before the one that spoils it; the end is an error if and only if the text is ill-formed |
| `Utf8Reader.WellFormedIsDelivered` | extern/tomlplusplus/toml.hpp:12709-12862 | every code point is delivered if the text is well formed |
| `Utf8Positions.PositionIs` | extern/tomlplusplus/toml.hpp:12765-12779 | in any document the line of a code point is one more than the line feeds before it, and its column one more than the characters between the last of them, or the beginning, and it |
| `Utf8Positions.PlacedBehind` | extern/tomlplusplus/toml.hpp:12765-12779 | numbering the characters of a block goes on from the position the block starts at by the same rule |
| `Utf8Positions.LineStart` | extern/tomlplusplus/toml.hpp:12765-12779 | every character has exactly one place where its line begins |
| `Utf8Positions.MarkIsDropped` | extern/tomlplusplus/toml.hpp:12498-12520 | three bytes of a byte order mark are left out, and nothing else |
| `TomlIntegers.PowerLimits` | extern/tomlplusplus/toml.hpp:13062-13105 | what the digit limits of the four bases allow, against the 64-bit ranges |
| `TomlIntegers.TooManyDigits` | extern/tomlplusplus/toml.hpp:14686-14691 | a number cut for too many digits is outside the signed 64-bit range, with either sign |
| `TomlIntegers.Accumulate` | extern/tomlplusplus/toml.hpp:14693-14727 | the wrapping unsigned accumulator holds the exact value before the range check |
| `TomlIntegers.ReadingIsMeaning` | extern/tomlplusplus/toml.hpp:14617-14650 | what the parser makes of a text, given what its kept pointers read, is what the text means if and only if the pointers neither hide a fault of the token nor make one up, or do both, or the token is refused for something else |
| `TomlIntegers.ReadingAtIsMeaning` | extern/tomlplusplus/toml.hpp:14617-14650 | the same on the blocks of the document and how far the reader has come |
| `TomlIntegers.ShortTokensAreReadRight` | extern/tomlplusplus/toml.hpp:14617-14650 | a token of less than 128 code points is read as what it means, wherever the blocks end |
| `TomlIntegers.DecimalsAreReadRight` | extern/tomlplusplus/toml.hpp:15300-15312 | so is a decimal token that is not refused for its length |
| `TomlIntegers.WrongSight` | extern/tomlplusplus/toml.hpp:14619-14647 | in a longer token a kept pointer reads something else only 127 or more code points behind the first one, at the end of a block with another one behind it |
| `TomlIntegers.ValidNumberIsRefused` | extern/tomlplusplus/toml.hpp:14646-14650 | a valid hexadecimal number of 130 characters that is refused |
| `TomlIntegers.InvalidNumberIsAccepted` | extern/tomlplusplus/toml.hpp:14646-14650 | one of 130 characters with an underscore at its end that is accepted |
| `TomlIntegers.LoneDigitIsItsToken` | extern/tomlplusplus/toml.hpp:15196-15204 | a digit that is the only character but for underscores is taken for what the token means if and only if no underscore follows it |
| `TomlIntegers.DigitsToInt` | extern/tomlplusplus/toml.hpp:14652-14727 | returns the exact signed value, and succeeds exactly when it fits in int64 (and, in base ten, has no leading zero), the least value included |
| `TomlIntegers.ToDigitsValue` | extern/tomlplusplus/toml.hpp:10297-10340 | printed digits denote the number they were printed from, without a leading zero |
| `TomlIntegers.ParseUndoesPrint` | extern/tomlplusplus/toml.hpp:16725-16770 | for every int64, every format flag and every base a formatter allows, the printed value means the value, and ends where it ends |
| `TomlIntegers.PrintedIsReadBack` | extern/tomlplusplus/toml.hpp:16725-16770 | and the parser makes that value of it, wherever the blocks end and however far the reader has come |
| `TomlNumbers.NumbersAre` | extern/tomlplusplus/toml.hpp:14580-14730 | for every text up to the first character that ends a value: it means an integer if and only if it is digits of the base with single underscores between them, at most 128, that say a signed 64-bit number, without a leading zero in decimal; it then means that number |
| `TomlNumbers.NoHead` | extern/tomlplusplus/toml.hpp:14596-14612 | without `0x`, `0o` or `0b` in front it means no integer of that base |
| `TomlNumbers.TooLongIs` | extern/tomlplusplus/toml.hpp:15300-15312 | a decimal value is refused for its length exactly when its first 127 characters end no value and there is more |
| `TomlWritten.NumberIsWritten` | extern/tomlplusplus/toml.hpp:16725-16770 | a number is written in the base it is stored with, if the formatter allows it and it is not negative, with `0x`, `0o` or `0b` and capital letters; any other in decimal |
| `TomlStrings.EscapedReads` | extern/tomlplusplus/toml.hpp:16610-16716 | whatever the writer makes of one code point, the parser reads that code point and goes on |
| `TomlStrings.MultiLiteralReads` | extern/tomlplusplus/toml.hpp:14060-14119 | a multi-line literal string is read back if and only if it holds no three apostrophes in a row and nothing at its end is taken for its delimiter |
| `TomlStrings.ReadUndoesPrint` | extern/tomlplusplus/toml.hpp:16474-16716 | for every text, every formatter setting and everything that may follow: what was written is read back, up to exactly its end, if and only if a stated condition on text, settings and follower holds |
| `TomlStrings.KeyRoundTrip` | extern/tomlplusplus/toml.hpp:17015-17018 | every key survives, in front of anything that cannot continue it |
| `TomlStrings.SingleLineValueRoundTrip` | extern/tomlplusplus/toml.hpp:16474-16716 | every string value without a line break survives, whichever of the literal and basic forms is chosen |
| `TomlStrings.MultiLineValuesThatChange` | extern/tomlplusplus/toml.hpp:13791-13797 | two multi-line values that do not survive: one that starts with a line break, and one that holds three apostrophes |
| `TomlStringGrammar.StringsAreThese` | extern/tomlplusplus/toml.hpp:13781-14166 | for every text: it is read as a string, with this value and this rest, if and only if it is put together of an opening delimiter, characters, escapes, line breaks, loose delimiters and dropped line ends where they may stand, and a closing delimiter, and they say this value |
| `TomlStringGrammar.PiecesAreRead` | extern/tomlplusplus/toml.hpp:13781-14122 | such pieces are read as what they say, whatever follows |
| `TomlStringGrammar.ReadIsPieces` | extern/tomlplusplus/toml.hpp:13781-14122 | whatever is read is made of such pieces |
| `TomlLineEnds.LineEndIsDropped` | extern/tomlplusplus/toml.hpp:13808-13822 | a backslash at the end of a line, with the line break and the blanks and line breaks around it, reads exactly as if it were not there, if and only if no blank beyond ASCII follows or the string is refused anyway |
| `TomlLineEnds.FrontIsRead` | extern/tomlplusplus/toml.hpp:13975-14012 | characters before it stand for themselves, every CR LF for a line feed; other control characters and a lone CR are refused |
| `TomlLineEnds.BlanksOnlyAreRefused` | extern/tomlplusplus/toml.hpp:13811-13817 | a backslash with blanks behind it but no line break is refused |
| `TomlLineEnds.NoLineEndInOneLine` | extern/tomlplusplus/toml.hpp:13808-13890 | in a string of one line a backslash before a blank or a line break is refused |
| `TomlLineEnds.TwoLines` | extern/tomlplusplus/toml.hpp:13808-13822 | two instances: the lines are joined, and a no-break space behind the line break is lost |
| `TomlWritten.SettingsAreKept` | extern/tomlplusplus/toml.hpp:16474-16716 | whatever the text is, nothing beyond ASCII, no tab and no line break is written that the settings do not allow, and no other control character ever |
| `TomlWritten.FormIsAllowed` | extern/tomlplusplus/toml.hpp:16474-16610 | an apostrophe only if literals are allowed, no delimiter only if bare forms are, three delimiters exactly for a text with line breaks that may stay |
| `TomlWritten.BareForm` | extern/tomlplusplus/toml.hpp:16474-16600 | a text is written as it is exactly when bare forms are allowed and it is letters, digits, hyphens and underscores of ASCII |
| `TomlParser.Parser.ConsumeLineBreak` | extern/tomlplusplus/toml.hpp:13643-13667 | consumes LF, or CR followed by LF; a CR alone is an error |
| `TomlParser.Parser.ParseScalarSequence` | extern/tomlplusplus/toml.hpp:13852-13880 | the digits of an escape are summed by place value, and only a scalar value is accepted |
| `TomlParser.Parser.ParseBasicString` | extern/tomlplusplus/toml.hpp:13781-14020 | the loop of the basic string reads what the recursive grammar of basic strings reads, and stops there |
| `TomlParser.Parser.ParseLiteralString` | extern/tomlplusplus/toml.hpp:14023-14122 | the same for literal strings |
| `TomlParser.Parser.ParseString` | extern/tomlplusplus/toml.hpp:14126-14166 | looking at three characters and stepping back picks the single-line or multi-line form the grammar picks |
| `TomlParser.Parser.ParseBareKeySegment` | extern/tomlplusplus/toml.hpp:14170-14188 | a bare segment is the longest run of bare key characters |
| `TomlParser.Parser.GoBack` | extern/tomlplusplus/toml.hpp:13566-13573 | going back moves the cursor back, and leaves the reader as far as it has come |
| `TomlParser.Parser.BackTwo` | extern/tomlplusplus/toml.hpp:14126-14166 | going back by the two code points looked at is always within the ring |
| `TomlParser.Parser.Advance` | extern/tomlplusplus/toml.hpp:13575-13597 | one code point further; says what the pointer to the one left behind reads from then on |
| `TomlParser.Parser.ConsumeDigits` | extern/tomlplusplus/toml.hpp:14617-14650 | collects the digits of the token between underscores, and succeeds exactly on a token that the kept pointers let pass and that fits the buffer |
| `TomlParser.Parser.ParseInteger` | extern/tomlplusplus/toml.hpp:14580-14730 | the whole parser returns the value of the token and stops behind it, or the error, as the reading of the text under its pointers says |
| `TomlParser.Parser.ScanAhead` | extern/tomlplusplus/toml.hpp:15078-15192 | looks ahead to the end of the value, at most 127 code points, counts all but underscores, and is back where it started, with all of them in the ring |
| `TomlParser.Parser.ParseIntegerValue` | extern/tomlplusplus/toml.hpp:15078-15312 | look-ahead, return and parser together compute what the blocks and the way the reader has come say of an integer, the length limit of decimal numbers and the lone digit included |
| `TomlText.ScalarBits` | extern/tomlplusplus/toml.hpp:13875-13902 | a code point as a number is a scalar value exactly when its bits are |
| `TomlText.DecodedEncoded` | extern/tomlplusplus/toml.hpp:8994-9005 | every text survives being encoded and decoded |
| `TomlText.EncodedDecoded` | extern/tomlplusplus/toml.hpp:8994-9005 | every well-formed byte sequence is the encoding of the text it decodes to |
| `TomlText.PrintedText` | extern/tomlplusplus/toml.hpp:16474-16716 | what is written for a text is a text and starts with an ASCII character, so no byte order mark is taken off it |
| `TomlText.BytesKeepText` | extern/tomlplusplus/toml.hpp:16474-16716 | from end to end: the UTF-8 bytes of a written text and of whatever follows are decoded and parsed to that text and that rest if and only if the written form keeps it |
| `TomlText.BytesKeepBytes` | extern/tomlplusplus/toml.hpp:16474-16716 | the UTF-8 bytes of a value, decoded, written, encoded, decoded, parsed and encoded again are the same bytes if and only if the written form keeps it |
| `TomlText.BlocksAreText` | extern/tomlplusplus/toml.hpp:12709-12862 | the blocks of a well-formed document make up its decoded text, and none is empty or longer than a block |
| `TomlText.ReadAll` | extern/tomlplusplus/toml.hpp:12887-12903 | reading one by one to the end delivers the whole decoded text in those blocks, or an error exactly when it is ill-formed |
| `TomlText.AsciiInteger` | extern/tomlplusplus/toml.hpp:12787-12801 | in an ASCII document the blocks are cut every 32 bytes, and the integer at a byte is read on those blocks |
| `TomlText.ValidNumberRefusedInDocument` | extern/tomlplusplus/toml.hpp:14646-14650 | a document of two lines whose valid number is refused |
| `TomlText.InvalidNumberAcceptedInDocument` | extern/tomlplusplus/toml.hpp:14646-14650 | a document of two lines whose number with an underscore at its end is accepted |
| `TomlText.ParseBytes` | extern/tomlplusplus/toml.hpp:14126-14188 | block reader, look-back ring and string parser together compute the segment at the front of the bytes, and what is left |
| `TomlStringWriter.Formatter.ScanTraits` | extern/tomlplusplus/toml.hpp:16486-16590 | the scan, with its ASCII path that stops early, finds exactly the traits of the whole text |
| `TomlStringWriter.Formatter.PrintString` | extern/tomlplusplus/toml.hpp:16474-16716 | the writer appends exactly the text of the chosen form |
| `TomlTree.PathIsUnique` | extern/tomlplusplus/toml.hpp:15628-15781 | in a forest of nodes there is one way down from a node to another |
| `TomlTree.Graft` | extern/tomlplusplus/toml.hpp:15871-15880 | changing one node replaces its subtree where it hangs, and nothing else in the tree |
| `TomlTree.TreeAtIsResolve` | extern/tomlplusplus/toml.hpp:15628-15781 | going down the nodes is going down the tree they stand for |
| `TomlDocument.PathsSurvive` | extern/tomlplusplus/toml.hpp:15628-15881 | in a document that only grew, every path that led to a node still leads to it, positions in arrays of tables included |
| `TomlDocument.DenotesSurvives` | extern/tomlplusplus/toml.hpp:15784-15881 | a value once written stays what it was |
| `TomlDocument.InsertIsNew` | extern/tomlplusplus/toml.hpp:15816-15869 | an accepted key led nowhere before |
| `TomlDocument.InlineAllowed` | extern/tomlplusplus/toml.hpp:16082-16165 | an inline table accepts a key if and only if the key neither is, nor leads to, nor is led to by, a key it already has |
| `TomlDocument.PutElsewhere` | extern/tomlplusplus/toml.hpp:15784-15881 | putting a value at one key makes nothing at a key apart from it |
| `TomlDocumentParser.Parser.FindParent` | extern/tomlplusplus/toml.hpp:15628-15684 | the walk to the parent of a header stops exactly where the rules stop it, creates only implicit tables, and enters an array of tables at its last element |
| `TomlDocumentParser.Parser.OpenExisting` | extern/tomlplusplus/toml.hpp:15693-15751 | an existing name is reopened only as an array of tables (one more element) or as an implicit table that holds nothing but tables (no longer implicit) |
| `TomlDocumentParser.Parser.OpenNew` | extern/tomlplusplus/toml.hpp:15753-15780 | a new name becomes one empty table, or an array of tables with one |
| `TomlDocumentParser.Parser.ParseTableHeader` | extern/tomlplusplus/toml.hpp:15559-15781 | a header is accepted if and only if the redefinition rules allow it; the tree is then the old one with that header opened, the lists record exactly what was made on the way, and no table is opened twice |
| `TomlDocumentParser.Parser.InsertInto` | extern/tomlplusplus/toml.hpp:15784-15881 | a key/value statement is accepted if and only if its key may be inserted and its value is allowed; the tree is then the old one with the value put at that key, and nothing else, and exactly the tables made by the key are recorded as such |
| `TomlDocumentParser.Parser.ParseValue` | extern/tomlplusplus/toml.hpp:14989-15010 | a value is accepted if and only if it is not nested too deeply and its inline tables have keys apart from each other; its node stands for the tree of the value |
| `TomlDocumentParser.Parser.ParseArray` | extern/tomlplusplus/toml.hpp:16013-16079 | the node of an array stands for the list of its items, in order |
| `TomlDocumentParser.Parser.ParseInlineTable` | extern/tomlplusplus/toml.hpp:16082-16165 | the node of an inline table stands for its entries put one after the other, and the table is closed afterwards |
| `TomlDocumentParser.Parser.ParseKeyValue` | extern/tomlplusplus/toml.hpp:15883-15916 | a statement writes below the current table and leaves every finished value as it was |
| `TomlDocumentParser.Parser.ParseDocument` | extern/tomlplusplus/toml.hpp:15883-15935 | a document is accepted if and only if every statement respects what the ones before it have defined, told from the statements alone; it is then the tree its statements mean under an independent definition, and every value stands at the path of its header and key, no two at the same path |
| `TomlNesting.OneStatement` | extern/tomlplusplus/toml.hpp:14997-15001 | a document of one key/value statement is accepted if and only if its value is at most 256 deep, counted by its shape alone, and no key of an inline table in it leads to or is another one |
| `TomlNesting.ManyStatements` | extern/tomlplusplus/toml.hpp:14997-15001 | in any document that is all the values have to do with it |
| `TomlNesting.DeepestDocument` | extern/tomlplusplus/toml.hpp:1063-1063 | arrays may be nested 256 deep with the number inside counted, and no deeper |
| `TomlNesting.DepthAtTheEdge` | extern/tomlplusplus/toml.hpp:1063-1063 | the two edges: depth 256 is accepted, depth 257 is refused |
| `TomlTwoStatements.TwoStatements` | extern/tomlplusplus/toml.hpp:15628-15881 | for all documents of two statements: accepted if and only if their values are and the second may follow the first, by a table of which keys may lead to, or be, one another |
| `TomlElements.RepeatedMeans` | extern/tomlplusplus/toml.hpp:15693-15780 | a header of an array of tables that comes again, with a value in each element, means the list of those tables in that order, for any number of them |
| `TomlRedefinition.PutAt` | extern/tomlplusplus/toml.hpp:15784-15881 | a tree put at a place stands there, nothing above it changes its kind, and nothing changes anywhere else |
| `TomlRedefinition.HeaderMatches` | extern/tomlplusplus/toml.hpp:15559-15781 | after an accepted header, what is known of every path still matches the tree, and everything in a table is known |
| `TomlRedefinition.KeyValueMatches` | extern/tomlplusplus/toml.hpp:15784-15881 | the same after an accepted key/value statement |
| `TomlRedefinition.HeaderWalkIsWay` | extern/tomlplusplus/toml.hpp:15628-15684 | the walk of a header through the nodes ends as the way through what the statements defined |
| `TomlRedefinition.HeaderAllowedIs` | extern/tomlplusplus/toml.hpp:15693-15751 | a header is accepted on the parser's lists if and only if it fits what the statements defined: a new name, one more element of an array of tables, or a table made on the way to an earlier header with only tables below it |
| `TomlRedefinition.InsertAllowedIs` | extern/tomlplusplus/toml.hpp:15816-15869 | a key may be inserted on the parser's lists if and only if it is new and leads only through tables no header has opened |
| `TomlRedefinition.HeaderRemembered` | extern/tomlplusplus/toml.hpp:15753-15781 | after a header the lists say of every path what it was defined as |
| `TomlRedefinition.KeyValueRemembered` | extern/tomlplusplus/toml.hpp:15816-15881 | the same after a key/value statement |
| `TomlRedefinition.NoTableTwice` | extern/tomlplusplus/toml.hpp:15714-15751 | in an accepted document no two headers open the same table |
| `TomlRedefinition.NoDottedTableOpened` | extern/tomlplusplus/toml.hpp:15714-15751 | in an accepted document no header opens a table that a dotted key made, or a place that holds a value |
| `TomlRedefinition.StaysDefined` | extern/tomlplusplus/toml.hpp:15559-15881 | what a path was defined as it stays to the end of the document, but that a table made on the way to a header may become the table of one, and an array of tables grows |
| `TomlRedefinition.OpensAfterDottedKeys` | extern/tomlplusplus/toml.hpp:15714-15741 | a header opens a table made on the way to another header, through which dotted keys may have gone, if and only if every value they put directly into it is a table or a non-empty array of tables |
| `TomlRedefinition.DottedThenHeaderIsAllowed` | extern/tomlplusplus/toml.hpp:15714-15741 | two four-line documents: with a dotted key that makes a table the last header is accepted, with one that puts a number it is refused |
| `TomlDocument.ApartAfterHeader` | extern/tomlplusplus/toml.hpp:15753-15781 | opened tables, tables made by dotted keys and implicit tables stay three kinds apart |
| `TomlPath.ReadIndexReads` | extern/tomlplusplus/toml.hpp:10905-10990 | a printed index is read back, for every size_t value |
| `TomlPath.ParsePrinted` | extern/tomlplusplus/toml.hpp:10888-11064 | parsing a printed path gives its components without the empty keys that stand directly before an index |
| `TomlPath.ParsedKeysArePlain` | extern/tomlplusplus/toml.hpp:11020-11056 | no text parses to a key that holds a dot or a bracket |
| `TomlPath.RoundTrip` | extern/tomlplusplus/toml.hpp:11371-11391 | parsing undoes printing if and only if the list is not empty, no key holds a dot or a bracket, and no empty key stands directly before an index |
| `TomlPath.EmptyKeyIsLost` | extern/tomlplusplus/toml.hpp:11371-11391 | an instance: an empty key before an index is printed, and lost when it is read |
| `TomlPathTexts.PathsAreTheseTexts` | extern/tomlplusplus/toml.hpp:10887-11060 | for every text: it is a path, with these components, if and only if it is put together of keys, dots, indices between brackets with blanks around their figures, and blanks behind them, where each may stand, and they name these components |
| `TomlPathTexts.NoFigure` | extern/tomlplusplus/toml.hpp:10904-10923 | refused: no figure behind an opening bracket and blanks |
| `TomlPathTexts.BadIndex` | extern/tomlplusplus/toml.hpp:10925-10995 | refused: an index of 2 to the 64 or more, or with a character behind it that ends no index |
| `TomlPathTexts.StrayBracket` | extern/tomlplusplus/toml.hpp:10887-11060 | refused: a closing bracket that closes nothing |
| `TomlPathTexts.WordBehindIndex` | extern/tomlplusplus/toml.hpp:10887-11060 | refused: a word right behind an index, unless it is all blanks |
| `TomlPath.ReadIndexAt` | extern/tomlplusplus/toml.hpp:10905-10997 | the index scan reads what the grammar of an indexer reads, a missing closing bracket included |
| `TomlPath.Path.ParsePath` | extern/tomlplusplus/toml.hpp:10888-11064 | the loop with its two flags appends the components the grammar gives |
| `TomlPath.Path.ParseInto` | extern/tomlplusplus/toml.hpp:11338-11366 | a path that does not parse leaves the components as they were |
| `TomlPath.Path.PrintTo` | extern/tomlplusplus/toml.hpp:11371-11391 | prints every component, with a dot before every key but the first |
| `MacroPrefix.IsSpaceMacroPrefix` | src/core/MacroPrefix.h:31-55 | the plain scan: true exactly when the candidate starts some key, by exact case for keys with capitals and in lower case for the others |
| `MacroPrefix.LessTotal` | src/core/MacroPrefix.h:108-110 | the key order is total |
| `MacroPrefix.LessTransitive` | src/core/MacroPrefix.h:108-110 | the key order is transitive |
| `MacroPrefix.CompareIsSide` | src/core/MacroPrefix.h:216-227 | comparing the front of a key with the query tells on which side of the matching keys it stands |
| `MacroPrefix.SideMonotone` | src/core/MacroPrefix.h:213-227 | sides never go back along the sorted order, so the comparison partitions it |
| `MacroPrefix.BetweenShares` | src/core/MacroPrefix.h:111-114 | what two keys share, every key between them shares |
| `MacroPrefix.HasUpper` | src/core/MacroPrefix.h:145-153 | the rule stored with a key answers as the locale does, whatever the locale became since |
| `MacroPrefix.FoldIsLower` | src/core/MacroPrefix.h:155-163 | folding only capitals and non-ASCII characters is lowering every character |
| `MacroPrefix.ComparePrefix` | src/core/MacroPrefix.h:216-227 | both comparison loops compute the side, folding the query on the way or not |
| `MacroPrefix.CommonCut` | src/core/MacroPrefix.h:173-179 | a query that differs from the characters all keys open with matches no key |
| `MacroPrefix.NoFoldStart` | src/core/MacroPrefix.h:191-193 | a query whose folded first character is no fold start matches no key that ignores case |
| `MacroPrefix.HitsAreTheScan` | src/core/MacroPrefix.h:171-212 | the scan's answer is one exact lookup among keys with capitals and one folded lookup among the others |
| `MacroPrefix.MacroPrefixIndex.constructor` | src/core/MacroPrefix.h:83-124 | for every key set in every order, the text, the sorted ids, the common length and the fold starts are what the lookup relies on |
| `MacroPrefix.MacroPrefixIndex.LowerBound` | src/core/MacroPrefix.h:180-183 | the binary search ends where the keys before the query end |
| `MacroPrefix.MacroPrefixIndex.ContainsOtherPrefixes` | src/core/MacroPrefix.h:171-212 | the two lookups, with the raw shortcut, the 32-character scratch and the longer candidates, answer what the scan answers |
| `MacroPrefix.MacroPrefixIndex.ContainsPrefix` | src/core/MacroPrefix.h:126-133 | the index answers exactly what the plain scan over its keys answers, in every locale that keeps the ASCII rules |
| `NativeMessaging.ReadBodyReads` | src/browser_host/NativeMessaging.cpp:75-139 | every laid-out member list without repeats is read to its fields, whatever the blanks and the order |
| `NativeMessaging.ReadBodySplits` | src/browser_host/NativeMessaging.cpp:75-139 | conversely everything that is read is such a layout, and no field was read twice |
| `NativeMessaging.SmallDigits` | src/browser_host/NativeMessaging.cpp:85-96 | a run of digits is worth one or two exactly when it is that digit behind zeros |
| `NativeMessaging.FinishSays` | src/browser_host/NativeMessaging.cpp:140-150 | the closing checks accept exactly the message the fields say: each required field once, a mode if and only if the protocol is 2, an allowed browser, a safe host name that is not empty when focused |
| `NativeMessaging.ParsesExactlyDocuments` | src/browser_host/NativeMessaging.cpp:58-158 | a text of at most 8192 bytes parses to a message if and only if it is some layout of an object that says that message |
| `NativeMessaging.LayoutDoesNotMatter` | src/browser_host/NativeMessaging.cpp:58-158 | two layouts of the same fields are both accepted, as one message, or both refused |
| `NativeMessaging.CommaAndZeroAreAccepted` | src/browser_host/NativeMessaging.cpp:75-139 | two accepted texts: one with a comma after its last member, one with protocol 01 |
| `NativeMessagingTexts.WrittenIsParsed` | src/browser_host/NativeMessaging.cpp:58-158 | for all words: the message as the extension writes it gives its protocol, browser, hostname, route, mode and focus, or the error of the first thing wrong with it, each word and each limit told as such |
| `NativeMessagingTexts.BrowserAndHostDecide` | src/browser_host/NativeMessaging.cpp:40-56 | in any layout, fields that otherwise say a message are accepted if and only if the browser is one of the six, the hostname has fewer than 256 characters, all of them small letters, figures, full stops, hyphens and colons, and is not empty when focused |
| `NativeMessagingTexts.OnePage` | src/browser_host/NativeMessaging.cpp:49-56 | a page of `voz.vn` with the focus |
| `NativeMessagingTexts.BlankCharacter` | src/browser_host/NativeMessaging.cpp:14-16 | the six characters that may stand between the parts |
| `NativeMessagingTexts.NoObject` | src/browser_host/NativeMessaging.cpp:66-71 | the error for a text that is no object |
| `NativeMessagingTexts.NoKey` | src/browser_host/NativeMessaging.cpp:76-79 | the error for a body with neither a key nor the closing brace at its front |
| `NativeMessagingTexts.BadMember` | src/browser_host/NativeMessaging.cpp:78-81 | the errors for a key with no colon behind it, an unknown one, and one that has come before |
| `NativeMessagingTexts.BadValue` | src/browser_host/NativeMessaging.cpp:82-126 | the errors for values that are not of the kind of their key |
| `NativeMessagingTexts.NoSeparator` | src/browser_host/NativeMessaging.cpp:134-138 | the error for a member with neither a comma nor the closing brace behind it |
| `NativeMessaging.SkipSpaceAt` | src/browser_host/NativeMessaging.cpp:13-15 | skips exactly the blanks at the cursor |
| `NativeMessaging.ReadStringAt` | src/browser_host/NativeMessaging.cpp:17-31 | reads a quoted value without escapes or control characters and stands after its closing quote |
| `NativeMessaging.ReadLiteralAt` | src/browser_host/NativeMessaging.cpp:33-38 | reads a literal or leaves only the blanks behind |
| `NativeMessaging.ReadTurn` | src/browser_host/NativeMessaging.cpp:75-139 | every turn of the member loop moves the cursor on |
| `NativeMessaging.ParseNativeMessage` | src/browser_host/NativeMessaging.cpp:58-158 | the parser with its cursor gives the message or the error of the recursive description, and succeeds exactly on the layouts of that message |
| `MacroCase.ExpandEscapesForClipboard` | src/core/MacroCase.cpp:175-187 | writes the characters of the expansion with every newline token as CR LF |
| `MacroCase.BuildSegments` | src/core/MacroCase.cpp:189-213 | cuts the expansion at its newline tokens: no empty run, no two runs side by side, nothing lost or moved, for every code table |
| `MacroCase.SegmentsAreUnique` | src/core/MacroCase.cpp:189-213 | there is only one way to cut a text into such segments, so those promises fix the result |
| `MacroCase.OutputsAgree` | src/core/MacroCase.cpp:175-213 | the clipboard text is the rendering of the segments |
| `MacroCase.CanUndoWithBackspaces` | src/core/MacroCase.cpp:247-259 | true exactly when the expansion holds no newline token and every unit of it is one backspace |
| `MacroCase.UndoableIsOneSegment` | src/core/MacroCase.cpp:189-259 | such an expansion is dispatched as one segment, itself, or as none when it is empty |
| `MacroCase.DetectCaps` | src/core/MacroCase.cpp:30-52 | two or more letters, all capital, ask for capitals; one capital up front asks for title or first-letter case; sentence capitals only for the first letter |
| `MacroCase.ApplyCaps` | src/core/MacroCase.cpp:54-81 | rewrites the text in place into its capitalised form, for every style |
| `MacroCase.CappedKeepsTokens` | src/core/MacroCase.cpp:54-81 | capitalising keeps every item of the text, or its capital, in its place; no newline token is made, lost or moved |
| `MacroCase.TablesCutAlike` | src/core/MacroCase.cpp:189-213 | a code table encodes the runs of text, and leaves the cuts where Unicode output has them |
| `MacroCase.CappedKeepsShape` | src/core/MacroCase.cpp:54-213 | capitalising never changes the shape of the dispatched segments: for every code table the same returns between the same number of runs, and in Unicode output runs of the same length |
| `MacroCase.Lookup` | src/core/MacroCase.cpp:91-95 | a candidate stands for the key of its exact spelling if there is one, else for its lower-case key, else for none |
| `MacroCase.FindKey` | src/core/MacroCase.cpp:97-131 | the four stages of the search find the first candidate, in one fixed order, that the table holds by its exact spelling or else in lower case |
| `MacroCase.Plan` | src/core/MacroCase.cpp:84-173 | the plan is that candidate's: its key, its erase count, its case and its output path |
| `MacroCase.FoundInComposition` | src/core/MacroCase.cpp:97-130 | a match comes from the composition exactly when no raw spelling is in the table |
| `MacroCase.EraseCountExact` | src/core/MacroCase.cpp:134-155 | in Unicode output the erased characters and the eaten trigger equal the shortcut exactly when the match came through the composition, or what is on the screen is as long as the raw buffer before the trigger |
| `MacroCase.EmptyKeyEatsItsTrigger` | src/core/MacroCase.cpp:97-155 | an instance where they do not: with an empty buffer and an empty key the plan eats a printable trigger that is no part of the shortcut |
| `MacroCaseExpansion.SmallKeyExpands` | src/core/MacroCase.cpp:30-81 | for a key without capitals, character by character: the expansion is the stored text with everything but newline tokens raised when two or more letters were typed, all capital; with the first letter of every word raised, or of all, when one capital was typed up front; with the first letter raised when the sentence asked for it; and unchanged otherwise |
| `MacroCaseExpansion.OtherKeyExpands` | src/core/MacroCase.cpp:159-168 | a key that holds a capital is written as it is stored |
| `MacroCaseExpansion.WhichShortcut` | src/core/MacroCase.cpp:97-131 | the buffer comes before the composition, and each with a printable trigger before it is tried without; a text is a key by its spelling or its small letters |
| `MacroCaseExpansion.WhatIsErased` | src/core/MacroCase.cpp:134-155 | the composition's width on the screen if the shortcut came through it or it is still open, otherwise the buffer, which a printable trigger has not reached |
| `MacroCaseExpansion.CappedRaises` | src/core/MacroCase.cpp:54-81 | each style raises exactly the characters it stands for |
| `MacroCaseExpansion.ByTheWay` | src/core/MacroCase.cpp:30-81 | `BTW`, `Btw`, and `Btw` with title case, for `by the way` |
| `MacroCaseExpansion.ClipboardIsForLongTexts` | src/core/MacroCase.cpp:170-172 | capitalising never moves a text across the threshold: the clipboard is used for Unicode and a stored text longer than it |
| `MacroCaseExpansion.OnTheClipboard` | src/core/MacroCase.cpp:175-187 | the clipboard text is the expansion with CR LF in place of every newline token, character by character |
| `MacroCaseExpansion.UndoIsOffered` | src/core/MacroCase.cpp:247-259 | the undo by backspaces is offered exactly when no unit belongs to a token, is a control character or a surrogate, or lies in one of six blocks |
| `MacroContextMatch.LongestMacroKeyLength` | src/core/MacroContextMatch.h:32-39 | the length of the longest key, attained by one |
| `MacroContextMatch.PlannedErase` | src/core/MacroContextMatch.h:102-108 | the planner's own count over the candidate is already the number of document characters replaced |
| `MacroContextMatch.MatchInPrecedingText` | src/core/MacroContextMatch.h:50-111 | the longest suffix within the scan that starts at a word boundary and that the planner matches, with its plan; nothing if and only if there is none |
| `MacroContextShortcuts.ShortcutsAreKeys` | src/core/MacroContextMatch.h:73-103 | a suffix is a shortcut if and only if it begins the text or stands behind a blank or a punctuation mark, and it, or it with a printable trigger behind it, is a key by its spelling or its small letters |
| `MacroContextMatch.BeyondTheScan` | src/core/MacroContextMatch.h:62-71 | exactly what the bound on the scan gives up: a key of the longest length, typed in full before a printable trigger that is not part of it |
| `MacroContextMatch.SilentTriggersMissNothing` | src/core/MacroContextMatch.h:62-71 | with a trigger that leaves no character the search misses no shortcut |
| `MacroContextMatch.LongestKeyBeforePunctuation` | src/core/MacroContextMatch.h:62-71 | a concrete shortcut the bound gives up |
| `FixedSlots.Count` | src/core/DorionHookReclaimPolicy.h:48-57 | a slot is free exactly when the slots hold fewer values than there are slots |
| `DorionHookReclaimPolicy.Policy.Observe` | src/core/DorionHookReclaimPolicy.h:37-57 | granted exactly when the process is current, Dorion, valid, not pending, not done, not suppressed, and a slot is free; never for a process that is done |
| `DorionHookReclaimPolicy.Policy.Complete` | src/core/DorionHookReclaimPolicy.h:59-75 | frees the pending slot, and remembers a success or, when the history is full, gives up on new processes |
| `DorionHookReclaimPolicy.Policy.Reset` | src/core/DorionHookReclaimPolicy.h:77-81 | forgets everything |
| `DorionHookReclaimPolicy.RunIsBounded` | src/core/DorionHookReclaimPolicy.h:37-81 | over every run pending and successful stay apart, valid, and within four and eight |
| `DorionHookReclaimPolicy.NeverGrantedAgain` | src/core/DorionHookReclaimPolicy.h:37-75 | over every run no process is granted a replacement after it completed one, even when the history overflows |
| `DorionHookReclaimPolicy.OneReplacementInFlight` | src/core/DorionHookReclaimPolicy.h:37-75 | over every run two grants to one process have a completion of that process between them |
| `DorionHookReclaimLimits.FourAreGranted` | src/core/DorionHookReclaimPolicy.h:34-57 | of any number of processes that start one after another the first four are granted a replacement, and no more |
| `DorionHookReclaimLimits.EightAreRemembered` | src/core/DorionHookReclaimPolicy.h:59-75 | of any number of processes served one after the other the first eight are remembered, the ninth is served still, and then none |
| `DorionHookReclaimLimits.OnlyDorion` | src/core/DorionHookReclaimPolicy.h:37-47 | over every run nothing but the foreground process of that name, with an identity, is granted a replacement, and not while it waits for an answer |
| `DorionHookReclaimSequence.DelayedReclaimSlots.Arm` | src/core/DorionHookReclaimSequence.h:34-48 | armed exactly when the ticket is valid, neither its timer nor its process is armed, and a slot is free |
| `DorionHookReclaimSequence.DelayedReclaimSlots.TakeIfDue` | src/core/DorionHookReclaimSequence.h:50-60 | a ticket leaves through its own timer at its due tick or later, and only if it is armed |
| `DorionHookReclaimSequence.DelayedReclaimSlots.Cancel` | src/core/DorionHookReclaimSequence.h:62-72 | hands out the ticket of the process, if there is one |
| `DorionHookReclaimSequence.DelayedReclaimSlots.HasTimer` | src/core/DorionHookReclaimSequence.h:82-88 | true exactly when a ticket with that timer is armed |
| `DorionHookReclaimSequence.DelayedReclaimSlots.Clear` | src/core/DorionHookReclaimSequence.h:104-104 | drops every ticket |
| `DorionHookReclaimSequence.EachTicketLeavesOnce` | src/core/DorionHookReclaimSequence.h:34-104 | over every run a ticket leaves exactly as often as it was armed, but for the time it is still armed |
| `DorionHookReclaimSequence.NeverEarly` | src/core/DorionHookReclaimSequence.h:50-60 | over every run a timer hands out a ticket only while it is armed, under its own id, and never before its due tick |
| `DorionHookReclaimLimits.FourAreArmed` | src/core/DorionHookReclaimSequence.h:32-48 | of any number of unlike tickets the first four are armed, and no more |
| `DorionHookReclaimLimits.OnTime` | src/core/DorionHookReclaimSequence.h:50-60 | a timer whose ticket is armed and due hands it out |
| `DorionHookReclaimSequence.QuietAcrossWrap` | src/core/DorionHookReclaimSequence.h:125-138 | for clocks less than half the range apart, the wrapped ticks tell the real quiet time; an input that seems to lie ahead is never quiet |
| `AutoCap.ClassifyCapTrigger` | src/core/AutoCapDecision.h:138-162 | the backward loop classifies the last character before the blanks at the end |
| `AutoCap.ScanSays` | src/core/AutoCapDecision.h:138-162 | the beginning of the document exactly for blanks alone; a line exactly when a line break stands last but for blanks; a sentence exactly when one of three marks does, with a blank behind it |
| `AutoCap.AgreeOnCapital` | src/core/AutoCapDecision.h:164-169 | once the document holds more than blanks, a pending capital is any trigger of the scan |
| `AutoCap.KeySays` | src/core/AutoCapStateTransition.h:54-98 | what each key does to the state, by its number |
| `AutoCap.KeyAgrees` | src/core/AutoCapStateTransition.h:54-98 | one key keeps automaton and scan together if and only if it types what the automaton takes it for and is no tab behind pending punctuation |
| `AutoCap.RunAgrees` | src/core/AutoCapStateTransition.h:54-98 | over a whole run automaton and scan agree after every key if and only if every key keeps them together |
| `AutoCap.UsTypingAgrees` | src/core/AutoCapStateTransition.h:54-98 | typing on a United States keyboard, the automaton follows the text after every key if and only if there is no Shift and period, no full stop from the decimal key of the numeric keypad, and no tab behind pending punctuation |
| `AutoCap.KeypadStopIsMissed` | src/core/AutoCapStateTransition.h:54-98 | the decimal key of the numeric keypad types a full stop, but the automaton takes it for any other key |
| `AutoCap.TabForgets` | src/core/AutoCapStateTransition.h:96-97 | a tab after a full stop disarms the automaton, while the text still ends a sentence |
| `AutoCap.ShiftPeriodIsTakenForAStop` | src/core/AutoCapStateTransition.h:66-71 | Shift and period types no full stop, but the automaton takes it for one |

## Left out

- Moved-out child slots: a nested container inside a vector is a value, so the empty slots `flatten_child` leaves in the child it consumes, and aliasing between children, are not represented.
- Malformed UTF-8 handed to the string writer: the model writes sequences of code points.
- Error messages, source regions and positions of parse errors: an error is a failure without its text, except in `NativeMessaging`, where the error code is kept.
- Unsigned wrap-around of line and column numbers, and of sizes beyond the address space.
- The pointers that `parse_float` and `parse_hex_float` keep in the same way, with floats as such. Of pointers kept over more than one read only what they read after the first is stated: no modelled function keeps one longer.
- The stream variant of the byte source and a failing stream: the source is a byte sequence with an optional byte order mark.
- The traits by which `parse_value` tells the types apart (of it only the look-ahead, the lone digit and the length limit of decimals are modelled), floats, dates, infinities, hexadecimal floats, JSON and YAML output: the typed parsers are modelled directly and a scalar in a document is a number.
- The characters of keys and punctuation in a document: `TomlDocumentParser` starts from keys and values already read, and `TomlText` reads one key segment or string at the front of the bytes.
- Reading on demand: `TomlText` reads all blocks of a document before the parser takes them one by one, so in an ill-formed document the error comes at once, not at the block that spoils it. What the block buffer holds at each moment is modelled.
- The branches of the TOML engine that are off by default (unreleased language features, builds without `charconv`).
- The table printer, iterators, views, node templates and comparisons of the TOML engine.
- `CodeTableConverter::ConvertChar`: an uninterpreted function to one or two units.
- Allocation failure, and with it the `parse_exception` error of `ParseNativeMessage`.
- `TryReadModeEvent`, `SerializeModeEvent`, `IsCommitTrigger`, `ShouldTrigger` and the other one-branch decision tables: they would only add easy members.
- The control probes and password safety rules of auto-capitalisation, and keys that move the caret or delete text: `AutoCap` is about typing.
- `HookEngine`: of it only the rule that a typed letter uses up a pending capital is taken over.
- `StorageBytes` of the prefix index and the sharing of its data between copies.
- `HasPending`, `HasAnyPending` and `ActiveTimerIds` of the delayed slots: they only read the slots.
- Win32 glue, process plumbing, user interface, resources and release tools.
