# Verification model of the AT command firmware

This Dafny project models the hand-written buffer and protocol code of the firmware and proves what
it is relied on for. `dafny verify dfyconfig.toml` checks everything. Each source file that works by
changing things step by step is modelled by methods and classes over arrays and heap objects, proved
against functions on values; the theorems are lemmas about those functions, over every input and every
run.

| part | files | what is proved |
|---|---|---|
| JSON | `JsonValue`, `JsonString`, `JsonLiteral`, `JsonNumber`, `JsonParser`, `JsonGrammar`, `JsonDerivation`, `JsonPrinter`, `JsonRoundTrip`, `JsonList`, `JsonTree`, `JsonCompare`, `JsonWhole` | exactly the texts of a grammar are accepted, and read as their values, printed texts are such texts; the parser builds a linked tree of new nodes that holds it, and decoding never outgrows its allocation; printing a linked tree into a fixed buffer succeeds exactly when it can, and what is printed parses to the same tree; a recursive copy forms the same tree in new nodes; comparison is equality of meaning, symmetric always and transitive exactly when closeness of the numbers is |
| command line | `History`, `HistoryRing`, `Ansi`, `Terminal`, `Editor`, `Sequences`, `CommandDecoder`, `Display`, `Console` | the history is the longest suffix that fits, byte for byte across the ring wrap; every run of editing stays inside the buffer, and the line is what the editing keys make of it; control sequences are swallowed whole; what the user sees is the line, with the exact exceptions; what the main loop makes of a stream does not depend on how it arrives |
| AT parameters | `AtParameters`, `AtIntegers`, `AtParser`, `AtPrinter`, `AtRoundTrip`, `AtGrammar`, `AtCommandLine`, `Inet` | the in-place parser refines an out-of-place one, which accepts exactly a grammar and reads integers by the places of their digits; the parser inverts the printers, with the exact exceptions; what is typed is what is parsed; IPv4 text and value undo each other |
| transfer | `Crc`, `Xmodem`, `XmodemReceiver` | the CRC is the remainder of a polynomial division and detects every burst of 16 bits; the receiver does the same however bytes arrive, over any number of calls; every frame gets exactly one answer or, as an older block, none; a file arrives once and in order when the line changes numbers and complements in any way and block bodies by bursts of at most 16 bits or by odd numbers of bits |
| keys | `Base64`, `Pem`, `PemDecoder`, `Der`, `DerRoundTrip`, `DerGrammar` | PEM texts give back the bytes they encode, decoded in place; DER keys, wrapped or not, give their nine numbers; of both, exactly which are accepted |

`Bytes` holds the byte type, ASCII constants and text positions the other modules share.

How the pieces fit: a function such as `JsonParser.ParseValueAt`, `Terminal.Step`, `AtParameters.Scan`,
`Xmodem.Step`, `Pem.Converted` or `Der.RsaIntegers` says what the source computes; the method of the same
part (`ParseBuffer.ParseValue`, `Decoder.ProcessByte`, `ParseCommandParams`, `Receiver.Process`,
`PemToDer`, `ParseRsaPrivateKey`) does it with the source's own cursors, loops and stores, and ensures
agreement. For the checksum the connection is `Crc.DecodePacketCRC`, for the history
`LineHistory.Store`. For JSON trees it is `JsonTree.Forms`, which says that nodes are linked as a given shape
and hold a given tree: parsing (`ParseBuffer.ParseWithOpts`), printing (`PrintBuffer.PrintValue`), insertion (`InsertTree`), copying
(`DuplicateTree`) and comparison (`CompareTrees`) are all stated in it.

Bytes are 0 to 255, as the comparisons in the sources assume. Numbers in JSON are reals, so that
integers are exact; the printers are stated for the integers that `%1.15g` prints as plain decimals.

## Behaviour worth knowing

Where code and expectation part, the model follows the code:

- A `\u` escape with a bad digit reads as a NUL and shifts the second pass of the JSON string decoder
  against the first; the allocation still suffices (`JsonString.DecodeFits`, `JsonLiteral.BadHexReadsAsNul`).
- Trees nested deeper than 1000 print but do not parse (`JsonRoundTrip.PrintedTextParses`).
- A tree with repeated keys need not compare equal to its own copy, and keys that differ only behind a `\u0000`
  are repeated keys (`JsonCompare.CompareLimits`, exact condition in `JsonCompare.CopyComparesEqual`). Equality of trees is
  not transitive, for closeness of numbers is not (exact condition in `JsonCompare.CompareIsTransitive`).
- A full 512-byte command line refuses every further byte, backspace included. A line of 511 characters can
  be entered, but its arguments are refused without a report (`AtCommandLine.TypedListIsParsed`).
- The first digit of a control sequence goes to the collect buffer and a new sequence does not clear the
  parameter buffer, so ESC [ 1 ~ is the F1 key exactly when an earlier sequence has left a `1` there, as
  ESC [ 0 1 m does (`Terminal.F1IsStale`, `Terminal.SecondDigitStays`).
- What the user sees is not always the line. A carriage return shows the cursor on the prompt, one column left of
  where the next byte goes in the line; a line feed on an empty line moves the cursor down but not back, so that the
  new prompt stands a column too far right (`Display.ReturnMisleads`, `Display.LineFeedMisleads`). `Display.RowIsTheLine`
  says exactly after which bytes the row is right.
- The parameter parser accepts an unterminated string or bracket, a lone minus sign, and letters beyond F in
  a hexadecimal string (they count as 0); it refuses a blank behind an integer and an empty parameter
  (`AtRoundTrip.UnterminatedIsAccepted`, `AtRoundTrip.LoneMinusIsZero`, `AtGrammar.LettersReadAsZero`,
  `AtGrammar.BlanksAndGapsAreRefused`). `AtGrammar.ParsesTheGrammar` says exactly which texts it accepts.
- It does not count its entries: 32 are enough exactly for texts that begin no more (`AtParameters.Entries`,
  `AtParameters.EntriesAreParameters`). Nor do the string printers measure: 749 bytes fit (`AtPrinter.OutputFits`).
- The escaped printer writes `\0`, which the parser refuses; the plain path of the safe printer does not escape
  quotes and backslashes (`AtRoundTrip.SafeRoundTrip` gives the exact condition).
- An XMODEM block older than the expected one gets no reply at all, NUL bytes between frames are skipped, and
  an unknown frame type ends the hearing for good (`Xmodem.OutOfTurn`, `Xmodem.Frames`).
- The PEM converter writes one byte more than it reports when there is padding; its unsigned length wraps
  around exactly when the encoding begins with `=` (`Pem.LengthWraps`).

## Model

| member | source | states |
|---|---|---|
| JsonString.NextBoundary | firmware/src/cJSON.c:727-815 | Wherever the decoding pass lands, the counting pass has a token boundary there or one byte later, and between two boundaries no token is longer than two bytes. |
| JsonString.StepFits | firmware/src/cJSON.c:760-815 | One turn of the decoding pass keeps the account: what it writes and the room still needed never exceed what the counting pass reserved, even when a `\u` with bad digits has put the passes out of step. |
| JsonString.DecodeFits | firmware/src/cJSON.c:714-840 | For any input whatever, the decoded bytes are at most as many as the counting pass counted, so with the terminator they fit the allocation. |
| JsonLiteral.LiteralParses | firmware/src/cJSON.c:714-840 | Every literal of RFC 8259 (plain bytes, short escapes, `\uXXXX`, surrogate pairs) is read whole and decodes to the UTF-8 of its code points. |
| JsonLiteral.StringsExactly | firmware/src/cJSON.c:714-840 | A string is read exactly where a literal stands whose closing quote is the first that no backslash protects and whose content can be taken apart into pieces: bytes, the eight short escapes, and `\u` escapes with any four bytes behind them; and as the value of the pieces. |
| JsonLiteral.ScanIs | firmware/src/cJSON.c:727-758 | The counting pass ends exactly at the first quote that no backslash protects. |
| JsonLiteral.DecodeReads | firmware/src/cJSON.c:760-818 | What the decoding pass reads are such pieces, the last of which may take the closing quote for its own when a bad `\u` has put it out of step. |
| JsonLiteral.BadHexReadsAsNul | firmware/src/cJSON.c:556-589 | A `\u` escape with a bad hexadecimal digit is not refused: it reads as a NUL and takes six bytes. |
| JsonLiteral.Utf8ReadsBack | firmware/src/cJSON.c:656-705 | The encoding loop is UTF-8: by the table of section 3 of RFC 3629 every code point up to 0x10FFFF is read back from its bytes. |
| JsonLiteral.PairReadsBack | firmware/src/cJSON.c:618-649 | The surrogate arithmetic gives each supplementary code point back from its pair. |
| JsonParser.NumberRunBytes | firmware/src/cJSON.c:289-322 | The run of number bytes ends at the 63-byte limit, at the end of the content, or at the first byte that is none. |
| JsonParser.ParseBuffer.SkipWhitespace | firmware/src/cJSON.c:979-997 | The cursor moves to the first byte above space, or to the last byte when it would run out of the content. |
| JsonParser.ParseBuffer.SkipUtf8Bom | firmware/src/cJSON.c:1000-1013 | Three bytes are skipped exactly when a byte order mark stands at the start and more than four bytes are there. |
| JsonParser.ParseBuffer.CopyNumberBytes | firmware/src/cJSON.c:289-322 | The copying loop copies exactly the run of number bytes that fits its buffer. |
| JsonParser.ParseBuffer.ParseNumber | firmware/src/cJSON.c:276-350 | The item gets the number of that run as a double and, saturated, as an int, and the cursor passes it; otherwise nothing is read. |
| JsonTree.SaturatedTruncates | firmware/src/cJSON.c:332-344 | The int of a number: between the limits the one integer of its sign, no larger and less than one away; at or beyond a limit, the limit. |
| JsonParser.ParseBuffer.ParseHex4 | firmware/src/cJSON.c:556-589 | The loop computes the value of four digits, or 0 if one of them is none. |
| JsonParser.ParseBuffer.EncodeUtf8 | firmware/src/cJSON.c:656-705 | The back-to-front loop writes the UTF-8 of the code point behind what is already there. |
| JsonParser.ParseBuffer.Utf16LiteralToUtf8 | firmware/src/cJSON.c:593-711 | One escape or surrogate pair: its consumed length and its bytes, or failure, with all stores inside the output. |
| JsonParser.ParseBuffer.UnescapeOne | firmware/src/cJSON.c:764-814 | One turn of the decoding loop appends exactly the bytes of the character or escape at the cursor. |
| JsonParser.ParseBuffer.Unescape | firmware/src/cJSON.c:760-818 | The decoding loop, given the room the first pass reserved, stays inside it and produces the decoded string or stops at the escape it cannot decode. |
| JsonParser.ParseBuffer.ParseString | firmware/src/cJSON.c:714-840 | The item gets the type and the bytes of the literal at the cursor; on failure it stays and the cursor stays within the content. |
| JsonParser.ParseBuffer.ParseValue | firmware/src/cJSON.c:1228-1280 | Refines the recursive grammar and builds the tree: the item becomes the root of nodes that hold exactly the value, linked as a tree, all below it new; cursor behind it, depth restored, in every case at most 1000; terminates on remaining bytes. |
| JsonParser.ParseBuffer.ParseArray | firmware/src/cJSON.c:1357-1448 | The same for arrays: the items read are the children, chained in order behind `child`. |
| JsonParser.ParseBuffer.ParseItems | firmware/src/cJSON.c:1389-1431 | The loop: a row of new nodes, one tree for each item, ending at the bracket or failing where the grammar does. |
| JsonParser.ParseBuffer.ParseItem | firmware/src/cJSON.c:1392-1424 | One turn: a new node goes to the end of the chain, an item is read into it, and the cursor is at the byte the comma test looks at. |
| JsonParser.ParseBuffer.ParseObject | firmware/src/cJSON.c:1513-1619 | The same for objects. |
| JsonParser.ParseBuffer.ParseMembers | firmware/src/cJSON.c:1545-1602 | The loop over members. |
| JsonParser.ParseBuffer.ParseMember | firmware/src/cJSON.c:1546-1596 | One turn: a new node gets its name as key, then its value. |
| JsonParser.ParseBuffer.ParseName | firmware/src/cJSON.c:1569-1586 | The name is the literal found after white space, moved from the value to the key, and a colon follows it. |
| JsonParser.ParseBuffer.ParseWithOpts | firmware/src/cJSON.c:1016-1093 | The root of a tree of new nodes holding the value of the C string, its bytes up to the first NUL, with or without the demand that nothing follows it, and where it ends; or nothing, and a position inside the text. |
| JsonNumber.LiteralConverts | firmware/src/cJSON.c:321-330 | The text of any number literal (section 6 of RFC 8259) converts whole to its digits times ten to the exponent less the digits behind the point. |
| JsonNumber.LiteralParses | firmware/src/cJSON.c:276-350 | Every number literal of at most 63 bytes, wherever it stands, is read whole and as its value. |
| JsonNumber.LongestIsConverted | firmware/src/cJSON.c:321-330 | `strtod` reads exactly the longest text that is a literal, digits on one side of a point being enough, and as its value. |
| JsonNumber.ScaledByTen | firmware/src/cJSON.c:321-330 | One more in the exponent is ten times the value. |
| JsonLiteral.PrintedIsLiteral | firmware/src/cJSON.c:843-962 | Every printed string is a literal of the grammar whose value is the string. |
| JsonNumber.IntegerIsLiteral | firmware/src/cJSON.c:490-553 | Every printed integer is a number literal whose value is the integer. |
| JsonGrammar.DocParses | firmware/src/cJSON.c:1228-1619 | Every value of the grammar, that of RFC 8259 and what else is let through, with any white space around its tokens and numbers of at most 63 bytes, wherever it stands, is read whole and as its value exactly when it does not nest over the limit. |
| JsonGrammar.SpacedParses | firmware/src/cJSON.c:1414-1423 | An item between white space is found, read, and left at the byte behind it. |
| JsonGrammar.ItemsParse | firmware/src/cJSON.c:1389-1442 | The items of an array, with what has been read so far. |
| JsonGrammar.MemberParses | firmware/src/cJSON.c:1566-1596 | A member: name, colon and value, with white space around each. |
| JsonGrammar.MembersParse | firmware/src/cJSON.c:1545-1611 | The members of an object, with what has been read so far. |
| JsonGrammar.TextParses | firmware/src/cJSON.c:1016-1093 | Every JSON text without a NUL, white space around it included, parses to its value exactly when it nests at most 1000 deep, also when nothing may follow it. |
| JsonDerivation.DocDerives | firmware/src/cJSON.c:1228-1619 | The converse: whatever value is read, a text of the grammar stands there that stands for it and ends where it ends. |
| JsonDerivation.NameDerives | firmware/src/cJSON.c:1569-1586 | A member name that is read is a literal with white space and a colon behind it. |
| JsonDerivation.ItemsDerive | firmware/src/cJSON.c:1389-1442 | Items that are read are texts with commas between them and a closing bracket behind them. |
| JsonDerivation.MembersDerive | firmware/src/cJSON.c:1545-1611 | Members that are read are names, colons and values with commas between them and a closing brace behind them. |
| JsonDerivation.ValuesExactly | firmware/src/cJSON.c:1228-1619 | At any place a value is read if and only if a text of the grammar stands there, a number being the longest one, that stands for it and does not nest over the limit; and the end is where the text ends. |
| JsonDerivation.TextsExactly | firmware/src/cJSON.c:1016-1093 | A C string is accepted, and read as a value, if and only if it is a byte order mark or none, white space, a text of the grammar for that value, nested at most 1000 deep, and what follows, which is white space where that is asked for; everything else is refused. |
| JsonDerivation.TextEnds | firmware/src/cJSON.c:1056-1066 | The reported end is behind that text, or at the terminator where nothing may follow. |
| JsonRoundTrip.QuotedParses | firmware/src/cJSON.c:714-962 | A printed string, wherever it stands, parses to the string and ends where it ends. |
| JsonRoundTrip.IntegerParses | firmware/src/cJSON.c:276-553 | A printed integer of at most 15 digits parses to its value, whatever non-number byte follows. |
| JsonRoundTrip.ValueParses | firmware/src/cJSON.c:1228-1354 | The text of any printable tree at any place, formatted or not, parses to the tree exactly when its nesting fits below the limit, and is consumed exactly. |
| JsonRoundTrip.PrintedItemsAreText | firmware/src/cJSON.c:1474-1498 | What is printed for the items of an array is a list of the grammar, its white space the printed spaces. |
| JsonRoundTrip.PrintedMembersAreText | firmware/src/cJSON.c:1649-1733 | What is printed for the members of an object is a list of the grammar, its white space the indentation and line ends. |
| JsonRoundTrip.PrintedIsText | firmware/src/cJSON.c:1283-1354 | The printed text of every printable tree, formatted or not, is a text of the grammar and stands for the tree. |
| JsonRoundTrip.PrintedTextParses | firmware/src/cJSON.c:1016-1733 | Printing then parsing is the identity for every tree of null, booleans, integers below 10^15, NUL-free strings, arrays and objects nested at most 1000 deep; deeper trees are refused, not altered. |
| JsonRoundTrip.TextDeterminesTree | firmware/src/cJSON.c:1103-1733 | Two printable trees with the same text are the same tree. |
| JsonWhole.PrintAndParse | firmware/src/cJSON.c:1016-1733 | On the nodes: printing a tree whose numbers are integers below 10^15 and parsing the text gives new nodes that say the same, texts and keys as C strings, exactly when the text fits INT_MAX and the tree nests at most 1000 deep; original and result compare equal when repeated keys agree. |
| JsonPrinter.PrintBuffer.Ensure | firmware/src/cJSON.c:383-468 | Room is granted exactly when offset, need and terminator fit the buffer, or INT_MAX for a growing one; growth keeps what is written. |
| JsonPrinter.PrintBuffer.UpdateOffset | firmware/src/cJSON.c:471-481 | After a terminated text is stored, the offset moves to its terminator. |
| JsonPrinter.PrintBuffer.PrintNumber | firmware/src/cJSON.c:490-553 | Writes the decimal text of an integer below 10^15, or fails for want of room. |
| JsonPrinter.PrintBuffer.CountEscapes | firmware/src/cJSON.c:870-894 | The first loop counts exactly the extra bytes escaping takes. |
| JsonPrinter.PrintBuffer.PutEscaped | firmware/src/cJSON.c:913-959 | The second loop writes the quoted text and a terminator inside the room reserved. |
| JsonPrinter.PrintBuffer.PrintStringPtr | firmware/src/cJSON.c:843-962 | Writes the quoted string exactly when it and its terminator fit. |
| JsonPrinter.PrintBuffer.PrintValue | firmware/src/cJSON.c:1283-1354 | On the nodes that form a tree: writes the text of what they say, texts and keys as C strings, behind what is there and restores the depth, exactly when the text and two more bytes fit. |
| JsonPrinter.PrintBuffer.PrintArray | firmware/src/cJSON.c:1451-1510 | The same for arrays. |
| JsonPrinter.PrintBuffer.PrintItems | firmware/src/cJSON.c:1474-1498 | The walk along the children succeeds exactly when all items and separators fit with room for the bracket and terminator. |
| JsonPrinter.PrintBuffer.PrintItem | firmware/src/cJSON.c:1476-1497 | One turn: the child, and a separator exactly when it has a next. |
| JsonPrinter.PrintBuffer.PrintObject | firmware/src/cJSON.c:1622-1733 | The same for objects. |
| JsonPrinter.PrintBuffer.PrintMembers | firmware/src/cJSON.c:1649-1713 | The walk along the members, with the same exact condition. |
| JsonPrinter.PrintBuffer.PrintMember | firmware/src/cJSON.c:1651-1712 | One turn: name, value, and a comma exactly when the member has a next. |
| JsonPrinter.PrintBuffer.PrintName | firmware/src/cJSON.c:1651-1684 | Indentation, key and colon of a member; failure means they would not have fitted. |
| JsonPrinter.PrintBuffer.Print | firmware/src/cJSON.c:1103-1165 | The growing-buffer printer returns the text for every tree whose text fits INT_MAX, and nothing for no item. |
| JsonPrinter.PrintBuffer.PrintBuffered | firmware/src/cJSON.c:1178-1206 | Any non-negative start size gives the same text. |
| JsonPrinter.PrintBuffer.PrintPreallocated | firmware/src/cJSON.c:1208-1225 | Printing into a fixed buffer succeeds exactly when the length is at least the text length plus 2, and then holds the text the growing printer produces; every store is inside it. |
| JsonValue.TextNulFree | firmware/src/cJSON.c:1283-1354 | The text of a printable tree holds no NUL, so the terminator is where the text ends. |
| JsonPrinter.CutIsPrintable | firmware/src/cJSON.c:843-962 | What a tree says to readers of C strings is printable exactly when its numbers are: a NUL in a text or key stops nothing, it only ends that text. |
| JsonValue.EscapeIs | firmware/src/cJSON.c:913-955 | Exactly quotes, backslashes and bytes below 32 are escaped, five of them by a letter, the others by four lower-case digits. |
| JsonCompare.GetObjectItem | firmware/src/cJSON.c:1788-1818 | Walking the children finds the first whose key reads the same up to its first NUL, or none. |
| JsonCompare.CompareTrees | firmware/src/cJSON.c:2865-2988 | On the nodes: exactly the recursive comparison of the two values, also for trees that share nodes when in either of them repeated keys agree; true for one and the same node; false for a missing one. |
| JsonCompare.FormsOne | firmware/src/cJSON.c:2865-2988 | A node is the root of one tree only, so that the shortcut for one and the same node can be judged. |
| JsonCompare.CompareElements | firmware/src/cJSON.c:2923-2945 | Arrays are walked side by side to the end of both. |
| JsonCompare.CompareMembersOf | firmware/src/cJSON.c:2951-2979 | One direction of the object comparison: every child has an equal partner under its key. |
| JsonCompare.CompareMeans | firmware/src/cJSON.c:2865-2988 | Trees that mean the same (arrays elementwise, objects as maps from keys up to the first NUL) and in neither of which members with one key differ compare equal, whatever their numbers; and only then, if no two of their numbers are closer than the tolerance. |
| JsonCompare.IntegersAreSpaced | firmware/src/cJSON.c:484-487 | Integers are such numbers. |
| JsonCompare.DistinctCompareMeans | firmware/src/cJSON.c:2865-2988 | With keys that differ before any NUL, comparing equal is having the same meaning. |
| JsonCompare.CopyComparesEqual | firmware/src/cJSON.c:2589-2988 | A tree compares equal to its recursive copy when repeated keys agree, so always when keys are distinct, fractions included; and, its numbers being spaced, only then. |
| JsonCompare.CompareWithCopy | firmware/src/cJSON.c:2589-2988 | The same on the nodes: copying an item with all below it and comparing the two. |
| JsonCompare.CompareIsSymmetric | firmware/src/cJSON.c:2865-2988 | Comparison is symmetric on all trees, whatever their keys and numbers. |
| JsonCompare.CompareIsTransitive | firmware/src/cJSON.c:2865-2988 | Comparison is transitive on the trees over a set of numbers if and only if closeness within the tolerance is transitive on the set; repeated keys never get in the way. |
| JsonCompare.SpacedAreChained | firmware/src/cJSON.c:484-487 | Numbers farther apart than the tolerance, such as integers, are such a set. |
| JsonCompare.CompareLimits | firmware/src/cJSON.c:484-487 | Concrete trees: keys that differ only behind a NUL are one key and keep a tree from comparing equal to its copy; three numbers on which equality is not transitive; and numbers on either side of the tolerance of 1e-16. |
| JsonTree.BuiltSays | firmware/src/cJSON.c:1228-1619 | The tree the parser builds for a value says that value. |
| JsonTree.BuiltIsRounded | firmware/src/cJSON.c:332-344 | In every node of the tree built the int is the saturated double, but a true has 1, and numbers, texts and children are only where the type calls for them. |
| JsonTree.LinkSibling | firmware/src/cJSON.c:1401-1413 | One more tree at the end of a row of siblings keeps all trees, the first sibling knowing nothing of the last. |
| JsonTree.AttachBlank | firmware/src/cJSON.c:1401-1413 | An empty new node goes to the end of the chain before anything is read into it. |
| JsonTree.InsertTree | firmware/src/cJSON.c:2173-2200 | Inserting or appending an item that is itself a tree: the parent is then the root of the old tree with the whole new tree among its children, at the place; no node is lost, shared or moved elsewhere. |
| JsonTree.HeadsApart | firmware/src/cJSON.c:1836-1840 | No sibling is below another, so linking siblings leaves every tree as it is. |
| JsonTree.CopyNext | firmware/src/cJSON.c:2632-2655 | One turn: the copied child goes behind the children copied before, and the original still forms its tree. |
| JsonTree.DuplicateTree | firmware/src/cJSON.c:2589-2655 | The recursive copy of an item that is the root of a tree is the root of the same tree, its texts and keys cut at their first NUL, made of new nodes only, with the original untouched. |
| JsonTree.Duplicate | firmware/src/cJSON.c:2589-2666 | Copying with or without what is below the item, or nothing for no item. |
| JsonTree.CopyIsCut | firmware/src/cJSON.c:2606-2627 | The copied tree says the same value, cut at the first NUL of every text and key. |
| JsonTree.CopyIsTheTree | firmware/src/cJSON.c:2606-2627 | In all that its nodes hold the copied tree is the tree, exactly when no text and no key holds a NUL. |
| JsonList.GetArraySize | firmware/src/cJSON.c:1736-1757 | Walking the chain counts the items. |
| JsonList.GetArrayItem | firmware/src/cJSON.c:1759-1776 | Walking finds the item at the index, or nothing past the end. |
| JsonList.SuffixObject | firmware/src/cJSON.c:1836-1840 | Links two items both ways. |
| JsonList.AddItemToArray | firmware/src/cJSON.c:1864-1903 | Appending through the cached last item or by walking gives the same chain, the old items with the new one at the end, and the head then knows it. |
| JsonList.InsertFirst | firmware/src/cJSON.c:2189-2195 | An item put in front becomes the head and keeps the links and the cached tail right. |
| JsonList.InsertInside | firmware/src/cJSON.c:2189-2200 | An item put between two others keeps all links right. |
| JsonList.InsertItemInArray | firmware/src/cJSON.c:2173-2200 | Inserts at the place, appends past the end, does nothing for a negative place; links agree and the head knows the last item or nothing. |
| History.EvictLeaves | firmware/src/at_cmd_engine/terminal/terminal.c:313-345 | What eviction leaves is the longest suffix with a free slot and room for the new line. |
| History.RememberKeepsLongest | firmware/src/at_cmd_engine/terminal/terminal.c:296-392 | One entered line keeps the history the longest suffix that fits. |
| History.HistoryIsLongestSuffix | firmware/src/at_cmd_engine/terminal/terminal.c:296-392 | After any run of entered lines the history is exactly the longest suffix of the non-empty ones with at most 8 lines and 2048 bytes. |
| HistoryRing.LineInStream | firmware/src/at_cmd_engine/terminal/terminal.c:90-117 | The bytes of line k stand in the ring stream at its offset. |
| HistoryRing.SlotsApart | firmware/src/at_cmd_engine/terminal/terminal.c:296-392 | Two stored bytes less than 2048 apart never share a ring slot. |
| HistoryRing.LineHistory.EvictFirst | firmware/src/at_cmd_engine/terminal/terminal.c:313-345 | One turn of the eviction loop frees exactly the oldest line; the slot index is never -1. |
| HistoryRing.LineHistory.CopyIn | firmware/src/at_cmd_engine/terminal/terminal.c:347-372 | The copy into the ring, in two pieces when it wraps, stores the line and touches no byte of a kept line. |
| HistoryRing.LineHistory.Store | firmware/src/at_cmd_engine/terminal/terminal.c:296-392 | Storing a line gives the remembered list; used bytes plus the remaining count is always 2048. |
| HistoryRing.LineHistory.ReplaceCommandLine | firmware/src/at_cmd_engine/terminal/terminal.c:90-117 | Both pieces of a stored line come back byte for byte into the command buffer. |
| HistoryRing.LineHistory.KeyUp | firmware/src/at_cmd_engine/terminal/terminal.c:437-461 | Recalls the last line, then older ones, staying at the oldest; nothing when the history is empty. |
| HistoryRing.LineHistory.KeyDown | firmware/src/at_cmd_engine/terminal/terminal.c:473-490 | After an up key, recalls younger lines up to the last; otherwise nothing. |
| Ansi.StreamDecoder.EnterState | firmware/src/at_cmd_engine/terminal/ansi_decoder.c:37-64 | Entering a state clears what its entry actions clear. |
| Ansi.StreamDecoder.CsiCollect | firmware/src/at_cmd_engine/terminal/ansi_decoder.c:69-76 | Collects into the 16-byte buffer, silently dropping what does not fit. |
| Ansi.StreamDecoder.CsiAddParam | firmware/src/at_cmd_engine/terminal/ansi_decoder.c:81-88 | The same for the parameter buffer. |
| Ansi.StreamDecoder.EscapeParser | firmware/src/at_cmd_engine/terminal/ansi_decoder.c:102-259 | One byte inside a sequence moves the state table and says whether the byte is passed on. |
| Ansi.StreamDecoder.Decode | firmware/src/at_cmd_engine/terminal/ansi_decoder.c:281-406 | One byte of the stream: the new decoder state, and at most one byte stored, refused when there is no space. |
| Terminal.StepKeepsEditing | firmware/src/at_cmd_engine/terminal/terminal.c:198-505 | Every byte keeps: insert position at most length at most 512, a full line has the insert position at its end, no stored line is empty or 512 bytes long; only an end of line changes the history. |
| Terminal.AfterKeepsEditing | firmware/src/at_cmd_engine/terminal/terminal.c:162-505 | The same for new lines, echo changes and rewrites of the line between bytes. |
| Terminal.RunHistory | firmware/src/at_cmd_engine/terminal/terminal.c:198-505 | Over every run from an empty history, the history equals that of the lines entered, the longest suffix that fits, each shorter than the buffer. |
| Terminal.TypedLineIsEntered | firmware/src/at_cmd_engine/terminal/terminal.c:198-402 | On a new line, typing any displayable line and a line feed enters exactly that line and stores it. |
| Editor.TypingEdits | firmware/src/at_cmd_engine/terminal/terminal.c:222-428 | Any bytes without line feed and ESC, echo on or off, make of line and insert position what an edit written apart from the decoder makes of them: displayable bytes overwrite or append, 8 steps back and takes away at the end, 13 goes to the start, no other does anything, and none is taken at position 512. |
| Editor.BackspacesErase | firmware/src/at_cmd_engine/terminal/terminal.c:265-285 | Typing a text and then backspace k times leaves all but its last k characters. |
| Editor.EditedLineIsEntered | firmware/src/at_cmd_engine/terminal/terminal.c:287-402 | A line feed enters and remembers the edited line. |
| Editor.EmptyLineStays | firmware/src/at_cmd_engine/terminal/terminal.c:287-404 | A line feed on an empty line enters nothing. |
| Editor.EscIsAwaited | firmware/src/at_cmd_engine/terminal/ansi_decoder.c:102-110 | An ESC itself does nothing to the line. |
| Editor.EscThenText | firmware/src/at_cmd_engine/terminal/ansi_decoder.c:102-130 | Behind ESC a displayable byte but `[` and `O` is typed as if the ESC had not come. |
| Editor.EscOThenByte | firmware/src/at_cmd_engine/terminal/ansi_decoder.c:237-259 | ESC O and one more displayable byte are swallowed. |
| Editor.ControlInside | firmware/src/at_cmd_engine/terminal/ansi_decoder.c:102-118 | A control byte inside a sequence does what it does outside, and the sequence goes on behind it. |
| Editor.OthersInside | firmware/src/at_cmd_engine/terminal/ansi_decoder.c:102-259 | Other bytes that belong to no sequence are swallowed inside one. |
| Terminal.ControlSequence | firmware/src/at_cmd_engine/terminal/ansi_decoder.c:37-337 | For ESC [ with any number of parameter bytes, intermediate bytes and a final byte (section 5.4 of ECMA-48): nothing is stored in the line and the decoder is inside the sequence until exactly the final byte, both buffers bounded; the key acts if and only if the parameters are legal. |
| Terminal.BodyState | firmware/src/at_cmd_engine/terminal/ansi_decoder.c:143-236 | The state after parameters and intermediates is the ignoring one exactly when a parameter is out of place. |
| Sequences.SequenceIsKept | firmware/src/at_cmd_engine/terminal/ansi_decoder.c:37-337 | A sequence with regular parameters: nothing is decided before its final byte; then the decoder has the final byte, in one buffer the first parameter digit and the intermediate bytes, in the other the rest of the parameters, of each the first 16, and decides for a key by the final byte. |
| Sequences.IgnoringBegins | firmware/src/at_cmd_engine/terminal/ansi_decoder.c:143-236 | A colon, a private byte that is not the first, or a parameter behind an intermediate byte makes a sequence ignored. |
| Sequences.IgnoringEnds | firmware/src/at_cmd_engine/terminal/ansi_decoder.c:218-259 | An ignored sequence goes on to its final byte, and nothing is decided. |
| Sequences.SingleShift | firmware/src/at_cmd_engine/terminal/ansi_decoder.c:237-337 | ESC O and a byte are decided as a sequence of their own, and the byte is kept. |
| Terminal.F1IsStale | firmware/src/at_cmd_engine/terminal/ansi_decoder.c:281-325 | ESC [ 1 ~ is decided to be the F1 key exactly when an earlier sequence has left a 1 in the parameter buffer. |
| Terminal.SecondDigitStays | firmware/src/at_cmd_engine/terminal/ansi_decoder.c:143-196 | A sequence of two digits leaves its second digit there: the first goes to the other buffer. |
| Terminal.UpKeyRecalls | firmware/src/at_cmd_engine/terminal/terminal.c:430-464 | The bytes of the up key recall the next older line and put the insert position behind it. |
| Terminal.DownKeyRecalls | firmware/src/at_cmd_engine/terminal/terminal.c:466-493 | The bytes of the down key recall the next younger line, or do nothing before any up key. |
| Terminal.KeysWalk | firmware/src/at_cmd_engine/terminal/terminal.c:430-493 | On a new line with echo on, any mixture of up and down keys shows, byte for byte, the stored line a walk over the history arrives at. |
| Terminal.DownUndoesUp | firmware/src/at_cmd_engine/terminal/terminal.c:437-490 | Going up a times, which stops at the oldest line, and down b times arrives b lines below, at most at the last. |
| CommandDecoder.Decoder.ProcessByte | firmware/src/at_cmd_engine/terminal/terminal.c:222-505 | The object refines one step of the screen machine: same text, positions, history and event; what it echoes is that of the step, and the time of a solitary ESC is noted. |
| CommandDecoder.Decoder.Process | firmware/src/at_cmd_engine/terminal/terminal.c:192-505 | A line on which an ESC has waited more than 250 ms is given up first; then the loop refines the run of steps, with all it echoes, notes the time of an ESC that came last, and stops at an end of line or at a byte there is no space for. |
| CommandDecoder.Decoder.Terminate | firmware/src/at_cmd_engine/terminal/terminal.c:287-294 | The terminator is stored inside the buffer, at the end of the line. |
| CommandDecoder.Decoder.StoreLine | firmware/src/at_cmd_engine/terminal/terminal.c:296-392 | Storing the entered line is remembering it. |
| CommandDecoder.Decoder.DeleteBack | firmware/src/at_cmd_engine/terminal/terminal.c:265-285 | Backspace moves the insert position back one place, shortens the line only when it stood at its end, and sends what rubs the place out. |
| CommandDecoder.Decoder.RecallOlder | firmware/src/at_cmd_engine/terminal/terminal.c:430-464 | The up key replaces the line by the recalled one and puts the insert position behind it. |
| CommandDecoder.Decoder.RecallYounger | firmware/src/at_cmd_engine/terminal/terminal.c:466-493 | The down key does so with the younger line, or nothing. |
| CommandDecoder.Decoder.StartNewLine | firmware/src/at_cmd_engine/terminal/terminal.c:162-187 | A new line is empty, unsets the recall position and the ESC time, and shows the prompt. |
| CommandDecoder.Decoder.GiveUp | firmware/src/at_cmd_engine/terminal/terminal.c:203-212 | The timeout, on a clock of 32 bits: exactly when echo is on and an ESC has waited too long, the line is cleared and a new one started. |
| CommandDecoder.LapsedIs | firmware/src/at_cmd_engine/terminal/terminal.c:203-212 | On a clock that does not wrap: a line is given up exactly when echo is on and the ESC came more than 250 ms ago, across any wrap of the 32 bits. |
| Display.RowIsTheLine | firmware/src/at_cmd_engine/terminal/terminal.c:222-505 | Whatever is typed on a new line short of ending it, returns and line feeds included, a terminal as ECMA-48 has it shows the prompt and exactly the line the editor holds, the cursor at its end, if and only if a count over the bytes ends at 1: it starts at 1, a return sets it to 0, a line feed on an empty line adds 1, a history key that redraws sets it to 1. |
| Display.RunTracks | firmware/src/at_cmd_engine/terminal/terminal.c:222-505 | The reason: after any run the cursor is that count of columns ahead of the insert position. |
| Display.RunShows | firmware/src/at_cmd_engine/terminal/terminal.c:222-505 | So without returns and line feeds the user always sees the line. |
| Display.ActTracks | firmware/src/at_cmd_engine/terminal/terminal.c:265-493 | What backspace, return, line feed and the history keys send moves the cursor with the insert position, up to that count. |
| Display.NewLineShows | firmware/src/at_cmd_engine/terminal/terminal.c:162-212 | A new line shows, also one started because an ESC has lapsed. |
| Display.ReturnMisleads | firmware/src/at_cmd_engine/terminal/terminal.c:406-415 | After a carriage return the two part: `a`, return, `b` shows `ba` for the line `b`. |
| Display.LineFeedMisleads | firmware/src/at_cmd_engine/terminal/terminal.c:287-404 | A line feed on an empty line puts a second prompt behind a blank; a return before it sets that right. |
| Console.BytesServed | firmware/src/at_cmd_engine/at_cmds/at_cmds.c:161-199 | What the main loop makes of bytes of which at most the last raises an event. |
| Console.LinesAreEntered | firmware/src/at_cmd_engine/at_cmds/at_cmds.c:161-199 | Whatever displayable lines are typed one after the other, ended by line feed or return and line feed, exactly they are handed to the command parser, whatever commands do to the echo; and the history is that of them. |
| Console.HistoryServed | firmware/src/at_cmd_engine/at_cmds/at_cmds.c:161-199 | In every run of the main loop the history is the longest suffix of the lines entered that fits. |
| Console.MainLoop.Update | firmware/src/at_cmd_engine/at_cmds/at_cmds.c:143-203 | One call takes at least one waiting byte, acts on the event, and leaves screen and lines those of all inputs so far, over any number of calls. |
| Console.MainLoop.Follow | firmware/src/at_cmd_engine/at_cmds/at_cmds.c:163-196 | An error starts a new line; an entered line goes to the parser, and then a new line starts. |
| Console.PortionsDoNotMatter | firmware/src/at_cmd_engine/at_cmds/at_cmds.c:143-203 | However bytes arrive and however often the loop runs, once nothing waits and if no ESC has lapsed, screen and lines are those of the bytes one after the other. |
| AtParser.HexStringToBytes | firmware/src/at_cmd_engine/at_cmds/at_cmd_parser.c:95-115 | Converting pairs of digits in place, at or before the digits, leaves exactly the bytes of the original digits and all other memory as it was. |
| AtParser.BytePair | firmware/src/at_cmd_engine/at_cmds/at_cmd_parser.c:108-109 | The byte is begun over the first digit before the second digit is read, and still comes out right. |
| AtParser.TranslateParam | firmware/src/at_cmd_engine/at_cmds/at_cmd_parser.c:259-301 | A finished parameter of less than 65536 characters is translated exactly when it means something; memory before it and behind its terminator is untouched, and the entry stands for the value. |
| AtParser.ReadUnknown | firmware/src/at_cmd_engine/at_cmds/at_cmd_parser.c:354-397 | First characters: blanks skipped, string openings, integer starts, all else refused. |
| AtParser.ReadInteger | firmware/src/at_cmd_engine/at_cmds/at_cmd_parser.c:401-430 | Integer characters, with 0x opening hexadecimal digits and no comma directly behind it. |
| AtParser.FindControl | firmware/src/at_cmd_engine/at_cmds/at_cmd_parser.c:478-495 | The search loop finds the control character a letter stands for, or that it stands for none. |
| AtParser.ReadAscii | firmware/src/at_cmd_engine/at_cmds/at_cmd_parser.c:432-504 | Characters of a quoted string and its escapes. |
| AtParser.ReadHex | firmware/src/at_cmd_engine/at_cmds/at_cmd_parser.c:506-534 | Characters of a bracketed string; letters beyond F are let through. |
| AtParser.EndParam | firmware/src/at_cmd_engine/at_cmds/at_cmd_parser.c:332-353 | A comma or the end of the text ends a parameter: its value is entered, earlier entries stand, or the whole text is refused. |
| AtParser.TokenTaken | firmware/src/at_cmd_engine/at_cmds/at_cmd_parser.c:399-544 | A stored or skipped token keeps all decoded parameters and the unread text. |
| AtParser.CommaTaken | firmware/src/at_cmd_engine/at_cmds/at_cmd_parser.c:332-353 | A comma ends a parameter; earlier decoded strings are not overwritten. |
| AtParser.ParseCommandParams | firmware/src/at_cmd_engine/at_cmds/at_cmd_parser.c:306-556 | The in-place parser, writing into a list with room for every entry that is begun, refines the out-of-place one: it fails on the same texts, and otherwise its entries stand, in the final memory, for exactly the parameters of the original text. |
| AtParameters.EntriesAreParameters | firmware/src/at_cmd_engine/at_cmds/at_cmd_parser.c:306-353 | A text begins at most one entry more than it has commas, and an accepted one as many as it has parameters: the condition under which 32 entries are enough. |
| AtParameters.HexBytesAt | firmware/src/at_cmd_engine/at_cmds/at_cmd_parser.c:95-115 | Byte k of a hexadecimal string is the pair of digits 2k and 2k+1. |
| AtPrinter.ByteToStr | firmware/src/at_cmd_engine/at_cmds/at_cmd_stdio.c:54-79 | Two upper-case digits behind what is there. |
| AtPrinter.PrintStringHex | firmware/src/at_cmd_engine/at_cmds/at_cmd_stdio.c:297-316 | The bracketed form, in a buffer that holds exactly it. |
| AtPrinter.OutputFits | firmware/src/at_cmd_engine/include/conf_at_cmd_defaults.h:37-38 | What fits the 1500 bytes of the source: in hexadecimal exactly 749 bytes, escaped any 749. |
| AtPrinter.SafeChoice | firmware/src/at_cmd_engine/at_cmds/at_cmd_stdio.c:321-371 | The safe printer quotes exactly the non-empty strings of visible bytes, 0, 7 to 13 and 27, unescaped exactly when all is visible, and puts everything else into brackets. |
| AtPrinter.NibbleIs | firmware/src/at_cmd_engine/at_cmds/at_cmd_stdio.c:54-79 | Hexadecimal digits are upper-case. |
| AtPrinter.EscapeIs | firmware/src/at_cmd_engine/at_cmds/at_cmd_stdio.c:240-286 | The form of every byte between quotes, by a letter or as it is, and none for those that have none. |
| AtPrinter.PutEscape | firmware/src/at_cmd_engine/at_cmds/at_cmd_stdio.c:240-286 | One character takes at most two places; one without a form takes none. |
| AtPrinter.PrintStringASCIIEsc | firmware/src/at_cmd_engine/at_cmds/at_cmd_stdio.c:230-291 | The quoted and escaped form, in a buffer that holds exactly it. |
| AtPrinter.PrintStringSafe | firmware/src/at_cmd_engine/at_cmds/at_cmd_stdio.c:321-371 | The form chosen by the scan: hexadecimal if some byte has no other form, escaped if some byte needs it, plain otherwise; only the first two need the buffer. |
| AtRoundTrip.EscapedReadsBack | firmware/src/at_cmd_engine/at_cmds/at_cmd_parser.c:432-504 | For every string the parser reads the escaped form as the bytes that have a form, and refuses it when the string holds a NUL, with anything after a comma. |
| AtRoundTrip.EscapedRoundTrip | firmware/src/at_cmd_engine/at_cmds/at_cmd_stdio.c:230-291 | The escaped form parses back to the string if and only if every byte is 0x20 to 0x7e, 0x07 to 0x0d or 0x1b. |
| AtRoundTrip.HexReadsBack | firmware/src/at_cmd_engine/at_cmds/at_cmd_parser.c:506-534 | The bracketed form of any bytes is read back, with anything after a comma. |
| AtRoundTrip.HexRoundTrip | firmware/src/at_cmd_engine/at_cmds/at_cmd_stdio.c:297-316 | The bracketed form of any byte string parses back to it. |
| AtRoundTrip.QuoteCosts | firmware/src/at_cmd_engine/at_cmds/at_cmd_parser.c:432-504 | An open string gains fewer bytes than a text ending in a quote has: the reason an unescaped quote or backslash cannot come back. |
| AtRoundTrip.PlainRoundTrip | firmware/src/at_cmd_engine/at_cmds/at_cmd_stdio.c:366-370 | The plain quoted form of displayable characters parses back if and only if it holds no quote and no backslash. |
| AtRoundTrip.SafeRoundTrip | firmware/src/at_cmd_engine/at_cmds/at_cmd_stdio.c:321-371 | What the safe printer prints reads back except, exactly, with a NUL among text it escapes or a quote or backslash among text it does not. |
| AtRoundTrip.IntegerReadsBack | firmware/src/at_cmd_engine/at_cmds/at_cmd_parser.c:401-430 | The decimal text of every value from -2^31 to 2^32-1 parses to it. |
| AtRoundTrip.ListRoundTrip | firmware/src/at_cmd_engine/at_cmds/at_cmd_parser.c:306-556 | A comma-joined list of printed integers, strings and byte strings parses to the list. |
| AtGrammar.ParsesTheGrammar | firmware/src/at_cmd_engine/at_cmds/at_cmd_parser.c:306-556 | The parser accepts exactly the texts of a grammar of comma-separated integers, hexadecimal integers, quoted and bracketed strings with blanks where they may stand, only the last string left open, and reads them as what they stand for. |
| AtGrammar.LegalScans | firmware/src/at_cmd_engine/at_cmds/at_cmd_parser.c:306-556 | Every list of the grammar is accepted, with its parameters in order. |
| AtGrammar.TextDerives | firmware/src/at_cmd_engine/at_cmds/at_cmd_parser.c:306-556 | Every text that is accepted is one of the grammar. |
| AtGrammar.LeadingChars | firmware/src/at_cmd_engine/at_cmds/at_cmd_parser.c:432-504 | A quoted string goes on over its characters and escapes as far as there are any. |
| AtGrammar.IntegerIsMeant | firmware/src/at_cmd_engine/at_cmds/at_cmd_parser.c:259-280 | The number of an integer parameter is what its digits mean by their places: in base 16 behind 0x, in base 8 from a 0 on as far as that goes, else in base 10, held at 2^32 - 1, and at -2^31 behind a minus sign. |
| AtIntegers.HexadecimalIs | firmware/src/at_cmd_engine/at_cmds/at_cmd_parser.c:259-280 | The same of hexadecimal digits of either case. |
| AtIntegers.DecimalIs | firmware/src/at_cmd_engine/at_cmds/at_cmd_parser.c:259-280 | The same of decimal and octal digits, with a sign or without. |
| AtGrammar.BasesReadBack | firmware/src/at_cmd_engine/at_cmds/at_cmd_parser.c:259-430 | Every number up to 2^32 - 1 comes back from its hexadecimal digits in either case behind any zeros, and from its octal digits behind a zero; larger ones as the limit. |
| AtRoundTrip.UnterminatedIsAccepted | firmware/src/at_cmd_engine/at_cmds/at_cmd_parser.c:546-555 | A quoted string whose closing quote is missing at the end of the text is accepted as if it were there. |
| AtGrammar.LettersReadAsZero | firmware/src/at_cmd_engine/at_cmds/at_cmd_parser.c:70-115 | Any even number of letters and digits between brackets, closed or not, is accepted; letters beyond F count as the digit 0. |
| AtGrammar.BlanksAndGapsAreRefused | firmware/src/at_cmd_engine/at_cmds/at_cmd_parser.c:332-423 | Behind any complete parameters, a blank behind an integer and an empty parameter refuse the whole text. |
| AtRoundTrip.LoneMinusIsZero | firmware/src/at_cmd_engine/at_cmds/at_cmd_parser.c:376-430 | A minus sign with no digits is accepted as 0. |
| AtCommandLine.SplitCommandLine | firmware/src/at_cmd_engine/at_cmds/at_cmd_parser.c:561-620 | The line is split in place at the first equals sign behind AT, as the counting loop does it. |
| AtCommandLine.RequestIs | firmware/src/at_cmd_engine/at_cmds/at_cmd_parser.c:627-657 | Help is asked for exactly when a slash and a question mark stand at the end of the name and nowhere else in it, a value exactly when they stand nowhere and the name ends in a question mark and is more than that. |
| AtCommandLine.TakeRequest | firmware/src/at_cmd_engine/at_cmds/at_cmd_parser.c:627-657 | The search finds what is asked for and takes the mark off the name in place. |
| AtCommandLine.ParseCommandLine | firmware/src/at_cmd_engine/at_cmds/at_cmd_parser.c:561-740 | What is done about a known command, by its marks, arguments and length, with the whole buffer afterwards and the arguments where the parser finds them. |
| AtCommandLine.Measure | firmware/src/at_cmd_engine/at_cmds/at_cmd_parser.c:703-722 | The end of the arguments is searched for in what is left of the limit. |
| AtCommandLine.ArgumentsSplit | firmware/src/at_cmd_engine/at_cmds/at_cmd_parser.c:561-620 | A line with an equals sign behind AT splits into the name and everything behind the first one. |
| AtCommandLine.ActionIs | firmware/src/at_cmd_engine/at_cmds/at_cmd_parser.c:561-740 | What is done about any line that begins with AT, said of its bytes: help, a value, the command alone, the command with its arguments, or nothing for a line of 511 characters. |
| AtCommandLine.OtherLines | firmware/src/at_cmd_engine/at_cmds/at_cmd_parser.c:573-588 | A line is refused exactly when it does not begin with AT, and answered exactly when it is AT alone. |
| AtCommandLine.TypedListIsParsed | firmware/src/at_cmd_engine/at_cmds/at_cmd_parser.c:561-740 | From keyboard to parser: typing AT, a name, an equals sign and any comma-joined list of printed integers, strings and byte strings, then a line feed, enters a line that splits into the name and exactly that list, which reads back with one entry for each parameter; the command is given it exactly when the name asks for neither help nor a value and the line is not 511 characters long; such a line is refused without a report. |
| Inet.CountCharacters | firmware/src/at_cmd_engine/at_cmds/at_cmd_inet.c:48-58 | The scan counts characters before a dot or the terminator, at most four. |
| Inet.ReadNumber | firmware/src/at_cmd_engine/at_cmds/at_cmd_inet.c:48-95 | One number: one to three digits, no leading zero, at most 255. |
| Inet.InetAddr | firmware/src/at_cmd_engine/at_cmds/at_cmd_inet.c:34-110 | The nested loops compute the address of the text, 0 for any error. |
| Inet.TextReadsBack | firmware/src/at_cmd_engine/at_cmds/at_cmd_inet.c:34-171 | Parsing the printed form of any 32-bit address gives it back. |
| Inet.ReadTextIsCanonical | firmware/src/at_cmd_engine/at_cmds/at_cmd_inet.c:34-110 | Whenever a text parses to a non-zero address, printing that address reproduces the text to the letter. |
| Inet.CountOff | firmware/src/at_cmd_engine/at_cmds/at_cmd_inet.c:136-141 | The subtraction loop yields quotient digit and remainder. |
| Inet.WriteNumber | firmware/src/at_cmd_engine/at_cmds/at_cmd_inet.c:125-156 | A byte is written in decimal without leading zeros. |
| Inet.InetNtop | firmware/src/at_cmd_engine/at_cmds/at_cmd_inet.c:112-171 | The dotted text and its terminator are written exactly when the buffer has 16 bytes, and never need more. |
| Crc.ShiftXor | firmware/src/at_cmd_engine/at_cmds/at_cmd_xmodem.c:122-133 | One turn of the CRC loop is linear over exclusive or. |
| Crc.ShiftsZero | firmware/src/at_cmd_engine/at_cmds/at_cmd_xmodem.c:122-133 | Any number of turns loses nothing: only 0 becomes 0. |
| Crc.FeedWord | firmware/src/at_cmd_engine/at_cmds/at_cmd_xmodem.c:116-134 | Feeding n bits one by one is adding the word that begins with them and shifting n times. |
| Crc.FeedByte | firmware/src/at_cmd_engine/at_cmds/at_cmd_xmodem.c:118-134 | Adding a byte to the top and shifting eight times is feeding its bits. |
| Crc.LongDivision | firmware/src/at_cmd_engine/at_cmds/at_cmd_xmodem.c:116-134 | The loop is a long division: shifted register plus message equals quotient times generator plus new register, over GF(2). |
| Crc.DivisionIsUnique | firmware/src/at_cmd_engine/at_cmds/at_cmd_xmodem.c:108-143 | Such a division has one quotient and one remainder. |
| Crc.CrcIsTheRemainder | firmware/src/at_cmd_engine/at_cmds/at_cmd_xmodem.c:108-143 | The CRC of a message is exactly the remainder of message(x) x^16 modulo x^16 + x^12 + x^5 + 1: a word is the CRC if and only if some quotient leaves it. |
| Crc.AcceptedLeavesZero | firmware/src/at_cmd_engine/at_cmds/at_cmd_xmodem.c:136-142 | The comparison holds if and only if data and CRC together bring the register to 0. |
| Crc.CancelledByItself | firmware/src/at_cmd_engine/at_cmds/at_cmd_xmodem.c:116-134 | At most 16 bits bring a register to 0 only by being its own bits. |
| Crc.BurstsAreDetected | firmware/src/at_cmd_engine/at_cmds/at_cmd_xmodem.c:108-143 | Two different frames that agree outside 16 adjacent bits are never both accepted. |
| Crc.OddErrorsAreDetected | firmware/src/at_cmd_engine/at_cmds/at_cmd_xmodem.c:108-143 | Accepted frames have an even number of ones, so an odd number of flipped bits is always detected. |
| Crc.DecodePacketCRC | firmware/src/at_cmd_engine/at_cmds/at_cmd_xmodem.c:108-143 | The two loops accept a block exactly when its data and the two bytes behind it match. |
| Xmodem.RunConcat | firmware/src/at_cmd_engine/at_cmds/at_cmd_xmodem.c:215-392 | Running two portions one after the other is running them at once. |
| Xmodem.DrainedTakesIntake | firmware/src/at_cmd_engine/at_cmds/at_cmd_xmodem.c:225-297 | Whoever offers the bytes, a receiver that stops taking has taken the same number of them. |
| Xmodem.FrameRuns | firmware/src/at_cmd_engine/at_cmds/at_cmd_xmodem.c:280-369 | Between frames, SOH and 132 bytes are judged at the last byte. |
| Xmodem.PortionsDoNotMatter | firmware/src/at_cmd_engine/at_cmds/at_cmd_xmodem.c:215-392 | Once a stream is drained, state and all events are those of its frames. |
| Xmodem.EveryRunAccounts | firmware/src/at_cmd_engine/at_cmds/at_cmd_xmodem.c:215-392 | For every stream: delivered numbers are consecutive modulo 256 from the expected one, ACKs equal delivered blocks plus the end of text, the file length is 128 per block. |
| Xmodem.DeliveredStand | firmware/src/at_cmd_engine/at_cmds/at_cmd_xmodem.c:299-369 | Every delivered block stands in the stream in a frame with its number, its complement and a correct CRC, one behind the other. |
| Xmodem.Session | firmware/src/at_cmd_engine/at_cmds/at_cmd_xmodem.c:178-392 | A whole session at once: the three above together, numbers 1, 2, 3, ... modulo 256. |
| Xmodem.OutOfTurn | firmware/src/at_cmd_engine/at_cmds/at_cmd_xmodem.c:88-105 | A block with another number than the expected one is never delivered: an older one is dropped without a reply, a newer one gets a NAK, and the session goes on as without it. |
| Xmodem.GarbledRejected | firmware/src/at_cmd_engine/at_cmds/at_cmd_xmodem.c:108-143 | A copy of a block body with a burst of at most 16 changed bits or an odd number of them is refused. |
| Xmodem.FrameIsAnswered | firmware/src/at_cmd_engine/at_cmds/at_cmd_xmodem.c:88-369 | Any 132 bytes behind SOH: delivery and ACK if and only if the number is the expected one, the complement fits and the CRC matches; silence if and only if the number is smaller; exactly one NAK and the session as it was otherwise. |
| Xmodem.OtherFrameTypes | firmware/src/at_cmd_engine/at_cmds/at_cmd_xmodem.c:229-391 | Between frames an EOT ends the file with an ACK, a NUL is skipped, and any other byte than SOH ends the hearing. |
| Xmodem.FileArrives | firmware/src/at_cmd_engine/at_cmds/at_cmd_xmodem.c:215-392 | Whatever the line does to number and complement of copies, and to bodies by bursts of at most 16 bits or odd numbers of bits, the whole file is delivered, each block once and in order; each spoiled copy gets one NAK, but none when its number reads smaller. |
| Xmodem.ReceptionIsTheFile | firmware/src/at_cmd_engine/at_cmds/at_cmd_xmodem.c:337-354 | The blocks of that reception are the blocks of the file. |
| XmodemReceiver.Uart.ReadGetBuffer | firmware/src/at_cmd_engine/at_cmds/at_cmd_xmodem.c:287-297 | Any number of waiting bytes, also none, moves into the buffer in order. |
| XmodemReceiver.Receiver.Start | firmware/src/at_cmd_engine/at_cmds/at_cmd_xmodem.c:178-202 | Starting begins a session; starting twice changes nothing. |
| XmodemReceiver.Receiver.Stop | firmware/src/at_cmd_engine/at_cmds/at_cmd_xmodem.c:204-213 | Stopping tells the handler and leaves the rest. |
| XmodemReceiver.Receiver.DecodePacketHdr | firmware/src/at_cmd_engine/at_cmds/at_cmd_xmodem.c:88-105 | Older numbers are old blocks; newer ones or a wrong complement are invalid. |
| XmodemReceiver.Receiver.DecodeFrame | firmware/src/at_cmd_engine/at_cmds/at_cmd_xmodem.c:299-366 | A full buffer is delivered and acknowledged, refused, or silently dropped as an old block. |
| XmodemReceiver.Receiver.ReceiveFrame | firmware/src/at_cmd_engine/at_cmds/at_cmd_xmodem.c:280-369 | Reading on refines the run of the bytes taken, whatever portions come. |
| XmodemReceiver.Receiver.TakeFrameType | firmware/src/at_cmd_engine/at_cmds/at_cmd_xmodem.c:229-258 | The first byte of a frame, or the end of text with its ACK and stop. |
| XmodemReceiver.Receiver.Invite | firmware/src/at_cmd_engine/at_cmds/at_cmd_xmodem.c:259-278 | An invitation only before the first byte, and only after more than three seconds. |
| XmodemReceiver.Receiver.Take | firmware/src/at_cmd_engine/at_cmds/at_cmd_xmodem.c:215-392 | What is read in one call: the run of exactly the bytes taken, each wanted when taken, or only an invitation. |
| XmodemReceiver.Receiver.Process | firmware/src/at_cmd_engine/at_cmds/at_cmd_xmodem.c:215-392 | One call refines the run of the bytes it takes and leaves a session a session: over any number of calls, whatever portions they find, state and events but for invitations are those of all bytes taken since the start. |
| XmodemReceiver.Receiver.SessionIsItsFrames | firmware/src/at_cmd_engine/at_cmds/at_cmd_xmodem.c:178-392 | Once drained, over any number of calls, what has left the receiver is what the frames of the stream say, and the blocks are numbered 1, 2, 3, ... modulo 256 and stand in it one behind the other. |
| Base64.EncodedDecodes | firmware/src/at_cmd_engine/at_cmds/at_cmd_pkcs.c:219-262 | The register loop gives back any bytes from their base64 text with zero, one or two `=` (section 4 of RFC 4648), with one extra byte for the first `=`. |
| Base64.BlanksDoNotMatter | firmware/src/at_cmd_engine/at_cmds/at_cmd_pkcs.c:223-229 | Spaces, tabs and line ends between characters change nothing. |
| Base64.SpreadDecodes | firmware/src/at_cmd_engine/at_cmds/at_cmd_pkcs.c:219-262 | Any spreading of the encoding of any bytes decodes to those bytes. |
| Base64.InvalidExactly | firmware/src/at_cmd_engine/at_cmds/at_cmd_pkcs.c:55-75 | An encoding is refused exactly for a character from `:` to `@` or from `{` on, in front of all that ends it. |
| Pem.FirstMarkerEnds | firmware/src/at_cmd_engine/at_cmds/at_cmd_pkcs.c:176-198 | With or without a label given, the first marker of a well-formed text is passed. |
| Pem.BodyFound | firmware/src/at_cmd_engine/at_cmds/at_cmd_pkcs.c:200-218 | Blanks and line ends behind the marker are skipped without losing a character of the encoding. |
| Pem.LengthWraps | firmware/src/at_cmd_engine/at_cmds/at_cmd_pkcs.c:219-291 | The reported length is more than what was written, and then 2^32 - 1, exactly when the first character of the encoding that is not blank is `=`. |
| Pem.PemExactly | firmware/src/at_cmd_engine/at_cmds/at_cmd_pkcs.c:167-291 | A text is converted exactly when dashes follow the first 11 bytes and the label, then a line end behind spaces and tabs only, an encoding, and dashes again at least 9 bytes and the label behind its end; everything else is refused. |
| Pem.ReportedExactly | firmware/src/at_cmd_engine/at_cmds/at_cmd_pkcs.c:167-291 | A refused text is reported as 0 bytes, an accepted one as the bytes but for one where there is padding. |
| Pem.PemRoundTrip | firmware/src/at_cmd_engine/at_cmds/at_cmd_pkcs.c:167-291 | The PEM text (section 3 of RFC 7468) of any bytes, with any line breaks or blanks, converts to exactly those bytes and their count. |
| PemDecoder.RegisterShifts | firmware/src/at_cmd_engine/at_cmds/at_cmd_pkcs.c:246-254 | The 32-bit register holds the waiting bits at its low end; what has overflowed above never matters. |
| PemDecoder.FindBody | firmware/src/at_cmd_engine/at_cmds/at_cmd_pkcs.c:176-218 | The scanning loops find where the encoding begins. |
| PemDecoder.ShiftIn | firmware/src/at_cmd_engine/at_cmds/at_cmd_pkcs.c:246-254 | Six bits go in, and a byte comes out when eight are there. |
| PemDecoder.DecodeBody | firmware/src/at_cmd_engine/at_cmds/at_cmd_pkcs.c:219-262 | The loop decodes into the front of the buffer it is reading without touching unread text. |
| PemDecoder.PemToDer | firmware/src/at_cmd_engine/at_cmds/at_cmd_pkcs.c:167-291 | The whole conversion, in place as its caller uses it: written bytes and reported length are those of the original text. |
| Base64.Letter | firmware/src/at_cmd_engine/at_cmds/at_cmd_pkcs.c:55-75 | Every one of the 64 characters has its own index, and is neither blank nor a marker. |
| Der.DecodeTag | firmware/src/at_cmd_engine/at_cmds/at_cmd_pkcs.c:97-135 | The header loop reads tag, length in short or long form (modulo 2^32), and the size, which wraps around as an int. |
| Der.ParseRsaPrivateKey | firmware/src/at_cmd_engine/at_cmds/at_cmd_pkcs.c:314-390 | The walk fills the parts with the first nine integers of the sequence, signs dropped, and clears them on refusal. |
| Der.ParsePrivateKey | firmware/src/at_cmd_engine/at_cmds/at_cmd_pkcs.c:392-471 | Through the envelope the result is that of the key inside, and the parts are cleared on refusal. |
| DerGrammar.HeaderIs | firmware/src/at_cmd_engine/at_cmds/at_cmd_pkcs.c:97-135 | The header loop finds exactly the tag, the contents and the length that stand there, the length modulo 2^32. |
| DerGrammar.EnvelopeExactly | firmware/src/at_cmd_engine/at_cmds/at_cmd_pkcs.c:392-471 | The key of an envelope is found if and only if, on the bytes, a sequence holds an integer, a sequence whose first element holds 2A 86 48 86 F7 0D 01 01 01, and an octet string; any other identifier or tag is refused. |
| DerGrammar.KeyExactly | firmware/src/at_cmd_engine/at_cmds/at_cmd_pkcs.c:314-390 | A key is read if and only if it is a sequence no longer than announced; its integers are taken in order and other elements passed over. |
| DerGrammar.NumberIsTheContents | firmware/src/at_cmd_engine/at_cmds/at_cmd_pkcs.c:365-371 | Dropping the zero of the sign leaves the number as it is. |
| DerRoundTrip.ElementReadsBack | firmware/src/at_cmd_engine/at_cmds/at_cmd_pkcs.c:97-135 | The header of any element, its length short or long, is read back. |
| DerRoundTrip.IntegerReadsBack | firmware/src/at_cmd_engine/at_cmds/at_cmd_pkcs.c:364-382 | The slice of an encoded integer is exactly its minimal magnitude. |
| DerRoundTrip.KeyReadsBack | firmware/src/at_cmd_engine/at_cmds/at_cmd_pkcs.c:314-390 | Any non-empty list of non-negative integers in a sequence is consumed exactly and gives one slice each, in order (Appendix A.1.2 of RFC 8017). |
| DerRoundTrip.NineNumbersFillTheKey | firmware/src/at_cmd_engine/at_cmds/at_cmd_pkcs.c:314-390 | Nine integers fill the nine parts in order. |
| DerRoundTrip.EnvelopeReadsBack | firmware/src/at_cmd_engine/at_cmds/at_cmd_pkcs.c:392-471 | A PKCS #8 envelope (section 5 of RFC 5208) around anything gives back the octet string it holds. |
| DerRoundTrip.WrappedKeyReadsBack | firmware/src/at_cmd_engine/at_cmds/at_cmd_pkcs.c:392-471 | The wrapped key gives the same nine slices. |
## Left out

- JsonParser.ParseBuffer.ParseNumber: `strtod` is exact on reals here; rounding, overflow to infinity and the locale are not modelled.
- JsonParser.ParseBuffer.ParseWithOpts: the global error position is the end that is returned, and not a field of its own; a failed parse frees what it has built, which is not modelled.
- JsonParser.ParseBuffer.ParseString: a decoded string that contains a NUL keeps its later bytes, which copying and comparing do not see.
- JsonPrinter.PrintBuffer.Ensure: allocation never fails below INT_MAX; hooks and `realloc` are one allocate-and-copy.
- JsonPrinter.PrintBuffer.PrintPreallocated: the caller's buffer is an array of exactly the given length.
- JsonPrinter.PrintBuffer.PrintValue: raw and reference items and null string pointers are not modelled; fractions and integers of 16 digits and more are outside its precondition.
- JsonCompare.CompareTrees: for two trees that share nodes and both have repeated keys at odds only the case of one and the same root is stated; items without the text or key their type calls for and raw items are not modelled; keys are compared with regard to case.
- JsonTree.Duplicate: allocation does not fail, and items that are references or have constant keys are not modelled.
- JsonTree.InsertTree: the item is in no other list, as callers of the source must see to; detaching, replacing and minifying are left out because they do not keep the cached tail or the meaning.
- Console.MainLoop.Update: every command ends before the next byte is read; commands that stay pending, binary mode and the poll rate are not modelled.
- Display.RowIsTheLine: a row of a terminal that is as wide as the line.
- AtParser.TranslateParam: `strtol` and `strtoul` are the function of the C standard with 32-bit limits, not a loop.
- AtCommandLine.ParseCommandLine: the command table is not modelled: the name is taken to be a command's.
- Inet.InetAddr: the text is a value, and the bitwise or that packs the octets is addition, since they do not overlap.
- XmodemReceiver.Receiver.Process: only the CRC form that is compiled in is modelled; the handler is present and does not call back; the file length does not wrap at 2^32.
- Xmodem.Session: says what is delivered and replied, not that a transfer ends: an unknown frame type has no way out.
- Crc.BurstsAreDetected: bursts of at most 16 bits and odd numbers of flipped bits; pairs of distant flipped bits are not treated.
- PemDecoder.PemToDer: a read behind the terminator of a text shorter than its markers finds a NUL; labels are not checked, because the comparisons of the source refuse only texts that end there.
- Der.ParseRsaPrivateKey: elements that overrun their sequence make the source read outside it, so they are outside the precondition.
- The helpers that name the type of a PEM text and the length of a DER key, command dispatch, help texts, the configuration store, binary mode, TLS session counts, and the drivers around Wi-Fi, MQTT, sockets and the file system: thin or dependent on code not shown.
