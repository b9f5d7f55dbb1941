# Verification model of the sensor receiver

This project models the parts of the receiver daemon whose behaviour is hardest
to see from reading them, and proves what they are for.

* **cJSON** (`src/cJSON/cJSON.c`): the recursive parser and printer, the in-place
  minifier and the mutable tree. `JsonText`, `JsonPrint` and `JsonParse` say, as
  functions on values and texts, what is printed and what is parsed; `JsonMinify`
  what minifying leaves. `JsonRoundTrip`, `JsonTokens`, `JsonMinifyTwice` and
  `JsonStrings` prove the laws between them. What parsing makes of a minified text
  is proved by reading both texts side by side (`JsonTracks`), token by token
  (`JsonNumberEnds`, `JsonMinifyTokens`), value by value (`JsonMinifyParse`) and for
  whole texts, without comments (`JsonMinifyDocument`) and with (`JsonComments`).
  `JsonSyntax` is the grammar, as syntax trees with the text and the meaning of each;
  `JsonReadNumbers`, `JsonReadStrings`, `JsonGrammar` and `JsonAccepted` prove that the
  parser accepts exactly its texts, and `JsonLayout` that one of them, with the layout
  said there, is what is printed. `JsonUnescaper`, `JsonParser`,
  `JsonPrinter` and `JsonMinifier` are the pointer-walking code, proved to compute
  these functions within the buffers it allocates. `JsonNodes`, `JsonLists`,
  `JsonTrees`, `JsonEdits` and `JsonLifetimes` are the tree of doubly linked nodes
  with its editing, copying, referring and freeing.
* **CRC and packets** (`src/crc16.cpp`, `src/packets.cpp`): `Crc16` is the table
  code over a split register, proved equal to a bit-serial register;
  `Crc16Polynomial` relates it to polynomial division, `Crc16Detection` and
  `Crc16Undetected` prove what it detects and what not, `Packets` carries that over
  to accepted packets.
* **XBee** (`src/xbee.cpp`, `src/XBeeCommunicator.cpp`): `XBeeFrames` builds
  frames, `XBeeStream` finds them again in a stream of bytes, `XBeeTable` is the
  table of frame ids shared by three threads, as atomic steps.
* **RSCP** (`src/ServerComm.cpp`, `src/ServerComm.h`, `src/curl.cpp`): `RscpText`
  is the text of a message, `RscpLayout` where things stand in it, `Rscp` the message object with its cached rendering
  and receiving loop, `RscpSocket` what a socket delivers, `CurlBuffer` the
  growing buffer. `CStrings` holds the string copying they share with cJSON.
* **Sensors** (`src/sensor.cpp`, `src/packets.cpp`): which sensors are alive, and
  what the log says about it.

Specifications of linked structures name their nodes by a `Shape`: a node and the
shapes of its children. `Tree` says the links are those of the shape, `Owned` what
deleting would free, `Denotes` which JSON value the nodes hold. A `Pool` keeps the
set of nodes allocated and not yet freed; only a live node may be freed.

A `char` of C is a `char` whose code is the byte's unsigned value, and a C string is
the text before its terminator. Texts that are only read are values; buffers that
are written are arrays, so that every index is checked against the size allocated.

Where the code departs from what its comments or its standard promise, the code is
modelled and the departure is a theorem: `JsonStrings.UnescapeIsIdeal` and
`LetterIsLost` (a code unit after a lone high surrogate),
`JsonTokens.BlockEndsExactlyWhen` (a comment whose body starts with a slash),
`JsonAccepted.AcceptedExactlyWhen` (what is accepted beyond RFC 8259, the trees that
are `Allowed` and not `Strict`), `JsonMinifyTwice.IdempotentExactlyWhen` (minifying twice),
`JsonMinifyDocument.OutcomeIsKeptExactlyWhen` (minifying before parsing),
`XBeeStream.ReadExactlyWhen` (frames longer than the buffer), `Rscp.FitsExactlyWhen`
(the estimate for a rendering does not count the request) and `RscpText.LoadsBack`.
Each says exactly when the promise is kept.

A position in a text and one in its minified form match when the minifier's scanner,
having come to the first, has written what stands before the second. A number changes
when the characters kept behind it would continue it, a keyword when the characters
kept from its place on spell it and the text does not.

`dafny verify dfyconfig.toml` checks the whole project.

## Model

| member | source | states |
|---|---|---|
| `JsonRoundTrip.RoundTrip` | src/cJSON/cJSON.c:287-507 | for every value with int-range numbers and NUL-free strings and names, at any depth and in either form, parsing the printed text gives the value back and consumes exactly the printed text, with or without the demand that nothing follows |
| `JsonRoundTrip.PrintIsInjective` | src/cJSON/cJSON.c:302-507 | two values that print the same, in one form and at one depth, are the same value |
| `JsonRoundTrip.ValueParses` | src/cJSON/cJSON.c:287-317 | the same inside any surrounding text: where a printed value stands and is not continued by a number character, the parser reads that value and stops right behind it |
| `JsonRoundTrip.EscapeParses` | src/cJSON/cJSON.c:155-248 | the text a string is escaped to, wherever it stands before a quote, unescapes to the string |
| `JsonRoundTrip.DecimalParses` | src/cJSON/cJSON.c:96-138 | the decimal digits of any integer, read digit by digit as a mantissa, give the integer back and end where the digits end |
| `JsonLayout.PrintedExactlyWhen` | src/cJSON/cJSON.c:118-507 | a text is what is printed for a value at a depth and in a form if and only if it is the text of a syntax tree that means the value, has the layout of that form at that depth (newlines and tabs by the brackets and braces open, one tab behind a colon, one space behind an array's comma, nothing else; unformatted nothing at all), whole numbers without needless zeros, and only the escapes needed |
| `JsonLayout.PrintIsJson` | src/cJSON/cJSON.c:302-507 | what is printed is a text of RFC 8259 |
| `JsonLayout.IntsArePrintable` | src/cJSON/cJSON.c:122 | the numbers covered are exactly those of a 32-bit int |
| `JsonParse.ParseValue` | src/cJSON/cJSON.c:287-299 | a value parsed ends strictly behind its first character and inside the text; an error position is inside the text |
| `JsonParse.Unescape` | src/cJSON/cJSON.c:166-208 | the unescaped part of a string ends at a quote or at the terminator, never beyond it |
| `JsonGrammar.ValueReads` | src/cJSON/cJSON.c:287-439 | wherever a text of the grammar stands, that nothing behind it continues, it is read to its end as the value it means: keywords, numbers, strings with their escapes, arrays and objects with white space anywhere |
| `JsonAccepted.ReadExactlyWhen` | src/cJSON/cJSON.c:287-439 | and only there: a value is read from one place to another if and only if a text of the grammar that means it stands between them |
| `JsonAccepted.AcceptedExactlyWhen` | src/cJSON/cJSON.c:264-278 | a document is accepted as a value up to a place if and only if it is white space, a text of the grammar that means the value and, where nothing may follow, white space up to its end |
| `JsonAccepted.JsonTextsAreAccepted` | src/cJSON/cJSON.c:264-278 | every text of RFC 8259 is accepted as what it means, to its end |
| `JsonAccepted.SignIsAccepted` | src/cJSON/cJSON.c:100-115 | more is accepted: a sign alone is read as zero |
| `JsonAccepted.RestIsRejected` | src/cJSON/cJSON.c:275 | where nothing may follow, the text is rejected at the first character behind the value that is not white space |
| `JsonReadNumbers.NumberReads` | src/cJSON/cJSON.c:96-115 | a number of the grammar is read to its end as its digits taken as one whole number, times the power of ten that its exponent and the places behind its point say |
| `JsonReadNumbers.NumberIsText` | src/cJSON/cJSON.c:96-115 | and whatever is read as a number is one, with nothing behind it that would continue it |
| `JsonReadStrings.StringReads` | src/cJSON/cJSON.c:155-212 | a string of the grammar, closed or ended by the text, is read as what its pieces mean |
| `JsonReadStrings.StringIsText` | src/cJSON/cJSON.c:155-212 | and whatever is read as a string is one |
| `JsonReadStrings.PairExactlyWhen` | src/cJSON/cJSON.c:183-189 | of all code unit pairs exactly the one that RFC 2781 gives for a code point is combined to it, for every code point above 0xFFFF |
| `JsonReadStrings.PairEmits` | src/cJSON/cJSON.c:179-201 | the twelve characters that spell that pair add the UTF-8 sequence of the code point |
| `JsonReadStrings.EscapeEmits` | src/cJSON/cJSON.c:179-201 | the six characters that spell a code point below 0x10000, neither zero nor a surrogate, add the UTF-8 sequence of it |
| `JsonReadStrings.HexExactlyWhen` | src/cJSON/cJSON.c:140-151 | four characters are read as a code unit if and only if they are its hexadecimal digits, in either case |
| `JsonReadStrings.ShortEmits` | src/cJSON/cJSON.c:168-178 | a backslash and a character add what the table of RFC 8259 says, and for a character not in it the character itself |
| `JsonMinify.MinifyOfPrint` | src/cJSON/cJSON.c:283-284 | minifying the formatted or the unformatted print of a value, at any depth, gives byte for byte the unformatted print at any other depth |
| `JsonTokens.TokensRemain` | src/cJSON/cJSON.c:581-596 | a text made of tokens with white space and terminated comments between them (block comments not starting with a slash) is minified to exactly its tokens |
| `JsonTokens.MinifyIsIdempotent` | src/cJSON/cJSON.c:581-596 | minifying such a text a second time changes nothing |
| `JsonTokens.BlockEndsExactlyWhen` | src/cJSON/cJSON.c:591 | a closed block comment is passed over as a whole if and only if its body does not start with a slash; otherwise that slash is taken to close it |
| `JsonTokens.SlashAfterOpening` | src/cJSON/cJSON.c:591 | an input: the rest of such a comment stays in the minified text |
| `JsonMinifyTwice.IdempotentExactlyWhen` | src/cJSON/cJSON.c:581-596 | a second pass over a minified text changes nothing if and only if no kept slash has a slash or star as the next character kept |
| `JsonMinifyTwice.StraySlashes` | src/cJSON/cJSON.c:586-593 | an input where it does: two slashes with a space between become a comment the second time |
| `JsonMinifier.MinifyInPlace` | src/cJSON/cJSON.c:581-596 | the in-place scanner leaves the buffer holding the minified text, and no byte behind the old terminator is touched |
| `JsonMinifier.MoveLiteral` | src/cJSON/cJSON.c:592 | a string literal is moved down unchanged, quotes and escapes included; nothing not yet read is overwritten |
| `JsonMinifier.PassBlock` | src/cJSON/cJSON.c:591 | a block comment is passed over to just behind its end |
| `JsonMinifyDocument.OutcomeIsKeptExactlyWhen` | src/cJSON/cJSON.c:261-299 | for every closed text, with or without the demand that nothing follows: the minified text gives the same value ending at the matching place, or is rejected at the matching place, if and only if the value looked at last is no number that the characters kept behind it continue, and no place where white space had split a keyword |
| `JsonMinifyDocument.MinifyKeepsMeaning` | src/cJSON/cJSON.c:264-278 | a text that parses as a whole parses after minifying to the same value, consuming all of it |
| `JsonMinifyDocument.PartedTextIsKept` | src/cJSON/cJSON.c:261-439 | a text without comments, each run of blanks in which, outside strings, has on one side something other than a character of numbers and keywords, keeps its outcome: the same value, or the rejection, at the matching place |
| `JsonMinifyDocument.MinifyMayJoin` | src/cJSON/cJSON.c:280 | an input where the value changes when only the first value is asked for: two numbers become one |
| `JsonMinifyDocument.PointMayJoin` | src/cJSON/cJSON.c:105 | another, where no white space stands directly behind the number |
| `JsonMinifyDocument.MinifyMayRepair` | src/cJSON/cJSON.c:581-596 | an input where a rejected text comes to be accepted |
| `JsonComments.CommentsAreWhiteSpace` | src/cJSON/cJSON.c:581-596 | a text with comments has, minified, the outcome it has with spaces in place of the comments, under the same condition and no other |
| `JsonComments.CommentsAreDropped` | src/cJSON/cJSON.c:590-591 | putting spaces in place of the comments does not change the minified text |
| `JsonMinifyParse.SameValue` | src/cJSON/cJSON.c:287-439 | from matching places in a text and its minified form the parser reads the same value to matching places, or rejects at matching places, unless a token changes; then it reads on beyond |
| `JsonNumberEnds.NumberContinues` | src/cJSON/cJSON.c:96-115 | a number copied elsewhere is longer there if and only if the one or two characters behind it continue it: a digit, a point and a digit, an exponent's letter or its sign, as far as the parts it has allow; otherwise it is the same number |
| `JsonMinifyTokens.TrackNumber` | src/cJSON/cJSON.c:96-115 | so a number is longer in the minified text if and only if the characters kept behind it continue it |
| `JsonTracks.TrackString` | src/cJSON/cJSON.c:155-212 | a string literal is read alike in both texts, a bad escape in it included |
| `JsonStrings.PassesAgree` | src/cJSON/cJSON.c:160-206 | for every string the second pass can read, both passes stop at the same character and the second writes no more than the first counted |
| `JsonStrings.CountEscape` | src/cJSON/cJSON.c:160-204 | an escape sequence, a surrogate pair included, writes no more than it was counted for |
| `JsonReadStrings.PiecesCounted` | src/cJSON/cJSON.c:160 | the counting pass comes to the end of the string and has counted one for each character and short escape and five for each four-digit escape |
| `JsonStrings.Utf8Encodes` | src/cJSON/cJSON.c:192-200 | what is written for a code point is the one well-formed UTF-8 sequence for it (RFC 3629, section 3), and nothing else is |
| `JsonStrings.UnescapeIsAsWritten` | src/cJSON/cJSON.c:166-206 | the text written is that of the escaped code units with pairs combined, where a lone high surrogate swallows a following code unit |
| `JsonStrings.UnescapeIsIdeal` | src/cJSON/cJSON.c:179-204 | it is the text RFC 8259 describes, with zero and unpaired surrogates left out, if and only if no escape swallowed that way would have written anything |
| `JsonStrings.LetterIsLost` | src/cJSON/cJSON.c:184-189 | an input where it is not: the letter escaped after a lone high surrogate is lost |
| `JsonUnescaper.ReadString` | src/cJSON/cJSON.c:155-212 | both passes of the code: a new buffer of the size counted holds the unescaped text with its terminator, and the position behind the string is returned |
| `JsonUnescaper.CountText` | src/cJSON/cJSON.c:160 | the counting loop counts what the second pass needs and never steps over the terminator |
| `JsonUnescaper.ReadableStays` | src/cJSON/cJSON.c:160 | a text the writing pass can read has no backslash just before the terminator, where the counting pass would leave the buffer |
| `JsonUnescaper.ReadUnicode` | src/cJSON/cJSON.c:179-201 | a four-digit escape, with the other half of a surrogate pair where there is one, appends its UTF-8 or nothing and goes on behind it |
| `JsonUnescaper.PutCode` | src/cJSON/cJSON.c:192-200 | the bytes of a code point, written last byte first through the falling-through switch, are its UTF-8 encoding |
| `JsonUnescaper.ParseHex4` | src/cJSON/cJSON.c:140-151 | four hexadecimal digits give their value, anything else 0 |
| `JsonUnescaper.UnescapedIsCString` | src/cJSON/cJSON.c:182-206 | no unescaped text has a terminator inside, so the C string read back from the buffer is the whole text |
| `JsonLists.AddItemToArray` | src/cJSON/cJSON.c:520 | appending makes the children the old ones followed by the item, linked both ways; a null item is ignored |
| `JsonLists.GetArraySize` | src/cJSON/cJSON.c:510 | the number of children |
| `JsonLists.GetArrayItem` | src/cJSON/cJSON.c:511 | the child at the index, the first for a negative one, null past the end |
| `JsonLists.DetachItemFromArray` | src/cJSON/cJSON.c:525-526 | the children are the old ones without the one at the index, which is returned unlinked; an index past the end changes nothing |
| `JsonLists.Exchange` | src/cJSON/cJSON.c:532-534 | the new item takes the place of the child at the index, which is returned unlinked; all others keep identity and order |
| `JsonLists.SuffixObject` | src/cJSON/cJSON.c:515 | linking an item behind the last one gives the longer list |
| `JsonNodes.LinkedIsDifferent` | src/cJSON/cJSON.c:515-526 | a list linked both ways from a head without predecessor contains no node twice |
| `JsonNodes.TruncateExactlyWhen` | src/cJSON/cJSON.c:112 | the int of a number is the whole number next to it on the side of zero |
| `JsonTrees.Delete` | src/cJSON/cJSON.c:81-93 | frees the item, its following siblings and all they own, each node once; what is only referred to stays allocated |
| `JsonTrees.Duplicate` | src/cJSON/cJSON.c:554-579 | the copy is made of new nodes only, linked as a tree with null outer links and no reference in it; it copies the original node for node, or just its root when not recursive; the source is unchanged |
| `JsonTrees.DuplicateChildren` | src/cJSON/cJSON.c:568-577 | the walk over the chain of children copies all of them, in order |
| `JsonTrees.CopyDenotes` | src/cJSON/cJSON.c:554-579 | a node-for-node copy holds a value if and only if the original does |
| `JsonTrees.CopyNode` | src/cJSON/cJSON.c:559-565 | a new node with the content of the old one and the reference flag cleared |
| `JsonLifetimes.CopyIsOwned` | src/cJSON/cJSON.c:554-579 | a linked node-for-node copy owns all its nodes, whatever references the original has, so deleting it frees exactly these |
| `JsonLifetimes.DuplicateAndDelete` | src/cJSON/cJSON.c:554-579 | a tree duplicated, whole or its root alone, and the duplicate deleted: the same nodes are allocated as before |
| `JsonLifetimes.ParseAndDelete` | src/cJSON/cJSON.h:65-72 | a text parsed and what was returned deleted: the same nodes are allocated as before |
| `JsonLifetimes.ParseCopyDelete` | src/cJSON/cJSON.h:65-118 | a copy outlives the deleted original: it still holds the value parsed, in exactly the nodes that are left |
| `JsonLifetimes.ParseInto` | src/cJSON/cJSON.c:520 | a value parsed and appended to an array: the array holds one value more and owns all that was allocated for it |
| `JsonEdits.DeleteItemFromArray` | src/cJSON/cJSON.c:527 | deleting the child at an index frees exactly the nodes that child owns and leaves the others linked and owned as before |
| `JsonEdits.ReplaceItemInArray` | src/cJSON/cJSON.c:532-534 | replacing frees exactly what the displaced child owned, and the parent then owns the new item in its place |
| `JsonEdits.AddOwned` | src/cJSON/cJSON.c:520 | appending an item makes its tree the parent's, and leaves every other tree linked as it was |
| `JsonEdits.CreateReference` | src/cJSON/cJSON.c:517 | a reference is a new node with the item's content and children but no name, no siblings and the reference flag |
| `JsonEdits.AddItemReferenceToArray` | src/cJSON/cJSON.c:522 | what is appended owns only its own node, so deleting it later frees no node of the item |
| `JsonEdits.ReferenceDenotes` | src/cJSON/cJSON.c:517 | a reference holds exactly the values of the item it shares its children with |
| `JsonEdits.EditsDenote` | src/cJSON/cJSON.c:520-534 | cutting out, replacing and appending a child does the same to the array's value |
| `JsonEdits.CutParts` | src/cJSON/cJSON.c:525-527 | of a list of trees that share no node, the nodes of one and the nodes of the others make up all of them |
| `JsonParser.Parser.ParseWithOpts` | src/cJSON/cJSON.c:264-278 | returns a tree of new nodes, its root linked to nothing and no reference, holding the value of the text, and the position behind it; on failure every node allocated has been freed and the error position is that of the specification |
| `JsonParser.Parser.ParseValue` | src/cJSON/cJSON.c:287-299 | fills the item with the value the text holds and its type, or fails at the same position; in both cases all nodes allocated hang below the item as a tree it owns |
| `JsonParser.Parser.ParseArray` | src/cJSON/cJSON.c:320-345 | the same for an array, element by element along the sibling chain |
| `JsonParser.Parser.ParseObject` | src/cJSON/cJSON.c:406-439 | the same for an object; each child carries its name |
| `JsonParser.Parser.ParseString` | src/cJSON/cJSON.c:155-212 | stores the unescaped text, or reports that no string starts here and changes nothing else |
| `JsonParser.ParseNumber` | src/cJSON/cJSON.c:96-115 | the three digit loops compute the number and stop where the specification says; the int is the double truncated |
| `JsonParser.Parser.NextItem` | src/cJSON/cJSON.c:329-341 | reading one more element extends both the list of nodes and the list of values, or leaves a list that can be freed |
| `JsonParser.Parser.DeleteRoot` | src/cJSON/cJSON.c:267-275 | the tree below a root that is in no list is freed as a whole, each node once |
| `JsonPrinter.PrintValue` | src/cJSON/cJSON.c:302-317 | for every tree, depth and format flag the returned buffer holds the specified text, and no write leaves a buffer |
| `JsonPrinter.PrintArray` | src/cJSON/cJSON.c:348-403 | the same for an array; the length added up is enough |
| `JsonPrinter.PrintObject` | src/cJSON/cJSON.c:442-507 | the same for an object, empty or not; the length added up is enough |
| `JsonPrinter.PrintStringPtr` | src/cJSON/cJSON.c:215-248 | the quoted and escaped text fills the counted buffer to its last byte, terminator included; a null string gives an empty one |
| `JsonPrinter.PrintNumber` | src/cJSON/cJSON.c:118-126 | the decimal form of an int fits the 21 bytes allocated |
| `JsonPrinter.CountEscaped` | src/cJSON/cJSON.c:220 | the counting pass counts exactly the length of the escaped text |
| `JsonPrinter.ItemsFit` | src/cJSON/cJSON.c:351-401 | the room added up for the elements is their text with separators and bracket, and one byte for each and one or two more |
| `JsonPrinter.MembersFit` | src/cJSON/cJSON.c:445-505 | the room added up for the members is their text with names, indentation, separators, line breaks and brace, and one byte more |
| `JsonPrinter.ComposeArray` | src/cJSON/cJSON.c:392-401 | the writing loop produces the bracketed elements in a buffer of exactly the length given |
| `JsonPrinter.ComposeObject` | src/cJSON/cJSON.c:491-505 | the writing loop produces the braced members in a buffer of exactly the length given |
| `JsonPrinter.CollectItems` | src/cJSON/cJSON.c:369-376 | the entries are the printed children, in order, and the length is five plus the room of all of them |
| `JsonPrinter.CollectMembers` | src/cJSON/cJSON.c:469-476 | the names and entries are those of the children, in order, and the length is that the code adds up |
| `JsonPrinter.EmptyObject` | src/cJSON/cJSON.c:451-459 | an empty object prints as its own rule says, in the size allocated for it |
| `JsonPrinter.PrintIsCString` | src/cJSON/cJSON.c:302-507 | no printed text has a terminator inside, so its length is what strlen finds |
| `Crc16.Register.Generate` | src/crc16.cpp:73-81 | the CRC the code returns for the first `len` bytes is what the bit-serial register started from 0xFFFF holds after them |
| `Crc16.CheckValue` | src/crc16.cpp:73-81 | the CRC of the digits 123456789 is 0x29B1, the check value published for this CRC |
| `Crc16.Register.Update` | src/crc16.cpp:67-71 | one byte through the two nibbles is eight steps of the bit-serial register, for every register state |
| `Crc16.Register.Update4Bits` | src/crc16.cpp:45-62 | the shift and the two table lookups are four steps of the bit-serial register |
| `Crc16.LookupIsFourSteps` | src/crc16.cpp:15-22 | every entry of the two tables is what four steps leave of its index |
| `Crc16Polynomial.CrcIsTheRemainder` | src/crc16.cpp:15-81 | a register value is the CRC of a message if and only if it is a remainder of message times x^16 plus (x^15+...+1) times x^(8 len) under division by x^16+x^12+x^5+1 over GF(2) |
| `Crc16Polynomial.CrcFromZero` | src/crc16.cpp:34-81 | for two bytes or more it is what the message with its first 16 bits complemented leaves in a register started from zero |
| `Crc16Polynomial.RegisterPolyInjective` | src/crc16.cpp:45-62 | different register values are different polynomials |
| `Crc16Polynomial.DivisionIsUnique` | src/crc16.cpp:45-62 | quotient and remainder of that division are unique |
| `Crc16Polynomial.FeedIsTheRemainder` | src/crc16.cpp:45-71 | the register started at any value and fed any bits ends with the one register value that is the remainder of the corresponding polynomial |
| `Crc16Undetected.UndetectedExactlyWhen` | src/crc16.cpp:45-81 | two messages of equal length have the same CRC if and only if their difference, as a polynomial, is a multiple of x^16+x^12+x^5+1 |
| `Crc16Undetected.OddIsDetected` | src/crc16.cpp:45-81 | any change of an odd number of bits of a message of any length, wherever they are, changes the CRC |
| `Crc16Detection.BurstIsDetected` | src/crc16.cpp:45-81 | any change of a message of any length that is confined to 16 consecutive bits changes the CRC |
| `Crc16Detection.CrcIsAffine` | src/crc16.cpp:45-81 | the exclusive or of two CRCs is the zero-started register fed the exclusive or of the messages |
| `Crc16Detection.DifferenceDetermines` | src/crc16.cpp:45-81 | for messages of equal length the exclusive or of two CRCs depends only on the exclusive or of the messages |
| `Crc16Detection.Residue` | src/crc16.cpp:45-81 | a message followed by two bytes has CRC 0 if and only if these are the high and then the low byte of its own CRC |
| `Crc16Detection.ShortInputShows` | src/crc16.cpp:45-62 | no nonzero input of at most 16 bits leaves the zero register at zero |
| `Packets.CheckPacket` | src/packets.cpp:423-433 | the save, zero and recompute check accepts exactly the packets whose field is the CRC of the rest, and leaves the field zeroed |
| `Packets.StoreCrc` | src/packets.cpp:89 | the CRC of a packet with zeroed field is stored in that field, low byte first |
| `Packets.BuildReceiverAddress` | src/packets.cpp:83-89 | the packet built has its header fields set, all else zero, and is accepted by the receiver's check |
| `Packets.SealingIsAccepted` | src/packets.cpp:83-89 | every packet sealed that way is accepted |
| `Packets.AcceptedExactlyWhen` | src/packets.cpp:423-433 | a packet is accepted if and only if its bytes 2 and 3, low byte first, are the CRC of the packet with zeros there |
| `Packets.AcceptedIsSealed` | src/packets.cpp:423-433 | a packet is accepted if and only if it is the sealing of its own content |
| `Packets.ChangedFieldIsRejected` | src/packets.cpp:423-433 | any change inside the CRC field alone is rejected |
| `Packets.ChangedContentIsRejected` | src/packets.cpp:423-433 | any change within 16 consecutive bits outside the CRC field is rejected |
| `XBeeFrames.Checksum` | src/xbee.cpp:42-53 | the running unsigned char loop computes the byte that completes the sum of the bytes to 0xFF |
| `XBeeFrames.DoChecksumVerify` | src/xbee.cpp:55-66 | the result is 0xFF if and only if the checksum given is the one of the bytes |
| `XBeeFrames.ChecksumCompletes` | src/xbee.cpp:42-66 | one checksum byte and no other completes the sum to 0xFF |
| `XBeeFrames.ChangedByteIsSeen` | src/xbee.cpp:55-66 | a frame with any one byte changed does not verify |
| `XBeeFrames.CommandInternal` | src/xbee.cpp:402-434 | the bytes sent are the command frame with its parameter, if any, big-endian, its length and its checksum; the frame kept is those bytes and zeros |
| `XBeeFrames.TransmitInternal` | src/xbee.cpp:110-132 | the bytes sent are the transmit frame with address, reserved word, no options and the first 48 bytes of the buffer; the frame kept starts with them |
| `XBeeFrames.FramedVerifies` | src/xbee.cpp:402-424 | a frame built that way has the length of its body and verifies to 0xFF |
| `XBeeFrames.CommandReads` | src/xbee.cpp:402-434 | the fields of the AT frame at their places: delimiter 0x7E, length, type 0x08, id, the command low byte first, its parameter high byte first |
| `XBeeFrames.TransmitReads` | src/xbee.cpp:110-132 | the fields of the transmit frame at their places: delimiter, length 62, type 0x10, id, address, 0xFF 0xFE 0 0, and the 48 bytes of the packet |
| `XBeeTable.FrameTellsOrder` | src/xbee.cpp:110-434 | different orders and different ids give different frames, as far as the frame has room for the order |
| `XBeeStream.ReadFrame` | src/xbee.cpp:144-218 | the reader waits, gives up or returns a frame, leaving the bytes behind it unread, as the stream specification says |
| `XBeeStream.ReadLength` | src/xbee.cpp:168-184 | the two length bytes are read, starting over at every further start delimiter |
| `XBeeStream.SeekDelimiter` | src/xbee.cpp:152-163 | everything up to and including the first start delimiter is consumed |
| `XBeeStream.StreamReads` | src/xbee.cpp:144-218 | from frames with length field up to 124, bodies free to contain the delimiter, with noise before them and repeated delimiters or cut headers between delimiter and header, as many calls return exactly these frames in order |
| `XBeeStream.SegmentReads` | src/xbee.cpp:144-218 | one call returns exactly the next frame and leaves exactly what follows it |
| `XBeeStream.BrokenOff` | src/xbee.cpp:152-217 | while only noise and delimiters come the call waits; when the bytes end inside a frame, from its first length byte on, it gives up with nothing left |
| `XBeeStream.SentFramesAreFrames` | src/xbee.cpp:110-129 | every frame built is such a frame, and when read back verifies and has its body unchanged |
| `XBeeStream.ReadExactlyWhen` | src/xbee.cpp:144-218 | of a frame with any length field one call returns the frame and leaves exactly what follows it if and only if the frame is no longer than the buffer |
| `XBeeStream.LongFrameIsCut` | src/xbee.cpp:185-217 | a longer one is cut at the buffer's size: the call gives up and the rest of the frame stays in the stream |
| `XBeeStream.DelimiterInLength` | src/xbee.cpp:165-184 | unless a byte of its length field is the delimiter, which makes it longer than the buffer: then it is read as if it began there |
| `XBeeTable.Communicator.RegisterRequest` | src/XBeeCommunicator.cpp:141-178 | takes the first free slot, or id 0 when there is none, queues the request with that id, and keeps the invariant |
| `XBeeTable.Communicator.DispatchOne` | src/XBeeCommunicator.cpp:296-328 | takes the oldest request; sends its frame and marks its slot in flight, or drops it when it has no id; keeps the invariant |
| `XBeeTable.Communicator.Handle` | src/XBeeCommunicator.cpp:183-254 | files the frame under the id it carries and frees the slot when the verdict is 1 and its request is in flight; keeps the invariant |
| `XBeeTable.Communicator.FreeCommStruct` | src/XBeeCommunicator.cpp:113-139 | frees an allocated slot and forgets its frames; the slot looked up is never null |
| `XBeeTable.StepKeeps` | src/XBeeCommunicator.cpp:122-328 | in every step the invariant is kept: a slot is allocated while its request is queued or in flight, never both; ids of queued requests differ; a frame in flight carries its own slot's id |
| `XBeeTable.IdsAreAccountedFor` | src/XBeeCommunicator.cpp:122-328 | in every reachable state the allocated ids are the disjoint union of the queued ids and the ids in flight |
| `XBeeTable.OutstandingIdsDiffer` | src/XBeeCommunicator.cpp:141-178 | in every reachable state no two queued requests, and no queued and in-flight request, share an id |
| `XBeeTable.IdIsFree` | src/XBeeCommunicator.cpp:151-165 | a request gets id 0 if and only if all 255 slots are allocated, and otherwise the least id whose slot is not, which nothing outstanding has |
| `XBeeTable.ReplyFreesItsOwn` | src/XBeeCommunicator.cpp:190-245 | an incoming frame frees a slot if and only if it carries that slot's id, the request is in flight and the verdict, the callback's or by default, is 1; queue and sent requests stay |
| `XBeeTable.ReplyIsFiled` | src/XBeeCommunicator.cpp:190-245 | of the records it changes that slot's only: the frame is filed, a verdict of 1 marks it finished, and freeing drops both frames |
| `XBeeTable.InFlightIsLastSent` | src/XBeeCommunicator.cpp:308-322 | in every reachable state a slot in flight holds the callback and the frame of the request last sent with its id |
| `XBeeTable.SentInOrder` | src/XBeeCommunicator.cpp:167-177 | in every reachable state the requests sent followed by those queued with an id are the requests registered with an id, each once and in order |
| `XBeeTable.SentIsReadBack` | src/XBeeCommunicator.cpp:318-326 | in every reachable state the frames of the requests sent read back, frame by frame, as one verifying frame for each request, in order and with its id |
| `XBeeTable.PortIsReadBack` | src/XBeeCommunicator.cpp:318-326 | at any time the bytes the communicator has given to its port are these frames |
| `CurlBuffer.Buffer.Init` | src/curl.cpp:15-31 | a zeroed buffer of 256 bytes, or 256 more than asked for when that is more than 256; the length stays, so that a buffer in use fits the new one if and only if its length does |
| `CurlBuffer.Buffer.Extend` | src/curl.cpp:33-54 | the contents are kept, there is room for the bytes asked for, and the rest of the buffer is zero |
| `CurlBuffer.Buffer.WriteFunc` | src/curl.cpp:73-95 | after every chunk the buffer holds the concatenation of all chunks, within its capacity |
| `RscpText.LoadsBack` | src/ServerComm.cpp:83-105 | a rendered message of newline-free parts loads back to the same request and map if and only if the request is not empty, no id has a colon and no data starts with white space |
| `RscpText.LineReadsBack` | src/ServerComm.cpp:479-519 | the same for one line |
| `RscpText.EndsOnlyAtTheEnd` | src/ServerComm.cpp:148-152 | of a rendered message with a request that is not empty, no proper prefix ends with two newlines |
| `RscpText.AssignIsUpdate` | src/ServerComm.cpp:515 | assigning an entry keeps the entries sorted and changes the map at that key only |
| `RscpText.SortedIsCanonical` | src/ServerComm.cpp:545 | the order in which the entries are walked depends on the map alone |
| `RscpText.TokensOfMessage` | src/ServerComm.cpp:89-102 | splitting a rendered message at newlines gives its request, if not empty, and its lines |
| `RscpLayout.LessExactlyWhen` | src/ServerComm.h:87 | the order of the map's keys is that of a dictionary: proper prefixes first, otherwise by the first character that differs |
| `RscpLayout.SmallerStandsFirst` | src/ServerComm.cpp:545-575 | in any rendering a line stands before another if and only if its id comes first in a dictionary |
| `RscpLayout.LineStandsAt` | src/ServerComm.cpp:521-575 | every line stands at its place in the rendering: id, colon, space, data, newline |
| `RscpLayout.RequestStandsFirst` | src/ServerComm.cpp:556-575 | the request and a newline stand first, an empty line last, and nothing else is in the rendering but the lines |
| `RscpLayout.TokensSplit` | src/ServerComm.cpp:86-102 | the tokens of a text are those of its parts on both sides of any newline |
| `RscpLayout.OneToken` | src/ServerComm.cpp:86-102 | a text without newlines is one token, and none if it is empty |
| `RscpLayout.LineIsCut` | src/ServerComm.cpp:479-519 | a line is cut at its first colon, the white space behind it passed over, the data taken up to a newline |
| `RscpLayout.LoadGives` | src/ServerComm.cpp:83-105 | loading gives the first token as request, and for each id the data of the last line with it |
| `Rscp.RSCPContent.GetContentAsString` | src/ServerComm.cpp:521-591 | whether cached or assembled, the string returned is a fresh rendering of the current request and map; the cache is valid afterwards |
| `Rscp.RSCPContent.Assemble` | src/ServerComm.cpp:556-575 | the copying loops produce the rendering inside the estimated buffer |
| `Rscp.FitsExactlyWhen` | src/ServerComm.cpp:539-575 | the rendering with its terminator fits the estimate if and only if the request has at most 29 bytes and one more for each line |
| `Rscp.RSCPContent.AddLineString` | src/ServerComm.cpp:479-519 | the entry assigned is the id before the colon with the data behind it, leading white space passed over |
| `Rscp.RSCPContent.SplitLine` | src/ServerComm.cpp:483-513 | the loops cut a line at its first colon and at a newline |
| `Rscp.RSCPContent.AddLine` | src/ServerComm.cpp:471-477 | assigns the entry and puts the cache out of date |
| `Rscp.RSCPContent.SetRequest` | src/ServerComm.cpp:456-469 | replaces the request and puts the cache out of date; a null request is ignored |
| `Rscp.RSCPContent.Clear` | src/ServerComm.h:40-58 | no request, no lines and no cached rendering are left |
| `Rscp.RSCPContent.LoadFromString` | src/ServerComm.cpp:83-105 | whatever the content was, it becomes what the text holds: the first token as request, the others as lines |
| `Rscp.RSCPContent.LoadFromSocket` | src/ServerComm.cpp:118-166 | receiving stops at an empty line, an error or a disconnect; one message, whatever its pieces and pauses, is received as a whole and loaded, and what arrives after its last piece is left unread |
| `Rscp.RSCPContent.Receive` | src/ServerComm.cpp:125-155 | the bytes received are a prefix of what arrives and are all in the buffer, in order; later arrivals stay on the socket |
| `Rscp.RenderedIsReceived` | src/ServerComm.cpp:118-166 | a rendered message in any pieces is one the receiver takes as a whole, and loads back to the sender's request and map |
| `RscpSocket.RenderedIsOneMessage` | src/ServerComm.cpp:148-152 | the receiving loop's test holds for the whole of a rendered message and for no proper prefix |
| `Sensors.LogAlternates` | src/sensor.cpp:52-70 | over every run with a positive clock that never goes back, the log lines of a sensor alternate, starting with now active; a lost line comes more than 90 seconds after the now active line before it |
| `Sensors.LostExactlyWhen` | src/packets.cpp:520-530 | a check logs a sensor as lost if and only if the log has it active and its last packet is more than 90 seconds ago, with the seconds of silence |
| `Sensors.ActiveExactlyWhen` | src/sensor.cpp:59-69 | a packet is logged if and only if the log does not have its sensor as active |
| `Sensors.StateIsTracked` | src/sensor.cpp:52-93 | in every reachable state each sensor stands under its own id, with the time of its last packet, and is active exactly when the last log line about it says so |
| `Sensors.KnownExactlyWhen` | src/sensor.cpp:52-93 | a sensor is known if and only if it has been added or has sent a packet |
| `Sensors.Registry.SensorUpdate` | src/sensor.cpp:52-70 | a packet adds an unknown sensor, records the time and marks it active, and touches no other sensor |
| `Sensors.Registry.AddSensor` | src/sensor.cpp:72-93 | an unknown sensor is added under its id, inactive and without a packet; a known one is left alone |
| `Sensors.Registry.CheckSensor` | src/packets.cpp:515-531 | one turn of the scanner deactivates and logs an overdue sensor, passes over a null entry, and touches no other sensor |

## Left out

- JsonParser.Parser.ParseWithOpts: texts with a backslash before the terminator or `\u` without four hexadecimal digits are not modelled, because the code then passes over characters whatever they are, a closing quote or the terminator among them, and its two passes part; the outcome `Unmodelled` stands for them.
- JsonParser.ParseNumber: numbers are exact reals, because rounding of doubles, overflow of the exponent's int and the conversion of a double outside the range of int are not modelled.
- JsonPrinter.PrintNumber: only numbers that are C ints are printed, because the `%f` and `%e` forms depend on floating point.
- JsonPrinter.PrintValue: trees that hold no value (a string or member without text) are not modelled; printing of shared children is, through references.
- JsonMinifier.MinifyInPlace: texts with an unterminated string or block comment are not modelled, because the code then runs past the terminator.
- JsonTrees.Duplicate: a null item is not modelled; the code returns null for it.
- JsonTrees.Delete: frees nodes; the strings of a node are values of its fields and not buffers of their own, so that their freeing is not modelled.
- XBeeTable.Communicator.RegisterRequest: requests that ask for an id of 1 to 8 are not modelled; no caller makes one, and the test for a full table does not cover the strided search. The write to the entry before the first when the table is full is not modelled.
- XBeeTable.Communicator.Handle: waiting callers are not modelled, so that `waiting` stays 0; what callbacks do is reduced to the verdict they return, and reply data and retries are left out.
- XBeeFrames.CommandInternal: only data of length 0 and 4 is modelled, the lengths the callers use.
- XBeeFrames.TransmitInternal: buffers of the first packet revision's size are not modelled, because the code then writes the size of the second; the unset bytes behind the frame are arbitrary.
- XBeeStream.ReadFrame: a read returns what is asked for as long as bytes are left, and the end of the bytes stands for a pause that does not end; pauses inside a frame are not modelled.
- Rscp.RSCPContent.AddLineString: lines without a colon are not modelled, because the code then reads one byte past its copy; `Loadable` says the same for whole texts.
- Rscp.RSCPContent.GetContentAsString: a missing request, and a request too long for the estimate, are not modelled, because the code then reads null or writes past its buffer; `FitsExactlyWhen` says exactly when that is.
- Rscp.RSCPContent.LoadFromSocket: loads the bytes received; the code passes the buffer as a C string and relies on a zero byte behind them, which a buffer filled to its capacity does not have.
- Rscp.RSCPContent.Clear: the loop that frees the data of the lines is not modelled, as data are values.
- Sensors.Registry.CheckSensor: the order in which the scanner visits the sensors is left open; each visit is a step of its own.
- Failure of allocation, and `cJSON_InitHooks`.
- Threads, locks and memory order: each step of the request table and of the sensor map is atomic.
- Lookup and edits of object members by name, which differ from those by index in a comparison without regard to case, and the constructors of nodes: easy beside what is here.
- Replies of the second packet revision, whose CRC is taken over the address of a pointer; the handlers' further work on a packet; sensor readings.
- `waitCommStruct`, the status handler with its retries, the heartbeat and the watchdog.
- The copy constructor of `RSCPContent`, which does not copy the data of its lines, and `getLineData`.
- Serial port, sockets, curl transfers, files, signals, settings and the update checker.
