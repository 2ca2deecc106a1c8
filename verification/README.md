# Verification of the KiteQ C++ client

This project models three parts of the client in Dafny and proves properties of the models.

1. **The JSON library** (`json/cJSON.c`). The C heap is a class of nodes and an allocator that may refuse any
   request (`CHeap`); a ghost tree says which blocks a node owns (`JsonTree`). The parser and the printer are methods
   that follow the C code on that heap (`JsonScanner`, `JsonParser`, `JsonPrinter`, `JsonDelete`), as is the list
   surgery (`JsonList`). They are proved against functions on text and values (`JsonString`, `JsonNumber`, `JsonValue`,
   `JsonParse`, `Utf8`). Those functions are related to the grammar of RFC 8259 and to the wider one of the parser
   (`JsonLiteral`, `JsonNumeral`, `JsonGrammar`), whose derivations have a meaning of their own. The parser accepts
   exactly what the wider grammar derives (`JsonAccepts`), and its error position is exactly where a text goes wrong
   (`JsonErrors`). What is printed is a JSON text that means the printed tree; its strings are the shortest literals
   that mean theirs (`JsonShortest`), and its layout is fixed (`JsonLayout`). The round trip follows (`JsonRoundTrip`,
   `JsonEndToEnd`).
2. **The wire codec.** The messages are values with the records that they are written as (`Varint`, `Wire`, `Messages`),
   with round trips and the merge law (`WireRoundTrip`) and the theorem on the order of records (`WireOrder`). The bytes
   of every field are stated by field number (`WireLayout`). The generated `ExpectTag`/`goto` parsers refine the plain
   loop (`HeaderChain`, `HeaderObject`, `MessageObject`); sizes and serialization agree (`WireSize`, `WireOutput`, and the
   same two). Frames are written and read by `ByteBuf` and `KitePacket`, and the frame reader is a state machine (`Framing`).
3. **The request, counter and heartbeat protocols** (`ResponseFuture`, `Counter`, `Heartbeat`): atomic steps of several
   threads, with invariants over every interleaving, and classes whose methods are those steps.

C strings are NUL-free byte sequences; a position equal to the length is the terminator. `char *` results that are null
are `-1` positions or null references. Bytes are numbers below 256, and the bitwise operators of C are functions on
natural numbers (`Bits`).

## Conventions of the model

- `Heap.live` is the set of allocated blocks. `Free` demands that its block is live, so a block that is freed twice, or
  that was never allocated, would be a verification error. `Heap.grants` is an arbitrary oracle: every result holds for
  every pattern of refused allocations.
- Array accesses are checked against the allocated length, so every write of the parser and the printer is in bounds.
- Whatever `cJSON_Delete` and the composing loops of `print_array` and `print_object` read is live when they read it, which
  is checked at those reads. Elsewhere reads are not guarded: the contracts demand trees whose blocks are live.
- Numbers are exact reals, and `long` has 64 bits, `int` 32.
- A string literal is *complete* when, up to its closing quote, every backslash in it is followed by a byte and every `\u`
  by four bytes from which `sscanf` reads a number: they begin with a hexadecimal digit, but not with `0x`, and none of them
  is a quote or a backslash (`CText.Complete`). Otherwise `parse_string` reads past the terminator, an unset variable, or
  past the quote and the buffer that it counted, or `sscanf` skips white space, a sign or `0x`; this is left open.
- A number overflows when its whole part does not fit in `long m` or the digits of its exponent not in `int subscale`
  (json/cJSON.c:107-113), which C leaves undefined.
- When the parser enters a literal that is not complete, or a number that overflows, the specification gives the outcome
  `Wild` with the start of that token (`JsonParse.IsWild`), and the methods exclude only such an outcome. What stands outside
  the tokens that the parser enters is arbitrary.
- The conversion `(int)n` of a number that `int` cannot hold stores an arbitrary `valueint` (`JsonNumber.IntOf`).
- How much a vector grows is left open (`ByteBuf.Growth`).
- A word of has-bits is a sequence of 32 booleans; the mask tests of the generated code are stated on its bits.
- Other threads are methods named `Others`, or arbitrary lists of steps. The fields `phases` and `installed` of
  `Heartbeat` record where the threads are and what was installed.
- The grammar of the parser has these liberties beyond RFC 8259 (`Legible` in `JsonLiteral` and `JsonNumeral`): white space
  is any byte up to 32; in strings, control bytes as they are, any byte behind a backslash, four bytes of which `sscanf`
  reads a number, and no closing quote at the end of the input; in numbers, a zero in front of other digits, a minus sign
  without digits, an exponent without digits. A number is read as long as it goes on (`JsonNumeral.Longest`), and what
  stands behind the first value is not looked at.

## Results that differ from what one might expect

- Surrogate pairs are combined with `|` instead of `+` (json/cJSON.c:184). The code point is right if and only if bit 6
  of the high surrogate is clear (`Utf8.PairIsRightIff`); D841 DC01 is a pair for which it is wrong.
- Of a string with single surrogates or escaped NULs these are dropped, and with a high surrogate the `\u` escape behind it,
  whatever that is (`JsonLiteral.StoredIsKept`).
- The whole part of a number is added up in `long m`, and the digits of the exponent in `int subscale`, without a test. A
  JSON text is accepted if and only if they can hold those of all its numbers (`JsonNumeral.CountersHold`,
  `JsonGrammar.DerivedRead`); otherwise the behaviour is undefined, as for 2^64 (`JsonRoundTrip.TwoTo64Overflows`).
- A JSON text is read as what it means if and only if its numbers fit in that sense, every surrogate in it is paired, no NUL
  is escaped, which would be dropped, and no high surrogate has bit 6 set (`JsonGrammar.TextRead`).
- `cJSON_GetErrorPtr` is documented as "defined when `cJSON_Parse()` returns 0" (json/cJSON.h:82). When an allocation was
  refused it is 0 all the same; otherwise the promise holds, in both directions (`JsonParser.Parser.Parse`).
- `cJSON_ReplaceItemInObject` loses the block of the name that the new item had, and nothing else; nothing is lost if and
  only if the name is not found or the new item had none (`JsonList.ReplaceItemInObject`). `cJSON_AddItemToObject` loses
  nothing.
- The 64 bytes of `print_number` (json/cJSON.c:137-140) are enough for `%.0f` of an integer if and only if it has at most 63
  digits, or 62 and a sign (`JsonNumber.FixedFitsIff`). The parser makes integers that are longer, as from `1e63`
  (`JsonRoundTrip.TooLongToPrint`).
- `cJSON_AddItemToObject` frees the old name of the item before it copies the new one (json/cJSON.c:491). Passing the item's
  own name would read a freed block; `JsonList.AddItemToObject` demands another one.
- `readLong` shifts 32-bit operands by 32 and more. It reads back what `writeLong` wrote if and only if the number is at
  least 0 and below 2^32 (`ByteBuf.LongRoundTrip`, `KitePacket.ParseContent`).
- If `char` has a sign, the length of an in-bound frame is read correctly if and only if its lowest octet is below 128
  (`Framing.SignedLengthIsRight`). The other framing results assume octets without a sign.
- `toByteBuf` leaves its loop in the first turn on a fresh packet, however vectors grow (`KitePacket.FirstWriteLeaves`).
  On a packet that was written before, it is left in some turn if and only if it is left in one of the first two, which
  depends on size and capacity of the buffer before the call and the size of the body (`KitePacket.LeavesIff`); with a
  `reserve` that makes room for exactly what is asked, and a header that fits, that is when the buffer was empty or had
  room for another frame already (`KitePacket.LeavesWithoutGrowth`). A packet whose second body is longer than the first by
  22 bytes or more turns forever (`KitePacket.SecondWriteHangs`). When a frame is written behind another one, what is
  sent is the new frame if and only if both are the same (`KitePacket.SentAfterOther`).
- `getAndIncrement` returns the incremented value (commons/Counter.hpp:35-38).
- Two live calls under one id: `ResponseFutureUsed` puts a call into the map if and only if no entry is there under its id
  (`ResponseFuture.RegisteredIff`), and a registered call that has no response and is not in the map never gets one (`ResponseFuture.NeverAnswered`,
  `ResponseFuture.SharedIdIsLost`). Besides, `getResponse` erases the entry of another call if that has its id now. The
  map stays right in a run if and only if neither happens (`ResponseFuture.RightThroughoutIff`). The other results about
  `ResponseFuture` assume distinct ids of live calls.

## Model

| member | source | states |
|---|---|---|
| Utf8.EncodeDecodes | json/cJSON.c:187-194 | decoding what the fall-through encoder emits (RFC 3629, section 3) gives back every code point from 1 to 0x10FFFF |
| Utf8.EncodeIsShortest | json/cJSON.c:187-194 | no byte sequence that decodes to the same code point is shorter |
| Utf8.CombineValue | json/cJSON.c:179-184 | what the OR of a surrogate pair computes: the code point of RFC 2781, section 2.2, less 0x10000 when bit 6 of the high surrogate is set |
| Utf8.PairIsRightIff | json/cJSON.c:179-194 | a pair is transcoded to the required code point exactly when bit 6 of the high surrogate is clear |
| Utf8.PairThatIsWrong | json/cJSON.c:184 | D841 DC01 is transcoded to U+10401 instead of U+20401 |
| JsonString.PassesAgree | json/cJSON.c:155-201 | both passes of the string parser stop at the same place, and the second stores at most as many bytes as the first counted |
| JsonString.CountIsExact | json/cJSON.c:215-240 | the first pass of the string printer counts exactly the bytes that the second writes |
| JsonNumber.PrintIntFits | json/cJSON.c:130-134 | the decimal text of an `int` and its terminator fit into the 21 bytes |
| JsonNumber.FixedFitsIff | json/cJSON.c:137-140 | exactly when the text that `%.0f` makes of an integer fits into 64 bytes |
| JsonParse.ParseString | json/cJSON.c:150-207 | the same for a string |
| JsonParse.ParseValue | json/cJSON.c:274-286 | on every text: each successful parse consumes at least one byte, an error position lies inside the input or at its terminator, and the behaviour is left open only for a literal with an incomplete escape or a number that overflows; what is accepted, and where it fails, are `JsonAccepts.AcceptedIff` and `JsonErrors.FailedIff` |
| JsonParse.ParseArray | json/cJSON.c:307-332 | the same for arrays |
| JsonParse.ParseObject | json/cJSON.c:386-419 | the same for objects |
| JsonParse.Parse | json/cJSON.c:259-267 | the same for a whole text; `JsonAccepts.ParsedIff` and `JsonErrors.FailedIff` say exactly when it is accepted or refused |
| JsonValue.ArrayFits | json/cJSON.c:350-381 | the length that `print_array` adds up covers brackets, separators, entries and the terminator |
| JsonValue.ObjectFits | json/cJSON.c:439-475 | the length that `print_object` adds up covers braces, tabs, separators, names, values and the terminator, at any depth and for both formats |
| JsonValue.PrintedIsText | json/cJSON.c:289-304 | printed text contains no NUL |
| JsonLiteral.TurnStores | json/cJSON.c:161-200 | one turn of the second pass consumes one character of a literal, whatever its form, and with a high surrogate a `\u` escape behind it; it stores the UTF-8 bytes, or nothing for a NUL or a surrogate outside a pair |
| JsonLiteral.LiteralComplete | json/cJSON.c:155-202 | every literal, of RFC 8259 or of the wider grammar, is complete, whatever stands behind it |
| JsonLiteral.FirstIsMeaning | json/cJSON.c:175-196 | what a turn stores is what was meant exactly when that is no escaped NUL and no pair whose high surrogate has bit 6 set |
| JsonLiteral.LiteralFaithful | json/cJSON.c:160-202 | what is stored for a literal without single surrogates is its meaning exactly when all its characters are of that kind |
| JsonLiteral.LiteralParsed | json/cJSON.c:150-207 | wherever a literal stands, of RFC 8259 or of the wider grammar, both passes stop at its own closing quote, or at the end of an input that leaves it open; the result is its meaning exactly when its surrogates are paired and its characters are of that kind |
| JsonLiteral.LiteralExists | json/cJSON.c:155-202 | the converse: wherever the escapes are complete, a literal of the wider grammar stands |
| JsonLiteral.StoredIsKept | json/cJSON.c:174-182 | for every literal whatever: single surrogates and escaped NULs are dropped, with a high surrogate also a `\u` escape behind it, and what is stored is the meaning of the rest exactly when bit 6 of its high surrogates is clear |
| JsonLiteral.LiteralCounted | json/cJSON.c:155 | the first pass counts one for a byte or a short escape and five for a `\u` escape |
| JsonLiteral.WellFormedIsLegible | json/cJSON.c:172 | the characters of RFC 8259 are among those of the wider grammar, and `sscanf` reads four hexadecimal digits as their number |
| JsonNumeral.ScanTenths | json/cJSON.c:110 | the loop over the fraction computes whole * 10^digits + fraction and the scale -digits |
| JsonNumeral.MeaningIs | json/cJSON.c:116 | sign * n * 10^(scale + exponent) is sign * (whole + fraction / 10^digits) * 10^exponent |
| JsonNumeral.NumeralParsed | json/cJSON.c:100-123 | a number of the wider grammar that nothing extends overflows a counter exactly if its whole part is 2^63 or more or the digits of its exponent are 2^31 or more; otherwise it is read to its end, with the value it means |
| JsonNumeral.LongestIff | json/cJSON.c:104-114 | nothing behind a number extends it if and only if it is the longest number that stands there |
| JsonNumeral.LongestExists | json/cJSON.c:104-114 | where a minus sign or a digit stands, there is a longest number |
| JsonGrammar.StringRead | json/cJSON.c:150-207 | a derived string, closed or left open by the input, is read to its end |
| JsonGrammar.DerivedRead | json/cJSON.c:274-419 | whatever the grammar of RFC 8259, or the wider one, derives, at any depth, with white space around every token and numbers that are not cut short, `parse_value` reads to its end and as the value of the derivation if and only if no number overflows |
| JsonGrammar.ArrayRead | json/cJSON.c:307-332 | the same for arrays |
| JsonGrammar.ObjectRead | json/cJSON.c:386-419 | the same for objects |
| JsonGrammar.MeaningIff | json/cJSON.c:175-196 | the value of a derivation, which is what is read unless a number overflows, is its meaning exactly when in every string the surrogates are paired, no NUL is escaped and no high surrogate has bit 6 set |
| JsonGrammar.TextRead | json/cJSON.c:259-267 | `cJSON_Parse` accepts a JSON text exactly if no number overflows, and gives what it means exactly if, besides, the strings meet that condition |
| JsonAccepts.AcceptedIff | json/cJSON.c:274-419 | `parse_value` accepts a text from one position to another as a value if and only if the wider grammar derives the text in between as that value, with numbers that the counters hold and that are not cut short |
| JsonAccepts.ValueDerived | json/cJSON.c:274-286 | the converse of `DerivedRead`: whatever is accepted was derived |
| JsonAccepts.ArrayDerived | json/cJSON.c:307-332 | the same for arrays |
| JsonAccepts.ObjectDerived | json/cJSON.c:386-419 | the same for objects |
| JsonAccepts.EntryDerived | json/cJSON.c:395-402 | a member that is accepted is a name, a colon and a value |
| JsonAccepts.Begins | json/cJSON.c:277-285 | a value that is accepted begins with one of the three words, a quote, a minus sign, a digit or an opening bracket |
| JsonAccepts.FailsOnlyIf | json/cJSON.c:285 | where the parser fails, nothing can be derived |
| JsonAccepts.ParsedIff | json/cJSON.c:259-267 | `cJSON_Parse` accepts a text as a value if and only if it begins with white space and something that is derived as that value, with numbers that the counters hold; and when it refuses a text, nothing can be derived |
| JsonErrors.FailureReported | json/cJSON.c:285-419 | whatever goes wrong at a position behind parts that are right is reported at that position |
| JsonErrors.FailureDescribed | json/cJSON.c:285-419 | and only that: at the reported position no value begins, or no name, or no colon, or neither a comma nor the closing bracket stands, whichever would have to, and everything in front of it is derived |
| JsonErrors.FailedIff | json/cJSON.c:259-267 | both for `cJSON_Parse`: it refuses a text and sets `ep` to a position if and only if the text goes wrong there |
| JsonRoundTrip.PrintedDerives | json/cJSON.c:289-477 | wherever printed text stands, the grammar of RFC 8259 (not only the wider one) derives it, formatted or not, as the tree it was printed from |
| JsonRoundTrip.PrintedMeans | json/cJSON.c:270-271 | the output of `cJSON_Print` and `cJSON_PrintUnformatted` is a JSON text that means the tree |
| JsonRoundTrip.LiteralOf | json/cJSON.c:220-241 | the escaped form of a string is a literal of RFC 8259 that means the string; a `\u` escape has lower-case digits and stands only for a control byte without a short form |
| JsonShortest.Shortest | json/cJSON.c:220-241 | no literal of RFC 8259 that means a string is shorter than what is printed for it, and one that is as long and has lower-case digits is what is printed |
| JsonRoundTrip.NumeralOf | json/cJSON.c:130-134 | the decimal text of an integer is a number of the grammar, without leading zeros, fraction or exponent and with a minus sign only if it is negative, that means it |
| JsonLayout.ArrayText | json/cJSON.c:371-382 | an array is printed as its items in brackets, with a comma, and formatted a comma and a space, between each two |
| JsonLayout.ObjectText | json/cJSON.c:460-476 | unformatted, an object is printed as its members in braces, with a comma between each two |
| JsonLayout.ObjectLines | json/cJSON.c:460-476 | formatted, every member stands in a line of its own, indented by a tab for every level, with a tab behind the colon; the closing brace is indented as the object is |
| JsonRoundTrip.ParsePrintString | json/cJSON.c:150-243 | `parse_string` on a printed string gives the string back and stops just past the closing quote, whatever follows |
| JsonRoundTrip.ParsePrintInt | json/cJSON.c:100-134 | a printed integer, followed by anything that cannot extend a number, is read back as that number if it is above -2^63 and below 2^63, and overflows otherwise |
| JsonRoundTrip.TwoTo64Overflows | json/cJSON.c:107-108 | the text of 2^64 overflows |
| JsonRoundTrip.TooLongToPrint | json/cJSON.c:100-140 | `1e63` is read as an integer whose text does not fit in 64 bytes |
| JsonRoundTrip.ParsePrintValue | json/cJSON.c:274-477 | wherever printed text stands in an input, the parser reads the tree it was printed from and stops right behind it, if and only if `long` can hold its numbers |
| JsonRoundTrip.RoundTrip | json/cJSON.c:274-477 | printing a tree of integers that fit in the print buffer and non-null strings, and parsing the text with any continuation that cannot extend a number, gives the tree and leaves exactly the continuation, if and only if `long` can hold the integers |
| JsonRoundTrip.ParsePrint | json/cJSON.c:259-271 | `cJSON_Parse` of `cJSON_Print` and of `cJSON_PrintUnformatted` is the tree, under that condition |
| JsonRoundTrip.PrintIsInjective | json/cJSON.c:270-271 | different trees print differently, if `long` can hold the integers of one |
| CHeap.Strdup | json/cJSON.c:53-62 | a copy of the string in one new block, or null and no new block |
| CHeap.Heap.NewItem | json/cJSON.c:77-82 | a zeroed node in one new block, or null and no new block |
| CHeap.Heap.Free | json/cJSON.c:50-51 | only a live block may be freed, and it is not live afterwards |
| JsonTree.SeparatePrefix | json/cJSON.c:85-97 | what one sibling owns is disjoint from what the siblings before it own |
| JsonTree.WfAllKept | json/cJSON.c:485-505 | trees stay well-formed when only links between siblings change |
| JsonDelete.Delete | json/cJSON.c:85-97 | a list of siblings is freed with everything it owns, each block once and none read after that, and nothing else |
| JsonScanner.EncodeInto | json/cJSON.c:187-195 | the fall-through switch writes the encoding of the code point and moves behind it |
| JsonScanner.Transcode | json/cJSON.c:175-196 | one `\u` escape, or surrogate pair, is read and stored as the specification says |
| JsonScanner.CountPass | json/cJSON.c:155 | the counting loop computes the specified length and end |
| JsonScanner.FillPass | json/cJSON.c:160-202 | the filling loop stays inside the counted buffer and stores the unescaped, NUL-free string with its terminator |
| JsonParser.Parser.ParseStringInto | json/cJSON.c:150-207 | refines the string specification; a refused allocation leaves the node, `ep` and the heap as they were |
| JsonParser.Parser.ParseNumberInto | json/cJSON.c:100-123 | unless a counter overflows: position and value as specified, without overflow on the way; `valueint` is the truncated value if `int` can hold it |
| JsonParser.Parser.ParseValueInto | json/cJSON.c:274-286 | the node becomes a well-formed tree that owns exactly the new blocks, whether parsing succeeds, fails or runs out of memory; without a refusal the result and `ep` are the specified ones |
| JsonParser.Parser.ParseArrayInto | json/cJSON.c:307-332 | the same for arrays: children are linked before they are parsed |
| JsonParser.Parser.MoreElements | json/cJSON.c:321-331 | the loop over further elements |
| JsonParser.Parser.ParseObjectInto | json/cJSON.c:386-419 | the same for objects: the parsed string becomes the name |
| JsonParser.Parser.MoreMembers | json/cJSON.c:404-418 | the loop over further members |
| JsonParser.Parser.Parse | json/cJSON.c:259-267 | unless a literal with an incomplete escape, or a number that overflows, is entered: null is returned exactly when an allocation was refused or `ep` is set, and then everything allocated has been freed; otherwise the blocks of the result are exactly the new ones |
| JsonPrinter.CountEscaped | json/cJSON.c:215 | the counting loop of the string printer is exact |
| JsonPrinter.FillEscaped | json/cJSON.c:220-241 | the buffer of `len+3` bytes is filled exactly with the quoted, escaped string, which is the shortest one by `JsonShortest.Shortest` |
| JsonPrinter.PrintStringPtr | json/cJSON.c:210-243 | one new buffer with the printed string, or null and no new block; a null string prints as the empty text |
| JsonPrinter.PrintNumber | json/cJSON.c:126-139 | one new buffer, of 21 or of 64 bytes, with the decimal text, or null and no new block |
| JsonPrinter.OwnTreeShows | json/cJSON.c:289-304 | a tree that owns all its parts can be printed |
| JsonPrinter.PrintNode | json/cJSON.c:289-304 | exactly one new live buffer, which holds the printed text, or none when an allocation was refused; parts of the tree may be shared |
| JsonPrinter.PrintArray | json/cJSON.c:335-383 | the same for arrays; all entries and the pointer array are freed on every path |
| JsonPrinter.PrintChildren | json/cJSON.c:349-356 | the collecting loop stops at the first failure; what it collected and the length are as specified |
| JsonPrinter.ComposeArray | json/cJSON.c:371-381 | composing stays inside the buffer, produces the text of the array and frees every entry once |
| JsonPrinter.PrintObject | json/cJSON.c:422-477 | the same for objects; all names, values and both pointer arrays are freed on every path |
| JsonPrinter.PrintPairs | json/cJSON.c:438-446 | the collecting loop goes on after a failure |
| JsonPrinter.ComposeObject | json/cJSON.c:460-475 | composing stays inside the buffer, produces the text of the object and frees names and values once |
| JsonEndToEnd.Print | json/cJSON.c:270-271 | the public printing functions |
| JsonEndToEnd.ReferenceShows | json/cJSON.c:487 | what a reference node shows is the value of the tree it refers to |
| JsonEndToEnd.PrintReference | json/cJSON.c:270-487 | a reference prints as the tree it refers to |
| JsonEndToEnd.PrintParseDelete | json/cJSON.c:85-477 | printing a tree of integers that `long` can hold, parsing the text and deleting the copy leaves the heap as it was under every pattern of refusals, and without a refusal the copy equals the tree |
| JsonEndToEnd.ParseDerived | json/cJSON.c:259-267 | the parsing method, without a refused allocation: there is a tree exactly if the text begins with a derivation, and then the tree is its value; there is none exactly if `ep` stands where the text goes wrong |
| JsonList.GetArraySize | json/cJSON.c:480 | the number of children |
| JsonList.GetArrayItem | json/cJSON.c:481 | the child at an index, null behind the end; a negative index counts as 0 |
| JsonList.StrCaseCmp | json/cJSON.c:43-48 | whether two strings differ apart from the case of letters; null equals null only |
| JsonList.SameNameIff | json/cJSON.c:43-48 | names are the same exactly if they are as long and differ at most between letters whose codes differ by 32, or are both null |
| JsonList.Find | json/cJSON.c:482-505 | the first member whose name matches, or the end |
| JsonList.FindIs | json/cJSON.c:482-505 | there is only one such position |
| JsonList.AddedFound | json/cJSON.c:482-491 | an added member is found by its name unless an earlier one has that name |
| JsonList.ReplacedFound | json/cJSON.c:482-505 | the replacement of the member found under a name is found under that name |
| JsonList.RemovedFound | json/cJSON.c:482-499 | after a removal by name, the next member with that name is found |
| JsonList.GetObjectItem | json/cJSON.c:482 | the first child whose name matches |
| JsonList.SuffixObject | json/cJSON.c:485 | the two assignments append to a list whose links are mutually inverse and null at both ends |
| JsonList.Unlink | json/cJSON.c:495-496 | the pointer surgery of Detach deletes one position of such a list |
| JsonList.LinkInstead | json/cJSON.c:502-504 | the pointer surgery of Replace updates one position of such a list |
| JsonList.AddItemToArray | json/cJSON.c:490 | append: the parent stays a well-formed tree, now with the item's blocks |
| JsonList.DetachItemFromArray | json/cJSON.c:495-496 | delete-at: parent and detached child are well-formed trees that share nothing |
| JsonList.DeleteItemFromArray | json/cJSON.c:497 | delete-at, and exactly the blocks of that child are freed |
| JsonList.DetachItemFromObject | json/cJSON.c:498 | Detach at the first child whose name matches |
| JsonList.DeleteItemFromObject | json/cJSON.c:499 | Delete at the first child whose name matches |
| JsonList.ReplaceItemInArray | json/cJSON.c:502-504 | update-at, and exactly the blocks of the old child are freed |
| JsonList.ReplaceItemInObject | json/cJSON.c:505 | update at the first child whose name matches; of the blocks that belong to nobody, only the old name of the new item is added; none is added exactly when the name is not found or the new item had none |
| JsonList.AddItemToObject | json/cJSON.c:491 | append under a copy of the key, which is not the item's own name; the blocks that belong to nobody stay the same; the name is null when the copy was refused |
| JsonList.CreateReference | json/cJSON.c:487 | a loose node that owns only itself and shows the fields of the item |
| JsonList.AddItemReferenceToArray | json/cJSON.c:492 | append of a reference: one new block, and the item stays as it was |
| JsonList.ValuesWithout | json/cJSON.c:495-499 | Detach and Delete remove one value of the represented array or member of the object |
| JsonList.Instead | json/cJSON.c:502-505 | Replace exchanges one value of the represented array or member of the object |
| Varint.DecodeEncode | protocol/protobuf/generated/kite_remoting.pb.cc:3960-3962 | every 64-bit number is read back from its varint, whatever follows |
| Varint.EncodeAt | protocol/protobuf/generated/kite_remoting.pb.cc:4205-4207 | the i-th byte of a varint holds the i-th group of seven bits of the number; exactly the bytes before the last have the high bit; the last is zero only for zero |
| Varint.DecodeIs | protocol/protobuf/generated/kite_remoting.pb.cc:3960-3962 | on any bytes: a varint ends at the first byte without the high bit, if that is among the first ten, and is the sum of its groups of seven bits modulo 2^64; otherwise there is none |
| Varint.DecodeLocal | protocol/protobuf/generated/kite_remoting.pb.cc:3960-3962 | reading a varint depends on its own bytes only |
| Varint.SizeIs | protocol/protobuf/generated/kite_remoting.pb.cc:4281-4283 | the size by thresholds is the number of bytes |
| Varint.SignedUnsigned | protocol/protobuf/generated/kite_remoting.pb.cc:4281-4291 | 64-bit and 32-bit integers survive the unsigned form; a negative one takes ten bytes |
| Varint.SignedIs | protocol/protobuf/generated/kite_remoting.pb.cc:3960-3977 | an `int64` is congruent to the varint modulo 2^64 and an `int32` modulo 2^32, whatever is read |
| Wire.ReadWrite | protocol/protobuf/generated/kite_remoting.pb.cc:3901-3904 | a written record, groups included, is read back, whatever follows |
| Wire.ReadIsCanonical | protocol/protobuf/generated/kite_remoting.pb.cc:4066-4074 | whatever the bytes are, a record that is read has a tag, a wire type and lengths in range |
| Wire.ReadLocal | protocol/protobuf/generated/kite_remoting.pb.cc:3901-4074 | reading a record, groups included, does not look past its last byte |
| Wire.WriteNoLonger | protocol/protobuf/generated/kite_remoting.pb.cc:3901-4074 | a record that was read is written in no more bytes |
| Wire.ParseWritten | protocol/protobuf/generated/kite_remoting.pb.cc:3901-4077 | parsing written records applies them one after the other |
| WireRoundTrip.EntryInFront | protocol/protobuf/generated/kite_remoting.pb.cc:3419-3621 | a serialized entry in front of other bytes acts as `MergeFrom` |
| WireRoundTrip.EntryRoundTrip | protocol/protobuf/generated/kite_remoting.pb.cc:3419-3545 | parsing a serialized entry gives it back |
| WireRoundTrip.HeaderInFront | protocol/protobuf/generated/kite_remoting.pb.cc:3896-4434 | a serialized header in front of other bytes acts as `MergeFrom`, properties and unknown fields included |
| WireRoundTrip.HeaderRoundTrip | protocol/protobuf/generated/kite_remoting.pb.cc:3896-4253 | parsing a serialized header gives it back |
| WireRoundTrip.HeaderMergeLaw | protocol/protobuf/generated/kite_remoting.pb.cc:4393-4434 | two serialized headers back to back parse as the merge |
| WireRoundTrip.EmbeddedHeader | protocol/protobuf/generated/kite_remoting.pb.cc:2948-2955 | an embedded header is merged into the one that is there |
| WireRoundTrip.StringRoundTrip | protocol/protobuf/generated/kite_remoting.pb.cc:5341-5455 | round trip of `StringMessage` |
| WireRoundTrip.StringMergeLaw | protocol/protobuf/generated/kite_remoting.pb.cc:5516-5530 | merge law of `StringMessage`, embedded header included |
| WireRoundTrip.TxRoundTrip | protocol/protobuf/generated/kite_remoting.pb.cc:2937-3076 | round trip of `TxACKPacket` |
| WireRoundTrip.TxMergeLaw | protocol/protobuf/generated/kite_remoting.pb.cc:3149-3166 | merge law of `TxACKPacket` |
| WireOrder.Reorder | protocol/protobuf/generated/kite_remoting.pb.cc:3901-4077 | two orders of records that agree on every field have the same effect |
| WireOrder.HeaderCommutes | protocol/protobuf/generated/kite_remoting.pb.cc:3905-4074 | records of different fields of a header commute |
| WireOrder.HeaderOrder | protocol/protobuf/generated/kite_remoting.pb.cc:3896-4085 | reordering the bytes of records of different fields, however their numbers are encoded, does not change the parsed header, whether parsing succeeds or not |
| WireOrder.PropertyIsValid | protocol/protobuf/generated/kite_remoting.pb.cc:3419-3592 | a property that was parsed is serialized in no more bytes than it was read from |
| WireOrder.HeaderIsValid | protocol/protobuf/generated/kite_remoting.pb.cc:3896-4085 | whatever the bytes are, a header that was parsed can be written |
| WireOrder.HeaderReparse | protocol/protobuf/generated/kite_remoting.pb.cc:3896-4253 | serializing what was parsed from any bytes, and parsing again, gives the same header |
| HeaderChain.ParseIs | protocol/protobuf/generated/kite_remoting.pb.cc:3901-3904 | the plain loop, seen from `ReadTagWithCutoff` |
| HeaderChain.Expected | protocol/protobuf/generated/kite_remoting.pb.cc:3918 | a tag that `ExpectTag` accepts is the tag that the loop would read |
| HeaderChain.MergePartialEntry | protocol/protobuf/generated/kite_remoting.pb.cc:3419-3482 | the chain of `Entry` does what the plain loop does on every byte string |
| HeaderObject.HeaderObject.constructor | protocol/protobuf/generated/kite_remoting.pb.cc:3787-3817 | an empty header with its defaults |
| HeaderObject.HeaderObject.Clear | protocol/protobuf/generated/kite_remoting.pb.cc:3858-3894 | whatever is set, the empty header with its defaults |
| HeaderObject.HeaderObject.MergeFrom | protocol/protobuf/generated/kite_remoting.pb.cc:4393-4434 | the fields become those of the merge; both has-bit tests skip nothing that is set |
| HeaderObject.HeaderObject.IsInitialized | protocol/protobuf/generated/kite_remoting.pb.cc:4448-4453 | all eight required fields are set, and both fields of every property |
| HeaderObject.HeaderObject.Fall | protocol/protobuf/generated/kite_remoting.pb.cc:3918-4062 | jumping to the code behind the expected tag, or back to the loop, leaves the same work |
| HeaderObject.HeaderObject.TextTurn | protocol/protobuf/generated/kite_remoting.pb.cc:3907-4001 | the code of the string fields does what the plain loop does with that record |
| HeaderObject.HeaderObject.NumberTurn | protocol/protobuf/generated/kite_remoting.pb.cc:3957-4063 | the same for the fields with a number |
| HeaderObject.HeaderObject.PropertyTurn | protocol/protobuf/generated/kite_remoting.pb.cc:4034-4048 | the same for one property, also inside `parse_loop_properties` |
| HeaderObject.HeaderObject.TopTurn | protocol/protobuf/generated/kite_remoting.pb.cc:3901-4074 | the dispatch on tags, with wrong wire types, tags above 127 and unknown fields |
| HeaderObject.HeaderObject.MergePartialFromCodedStream | protocol/protobuf/generated/kite_remoting.pb.cc:3896-4085 | on every byte string the chain ends as the plain loop does, with the same fields |
| HeaderObject.HeaderObject.RequiredFieldsByteSizeFallback | protocol/protobuf/generated/kite_remoting.pb.cc:4255-4311 | the bytes of the required fields that are set |
| HeaderObject.HeaderObject.ByteSize | protocol/protobuf/generated/kite_remoting.pb.cc:4312-4379 | on both paths, the number of bytes that serialization writes; all caches hold the right sizes |
| HeaderObject.HeaderObject.SerializeWithCachedSizesToArray | protocol/protobuf/generated/kite_remoting.pb.cc:4168-4253 | after `ByteSize`, exactly the specified bytes are written behind the target position; `WireLayout.HeaderBytes` says which they are |
| WireLayout.HeaderBytes | protocol/protobuf/generated/kite_remoting.pb.cc:4168-4253 | the bytes of a header: every field that is set, in the order of the field numbers of the schema, as the key 8 * number + wire type and the length and bytes, the number modulo 2^64 or 0 or 1; the unknown records behind them |
| WireLayout.EntryBytes | protocol/protobuf/generated/kite_remoting.pb.cc:3514-3545 | the same for an entry |
| WireLayout.StringMessageBytes | protocol/protobuf/generated/kite_remoting.pb.cc:5428-5455 | the same for a `StringMessage` |
| WireLayout.TxBytes | protocol/protobuf/generated/kite_remoting.pb.cc:3044-3076 | the same for a `TxACKPacket` |
| WireLayout.HeaderTextRead | protocol/protobuf/generated/kite_remoting.pb.cc:3901-4015 | a string field in front of any bytes sets the field with that number and nothing else |
| WireLayout.HeaderNumberRead | protocol/protobuf/generated/kite_remoting.pb.cc:3953-4063 | a varint field sets the number with that field number: modulo 2^64 or 2^32, or whether it is not zero |
| WireLayout.HeaderPropertyRead | protocol/protobuf/generated/kite_remoting.pb.cc:4033-4047 | a property is appended if it is an entry by itself, and parsing fails otherwise |
| WireLayout.HeaderUnknownRead | protocol/protobuf/generated/kite_remoting.pb.cc:4066-4074 | any other number or wire type: the record is kept as it is |
| WireSize.HeaderSizeIs | protocol/protobuf/generated/kite_remoting.pb.cc:4312-4379 | the size of a serialized header, field by field |
| WireSize.EntrySizeIs | protocol/protobuf/generated/kite_remoting.pb.cc:3547-3592 | the size of a serialized entry, field by field |
| WireSize.StringMessageSizeIs | protocol/protobuf/generated/kite_remoting.pb.cc:5457-5502 | the size of a serialized `StringMessage` |
| WireSize.TxSizeIs | protocol/protobuf/generated/kite_remoting.pb.cc:3078-3135 | the size of a serialized `TxACKPacket` |
| WireOutput.EntryByteSize | protocol/protobuf/generated/kite_remoting.pb.cc:3547-3592 | both paths of `Entry::ByteSize` give the size of the serialized entry |
| WireOutput.PutEntry | protocol/protobuf/generated/kite_remoting.pb.cc:3514-3545 | exactly the serialized entry is written |
| WireOutput.PropertiesOut | protocol/protobuf/generated/kite_remoting.pb.cc:4235-4240 | the loop writes every property behind its tag and its cached size |
| HeaderObject.HeaderObject.Of | protocol/protobuf/generated/kite_remoting.pb.cc:3787-3817 | a header object with given fields |
| MessageObject.PutHeader | protocol/protobuf/generated/kite_remoting.pb.cc:5426-5436 | an embedded header is written behind its tag and its cached size |
| MessageObject.StringMessageObject.MergePartialFromCodedStream | protocol/protobuf/generated/kite_remoting.pb.cc:5341-5400 | the chain of `StringMessage`, which merges into the embedded header object, does what the plain loop does on every byte string |
| MessageObject.StringMessageObject.ByteSize | protocol/protobuf/generated/kite_remoting.pb.cc:5457-5502 | both paths give the size of the serialized message, and the cache of the embedded header is filled |
| MessageObject.StringMessageObject.SerializeWithCachedSizesToArray | protocol/protobuf/generated/kite_remoting.pb.cc:5428-5455 | after `ByteSize`, exactly the specified bytes are written behind the target position |
| MessageObject.TxAckObject.MergePartialFromCodedStream | protocol/protobuf/generated/kite_remoting.pb.cc:2937-3011 | the chain of `TxACKPacket` does what the plain loop does on every byte string |
| MessageObject.TxAckObject.ByteSize | protocol/protobuf/generated/kite_remoting.pb.cc:3078-3135 | both paths give the size of the serialized message, and the cache of the embedded header is filled |
| MessageObject.TxAckObject.SerializeWithCachedSizesToArray | protocol/protobuf/generated/kite_remoting.pb.cc:3044-3076 | after `ByteSize`, exactly the specified bytes are written behind the target position |
| ByteBuf.ShortRoundTrip | commons/ByteBuf.hpp:39-44 | `readShort` reads back what `writeShort` wrote |
| ByteBuf.ShortIs | commons/ByteBuf.hpp:39-44 | `readShort` is congruent to 256 * first octet + second octet modulo 2^16 |
| ByteBuf.IntIs | commons/ByteBuf.hpp:45-52 | `readInt` is congruent to the octets, weighted from the first to the last by 2^24, 2^16, 2^8 and 1, modulo 2^32 |
| ByteBuf.IntRoundTrip | commons/ByteBuf.hpp:45-52 | `readInt` reads back what `writeInt` wrote |
| ByteBuf.LongIsShort | commons/ByteBuf.hpp:53-64 | what `readLong` returns has 32 bits, whatever the shifts by 32 and more give |
| ByteBuf.LongRoundTrip | commons/ByteBuf.hpp:53-64 | `readLong` reads back what `writeLong` wrote exactly for numbers from 0 to below 2^32 |
| ByteBuf.ByteBuf.WriteShort | commons/ByteBuf.hpp:84-91 | appends two octets: the first is the number divided by 256 and rounded down, modulo 256, the second the number modulo 256 |
| ByteBuf.ByteBuf.WriteInt | commons/ByteBuf.hpp:92-103 | appends four octets, highest first: the word there is the number modulo 2^32 |
| ByteBuf.ByteBuf.WriteLong | commons/ByteBuf.hpp:104-123 | appends eight octets, highest first: the two words there are the number divided by 2^32 and the number, modulo 2^32 |
| ByteBuf.ByteBuf.WriteBytes | commons/ByteBuf.hpp:124-133 | appends the first bytes, none for a count that is not positive |
| ByteBuf.ByteBuf.NextInt | commons/ByteBuf.hpp:71-78 | reads the number behind the reader index and moves it by four |
| ByteBuf.ByteBuf.Resize | commons/ByteBuf.hpp:139-142 | the capacity becomes that of `reserve`, and stays when it is large enough |
| ByteBuf.PushedTwice | commons/ByteBuf.hpp:79-133 | the capacity after pushing some bytes and then more is that after pushing all of them |
| KitePacket.KitePacket.ToByteBuf | protocol/KitePacket.cpp:61-89 | whenever the loop is left: the frame, with consistent lengths, is appended to the buffer, every field at its place with the highest octet first (`LaidOut`), the capacity is known, and as many bytes as the frame has are sent from the front of the buffer |
| KitePacket.FrameIff | protocol/KitePacket.cpp:68-83 | a frame is what has the length, the identifier, the command, the version, the extension, the length of the body and the body at offsets 0, 4, 8, 9, 11, 19 and 23, and nothing else is |
| KitePacket.KitePacket.BodyTurn | protocol/KitePacket.cpp:73-86 | a turn of the loop serializes the message, appends it and leaves, or finds no room and only makes the capacity grow |
| KitePacket.FirstWriteLeaves | protocol/KitePacket.cpp:63-86 | on a fresh packet the loop is left in its first turn |
| KitePacket.LeavesIff | protocol/KitePacket.cpp:63-86 | some turn finds room if and only if one of the first two does, in terms of the buffer before the call |
| KitePacket.LeavesWithoutGrowth | protocol/KitePacket.cpp:63-86 | with an exact `reserve` and a header that fits: if and only if the buffer was empty or has room for another frame |
| KitePacket.SecondWriteHangs | protocol/KitePacket.cpp:63-86 | a second body that is longer by 22 bytes or more never finds room |
| KitePacket.SentAfterOther | protocol/KitePacket.cpp:87-88 | what is sent after a second write is the new frame if and only if both frames are the same |
| KitePacket.SerializeToArray | protocol/KitePacket.cpp:80-81 | exactly the specified bytes, written by the generated writers after the sizes were cached |
| KitePacket.ParseFromArray | protocol/KitePacket.cpp:125-150 | the generated parsers build the message that the plain loop builds |
| KitePacket.KitePacket.ParseFrom | protocol/KitePacket.cpp:113-159 | the packet is set from a frame whose body fits and whose command is known, and unchanged otherwise |
| KitePacket.ParsedFrom | protocol/KitePacket.cpp:113-159 | on any frame: there is a packet exactly if the command is one of six and the body is inside the frame, whatever stands behind it; its fields are the octets at offsets 0, 4, 5, 7 and 15 |
| KitePacket.BodyOf | protocol/KitePacket.cpp:125-150 | which message a command stands for; a message whose parsing only stops early is used all the same |
| KitePacket.MessageByteSize | protocol/KitePacket.cpp:63 | the size that the generated code computes is the number of bytes that are serialized |
| KitePacket.ParseBodyOfMessage | protocol/KitePacket.cpp:125-150 | the body of a packet is parsed back to its message |
| KitePacket.ParseContent | protocol/KitePacket.cpp:61-159 | `parseFrom` returns the packet that was written exactly when the extension is from 0 to below 2^32 |
| Framing.SignedLengthIsRight | remoting/inc/asioSession.hpp:134 | with a signed `char` the length of an in-bound frame is right exactly when its lowest octet is below 128 |
| Framing.Continue | remoting/inc/asioSession.hpp:106-174 | what is delivered does not depend on how the stream is cut into pieces |
| Framing.ItemIsFrame | remoting/inc/asioSession.hpp:106-174 | a sent packet, or an in-bound frame that is rejected, whatever its body length says, is one frame of the stream |
| Framing.SentIsDelivered | remoting/inc/asioSession.hpp:106-174 | frames sent back to back are delivered as the same packets in order; rejected frames are skipped and nothing is left over |
| Framing.AsioSession.LengthArrives | remoting/inc/asioSession.hpp:106-138 | reading the length keeps the bytes of the frame that is being read |
| Framing.AsioSession.DataArrives | remoting/inc/asioSession.hpp:144-174 | the handler gets the packet of the frame or, for a rejected one, nothing, and the buffer is empty; a frame that is too long repeats the packet before and stays in the buffer |
| Framing.AsioSession.Receive | remoting/inc/asioSession.hpp:82-174 | whatever arrives, the handler gets the packets of exactly the frames that are complete, and the buffer is empty between frames |
| Framing.Exchange | remoting/inc/asioSession.hpp:50-174 | packets written by `toByteBuf` and received come out the same, in the same order |
| Counter.Counter.Inc | commons/Counter.hpp:31-38 | the counter grows by one and is returned |
| Counter.Counter.CompareAndSet | commons/Counter.hpp:57-65 | the counter is set exactly when it has the expected value |
| Counter.Counter.GetCountChange | commons/Counter.hpp:40-48 | among other threads: it takes everything that was not taken before, and leaves zero |
| Counter.Conservation | commons/Counter.hpp:31-65 | in every interleaving, what resets took and what is left are together the increments |
| Counter.FailedReset | commons/Counter.hpp:40-48 | a reset that fails was disturbed by another thread |
| Heartbeat.Heartbeat.SetNextHeartbeatTime | remoting/asioKiteIOClient.cpp:40-47 | among any steps of other threads: the call is a run of the atomic steps and ends; the time is then what it was or the argument of a call, at least its own argument and what it was, and exactly the greater one of both when others do nothing |
| Heartbeat.LockFreeMaximum | remoting/asioKiteIOClient.cpp:40-47 | in every interleaving the time is the maximum of the first one and the installed ones, at least that of every returned call, and greater than read when a compare-and-set fails |
| Heartbeat.NeverDecreases | remoting/asioKiteIOClient.cpp:40-47 | the time never decreases |
| Heartbeat.FewFailures | remoting/asioKiteIOClient.cpp:40-47 | a call fails less often than its time exceeds the first one |
| Heartbeat.InstalledGrow | remoting/asioKiteIOClient.cpp:40-47 | every installed time exceeds the one before; the last one is the current time |
| Heartbeat.InstalledWasCalled | remoting/asioKiteIOClient.cpp:40-47 | in every interleaving, every installed time is the argument of a call |
| Heartbeat.InstalledIsCalled | remoting/asioKiteIOClient.cpp:40-47 | the same from any state, for what is installed since, the current time and what the threads hold |
| ResponseFuture.StepKeeps | remoting/ResponseFuture.cpp:29-74 | every step keeps the invariant of map, promises and ids |
| ResponseFuture.Always | remoting/ResponseFuture.cpp:29-74 | in every interleaving with distinct live ids the map holds exactly the registered calls that are neither answered nor expired |
| ResponseFuture.EmptyWhenIdle | remoting/ResponseFuture.cpp:38-74 | the map is empty whenever no call is outstanding |
| ResponseFuture.OwnResponse | remoting/ResponseFuture.cpp:38-74 | each promise is set at most once, and a call returns only a response with its own id |
| ResponseFuture.LateResponse | remoting/ResponseFuture.cpp:68-73 | a response between the failed `has_value` and the erasure leaves no trace in the map |
| ResponseFuture.Answered | remoting/ResponseFuture.cpp:38-69 | a registered call that is sent a response before its test returns exactly that response, whatever others do in between |
| ResponseFuture.RegisteredIff | remoting/ResponseFuture.cpp:29-36 | a call is put into the map if and only if no entry is there under its id |
| ResponseFuture.WeakAlways | remoting/ResponseFuture.cpp:29-74 | whatever the ids are, entries are calls that wait under that id, and promises are set at most once and with the own id |
| ResponseFuture.NeverAnswered | remoting/ResponseFuture.cpp:29-74 | a registered call that is not in the map gets no response in any continuation |
| ResponseFuture.SpoilsIff | remoting/ResponseFuture.cpp:29-74 | the map stays right in a step if and only if that neither registers under a taken id nor erases the entry of another call |
| ResponseFuture.RightThroughoutIff | remoting/ResponseFuture.cpp:29-74 | the map is right throughout a run, with any ids, if and only if no step of the run spoils it |
| ResponseFuture.RegisteredRunIff | remoting/ResponseFuture.cpp:29-36 | as long as calls are made and registered, every call is in the map if and only if no two registered ones share an id |
| ResponseFuture.SharedIdIsLost | remoting/ResponseFuture.cpp:29-50 | two live calls with one id: the second is not registered and gets nothing |
| ResponseFuture.Futures.ResponseFutureUsed | remoting/ResponseFuture.cpp:29-36 | the call is registered, and the invariant is kept |
| ResponseFuture.Futures.ReceiveResponse | remoting/ResponseFuture.cpp:38-50 | the entry is erased and the promise set, in one step |
| ResponseFuture.Futures.HasValue | remoting/ResponseFuture.cpp:66-69 | the test after the wait; a response that it returns has the id of the call |
| ResponseFuture.Futures.EraseExpired | remoting/ResponseFuture.cpp:70-73 | the expired call is not in the map any more |
| ResponseFuture.Futures.GetResponse | remoting/ResponseFuture.cpp:64-74 | whatever other threads do before the test and before the erasure, the call returns its own response or none and is out of the map |

## Left out

- JsonPrinter.PrintNumber: numbers are exact reals, and only integers whose text fits in the buffer are printed; the formats `%e` and `%f` lose digits.
- `valuelong`, which drops the sign, is not modelled; nor are overflows of the counters of lengths and entries.
- JsonGrammar.TextRead: bytes above 127 in a string stand for themselves and are not checked to be UTF-8; a text with a single surrogate is accepted but has no meaning; what is stored of it is `JsonLiteral.StoredIsKept`. White space is what `skip` skips, any byte up to 32.
- JsonParser.Parser.Parse: texts for which the parser enters a literal with an incomplete escape or a number that overflows are excluded; string literals without a closing quote are accepted, as the code does.
- JsonList.AddItemToObject: the key must not be the name of the item, since the C code would read it after freeing it.
- JsonPrinter.PrintNode: types above 6, null items and cyclic trees are excluded.
- JsonList.AddItemToArray: the item is a single loose node; the C code would append a whole chain.
- `malloc(0)` returns a block or null like any other request; recursion depth is not bounded.
- `cJSON_InitHooks`, the `cJSON_Create...` functions and the array constructors only add easy members, as does `cJSON_AddItemReferenceToObject`.
- `tolower` is that of the "C" locale.
- The Protocol Buffers library is not part of this model; varints, tags, records and groups follow its public encoding document. UTF-8 checks of strings, arenas, reflection and recursion limits are left out.
- Messages.Entry: entries are values, and their cached sizes are a field of the header. `Clear` and `MergeFrom` of `StringMessage` and `TxACKPacket` are modelled on values. A packet holds the value of its message; objects are built from it when it is written.
- MessageObject.StringMessageObject.MergePartialFromCodedStream: what a parse that fails leaves in the fields is not stated. The embedded header object always exists; the C++ code makes it when it is needed.
- HeaderObject.HeaderObject.MergePartialFromCodedStream: what a parse that fails leaves in the fields is not stated.
- HeaderObject.HeaderObject.ByteSize: messages whose parts are longer than an `int` can count are excluded.
- The messages `HeartBeat`, `ConnMeta`, `ConnAuthAck`, `MessageStoreAck`, `DeliverAck` and `BytesMessage` have the same form and add nothing new; their bodies are carried as bytes.
- `KitePacket.h`, `KitePacketHeader` and `ResponseFuture.h` are not part of this model; uniqueness of the opaque ids of live calls is an assumption.
- KitePacket.KitePacket.ParseFrom: frames shorter than a packet header, and negative body lengths with a known command, are excluded, since the C code then reads what is not in the frame.
- Framing.AsioSession.Receive: frames of `MAX_PACKET_BYTES` or more are excluded; `DataArrives` states what happens to them. Sockets and errors are left out: an asynchronous read completes when its bytes have arrived.
- `Counter::setCount` writes under a shared lock and is left out of the interleavings; the width of `long` is not modelled.
- `getResponse()` without a timeout, dispatch to listeners, reconnection, statistics, and the wrappers `ConcurrentMap`, `ConcurrentSet`, `AtomicInteger`, `HostPort` and `ListenerManager` are left out.
