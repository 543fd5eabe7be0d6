# MyJson in Dafny

A model of the two JSON parsers of MyJson and of the document tree and
writers that go with the larger one:

- `json.hpp`: the `Value` node, with a `json_type` tag and every payload
  side by side (number, string, array, ordered `std::map` object); the
  recursive-descent parser `value_parse`, with its source string, its
  cursor `it` and its destination `root`; and the renderers `Writer`,
  `FastWriter` and `StyleWriter`.
- `leptjson.hpp`: `lept_parse`, a small parser of `null`, `true` and
  `false` over a NUL-terminated C string.

The modules follow the program:

| module | file | what it holds |
|---|---|---|
| `JsonValue` | value.dfy | `Value` as a record of the tag and all payloads, `std::map` as a key-sorted list, and the mutators as functions of the old node |
| `JsonValueFacts` | value_facts.dfy | what `insert`, `erase`, `clear`, `resize`, `removeMember`, `append`, `operator=` and `operator[]` do to keys and lookups |
| `JsonCell` | cell.dfy | `Cell`, the storage a `Value*` points at; its methods change the node in place |
| `JsonGrammar` | grammar.dfy | what each parsing routine returns and where it leaves the cursor, as functions of the source and the cursor |
| `JsonGrammarFacts` | grammar_facts.dfy | the number grammar, UTF-8, surrogate pairs, first-wins keys and whole documents |
| `JsonParser` | parser.dfy | `Parser`, the `value_parse` object; its methods move the cursor and write into the destination node |
| `JsonWriter` | writer.dfy | `convert_literal` and `convert_string`, and that `parse_string` reads back what `convert_string` writes |
| `JsonRender` | render.dfy | the scalar part of `convert_value` shared by both writers, and lists joined or terminated by a separator |
| `JsonFastWriter` | fast_writer.dfy | `FastWriter` |
| `JsonStyleWriter` | style_writer.dfy | `StyleWriter` and the `tab_count` it keeps |
| `JsonStyleFacts` | style_facts.dfy | what `StyleWriter` does to `tab_count` and how its text is laid out |
| `LeptJson` | leptjson.dfy | `lept_context`, `lept_value` and the `lept_parse_*` functions |

`std::string` is a sequence of bytes (`Byte`, a `char` below 256), compared
as unsigned bytes the way `std::string::operator<` does. A `double` is an
opaque 64-bit pattern. `strtod` and `sprintf("%.17g")` are parameters
(`Strtod`, `Format`). The code dereferences the end of the source in many
places, and the model reads the byte there as NUL (`Peek`). The pure routines
are functions of the source and the cursor. The methods of `Parser` run the
same loops over the cursor field and are proved to return what those
functions say. The `Value` mutators likewise are methods of `Cell` proved
against the functions of `JsonValue`.

The defects of the code are kept, and lemmas exhibit them:

- Only `' '` is blank in `json.hpp`.
- `{}` is not singular.
- `[` and `[null,` parse.
- A lone low surrogate is accepted.
- The first of two equal keys wins.
- `operator=(const Value&)` drops strings and leaves the tag wrong.
- Keys are written unquoted.
- `FastWriter` writes an empty container as its closing bracket alone.
- `StyleWriter` leaves `tab_count` raised after an empty container.
- `lept_parse_true` advances three bytes.

## Model

| member | source | states |
|---|---|---|
| JsonValue.KeyLessIrreflexive | json.hpp:284 | no key of a `std::map` is below itself under byte-wise `std::string` order |
| JsonValue.KeyLessTransitive | json.hpp:284 | byte-wise `std::string` order is transitive |
| JsonValue.KeyLessTotal | json.hpp:284 | any two distinct keys are ordered one way or the other |
| JsonValue.KeyLessAsymmetric | json.hpp:284 | byte-wise `std::string` order is asymmetric |
| JsonValue.Keys | json.hpp:151-158 | the keys of the map, one per member, in enumeration order |
| JsonValue.Find | json.hpp:73-78 | `std::map::find` finds nothing exactly when the key is absent, and otherwise the value stored under the key |
| JsonValue.Erase | json.hpp:160-165 | erasing a present key removes one member; erasing an absent key changes nothing |
| JsonValue.DropGreatest | json.hpp:193-199 | the erase loop of `resize` removes exactly `d` members |
| JsonValue.Clear | json.hpp:179-186 | `clear()` sets the tag to Null, empties the payload the old tag selected and keeps every other payload and the number |
| JsonValue.AssignArray | json.hpp:230-234 | `operator=(vector)` leaves an array of as many elements as it was given, with the number and the payloads `clear()` keeps; when the elements left by `clear()` are at least as many, slot `i` is the old element `i` after `operator=(const Value&)` of item `i`, and otherwise the elements are the items |
| JsonValue.Padding | json.hpp:191 | growing an array with `std::vector::resize` appends `n` default `Value()` nodes |
| JsonValue.Empty | json.hpp:99-105 | `empty()` is false exactly for an array or object with at least one item, so it is true for every scalar |
| JsonValue.Size | json.hpp:107-113 | `size()` is the element count of an array and the member count of an object |
| JsonValueFacts.InsertKeys | json.hpp:59 | `std::map::insert` adds the inserted key to the key set and nothing else |
| JsonValueFacts.InsertSorted | json.hpp:59 | `std::map::insert` keeps the keys strictly ascending |
| JsonValueFacts.InsertFind | json.hpp:549 | `std::map::insert` never overwrites: a lookup sees the new value only under a key that was absent |
| JsonValueFacts.InsertPresent | json.hpp:549 | inserting a key already present changes nothing |
| JsonValueFacts.InsertMembersWellFormed | json.hpp:549 | inserting a well-formed value keeps every nested map sorted |
| JsonValueFacts.InsertFacts | json.hpp:59 | the above facts about `std::map::insert` together |
| JsonValueFacts.EraseKeys | json.hpp:160-165 | `std::map::erase` removes no key but the erased one |
| JsonValueFacts.EraseSorted | json.hpp:160-165 | `std::map::erase` keeps the keys ascending |
| JsonValueFacts.EraseRemovesKey | json.hpp:160-165 | after erasing a key from a sorted map, the key is absent |
| JsonValueFacts.EraseFind | json.hpp:160-165 | erasing a key leaves the lookup of every other key unchanged |
| JsonValueFacts.EraseMembersWellFormed | json.hpp:160-165 | erasing keeps every nested map sorted |
| JsonValueFacts.EraseFacts | json.hpp:160-165 | after `erase(find(k))` the key set is the old one without `k`, other lookups are unchanged, and the map is still sorted |
| JsonValueFacts.EraseGreatest | json.hpp:196-197 | erasing the key of `rbegin()` removes exactly the last member |
| JsonValueFacts.DropGreatestOnce | json.hpp:195-198 | one round of the erase loop of `resize` drops the last member |
| JsonValueFacts.DropGreatestIsPrefix | json.hpp:192-200 | erasing the greatest key `d` times keeps the `|obj| - d` least members |
| JsonValueFacts.MergeKeys | json.hpp:255-256 | a run of `insert` over the members of another map gives the union of the key sets |
| JsonValueFacts.MergeSorted | json.hpp:255-256 | the merge keeps the keys ascending |
| JsonValueFacts.MergeFind | json.hpp:269-270 | after the merge, old keys keep their old values and new keys take the value from the other map |
| JsonValueFacts.MergeMembersWellFormed | json.hpp:269-270 | merging well-formed maps gives a well-formed map |
| JsonValueFacts.MergeFacts | json.hpp:268-270 | the above facts about the merge loop together |
| JsonValueFacts.ClearKeepsStalePayload | json.hpp:139-141 | after `clear()` on a non-array, `isValidIndex` still sees the stale array payload |
| JsonValueFacts.RemoveMemberTwice | json.hpp:160-165 | after `removeMember(k)` the key is absent, a second removal changes nothing, and every other lookup is unchanged |
| JsonValueFacts.ResizeArray | json.hpp:188-191 | `resize(n)` on an array keeps the first `n` elements and pads with `Value()` up to `n` |
| JsonValueFacts.ResizeObject | json.hpp:188-202 | `resize(n)` on an object keeps the `n` least keys with their values, or everything when there are fewer |
| JsonValueFacts.AppendFacts | json.hpp:261-273 | `append` pushes onto an array; on an object, keys already there keep their values and new keys take the appended object's values; the tag is unchanged |
| JsonValueFacts.AssignAsWritten | json.hpp:242-259 | `operator=(const Value&)` leaves the node unchanged for a String source; for an Array source it leaves the tag Null with the elements appended to the cleared payload; for an Object source it keeps the old tag and old members and adds the new keys; scalars copy their tag and number |
| JsonValueFacts.AssignArrayWellFormed | json.hpp:230-234 | `operator=(vector)` keeps every `std::map` in the node sorted |
| JsonValueFacts.AssignArrayOverStale | json.hpp:230-234 | a fresh node receives a copy of the items, while a node holding the stale element `1` keeps it when a string is assigned over it |
| JsonValueFacts.IndexKeyFacts | json.hpp:66-71 | non-const `operator[](key)` leaves an object holding the key; a non-object is cleared first, and an object keeps its other members |
| JsonValueFacts.MemberNamesAscending | json.hpp:151-158 | `getMemberNames()` lists the keys in strictly ascending byte order |
| JsonValueFacts.FindSortedAt | json.hpp:73-78 | in a sorted map, looking up the key of member `i` yields member `i`'s value |
| JsonValueFacts.ClearWellFormed | json.hpp:179-186 | `clear()` keeps every map sorted |
| JsonValueFacts.ResizeWellFormed | json.hpp:188-202 | `resize` keeps every map sorted |
| JsonValueFacts.RemoveMemberWellFormed | json.hpp:160-165 | `removeMember` keeps every map sorted |
| JsonCell.GetMemberNames | json.hpp:151-158 | the loop of `getMemberNames` collects exactly the keys, in map order |
| JsonCell.DropGreatestKeys | json.hpp:192-199 | the erase loop of `resize` on a sorted map erases the greatest key `d` times |
| JsonCell.Cell.constructor | json.hpp:50 | `Value()` is a Null node with empty payloads |
| JsonCell.Cell.OfDouble | json.hpp:52 | `Value(double)` is a Number node holding the number |
| JsonCell.Cell.OfString | json.hpp:54-56 | `Value(string)` is a String node holding the bytes |
| JsonCell.Cell.OfMember | json.hpp:58-60 | `Value(key, value)` is an Object node with the one member |
| JsonCell.Cell.Clear | json.hpp:179-186 | the node becomes `Clear` of the old node and its maps stay sorted |
| JsonCell.Cell.Resize | json.hpp:188-202 | the node becomes `Resize` of the old node, with the erase loop run in place |
| JsonCell.Cell.RemoveMember | json.hpp:160-165 | the node loses the key, and the returned copy equals the new node |
| JsonCell.Cell.AssignBool | json.hpp:204-210 | `operator=(bool)` clears the node and sets the True or False tag |
| JsonCell.Cell.AssignDouble | json.hpp:212-216 | `operator=(double)` clears the node and stores the number |
| JsonCell.Cell.AssignString | json.hpp:218-228 | `operator=(string)` clears the node and stores the bytes |
| JsonCell.Cell.AssignArray | json.hpp:230-234 | `operator=(vector)` in place: `clear()`, then the vector's copy assignment writing each item over a stale element with `operator=(const Value&)` and destroying the rest, as `JsonValue.AssignArray` says |
| JsonCell.Cell.AssignObject | json.hpp:236-240 | `operator=(map)` clears the node and stores the sorted members |
| JsonCell.Cell.InsertMembersOf | json.hpp:254-256 | the loop of `insert` over another object's names merges its members into the node, keeping the tag |
| JsonCell.Cell.Assign | json.hpp:242-259 | `operator=(const Value&)` with its defects, in place |
| JsonCell.Cell.Append | json.hpp:261-273 | `append`, in place |
| JsonCell.Cell.IndexKey | json.hpp:66-71 | non-const `operator[](key)` in place; the result is a copy of the member's value |
| JsonGrammar.Peek | json.hpp:366-386 | the byte under the cursor, or NUL at the end of the source |
| JsonGrammar.HexDigitValue | json.hpp:575-581 | a hexadecimal digit of either case has a value below 16 |
| JsonGrammar.SkipBlank | json.hpp:330-333 | `skip_blank` stops at the end or at the first byte that is not a space |
| JsonGrammar.SkipBlankSpaces | json.hpp:330-333 | every byte `skip_blank` passes over is a space |
| JsonGrammar.ParseLiteral | json.hpp:335-357 | `parse_literal` succeeds exactly when the literal is at the cursor, then moves past it; otherwise `PARSE_INVALID_VALUE` |
| JsonGrammar.SkipDigits | json.hpp:371 | the digit loop passes only digits and stops before a byte that is not a digit |
| JsonGrammar.IntegerPart | json.hpp:366-372 | the integer part, when valid, takes at least one byte |
| JsonGrammar.FractionPart | json.hpp:373-378 | the fraction ends within the source |
| JsonGrammar.ExponentPart | json.hpp:379-386 | the exponent ends within the source |
| JsonGrammar.ScanNumber | json.hpp:362-386 | a scanned number takes at least one byte |
| JsonGrammar.ParseNumber | json.hpp:362-398 | `parse_number` succeeds exactly when the scan succeeds and `strtod` of the rest does not overflow; it then stores the converted number and ends at the end of the scan; otherwise `PARSE_INVALID_VALUE` for a bad lexeme or `PARSE_NUMBER_OVERFLOW` |
| JsonGrammar.Pow16 | json.hpp:572 | a power of 16 is positive |
| JsonGrammar.HexNumber | json.hpp:571-582 | `k` hexadecimal digits denote a number below `16^k` |
| JsonGrammar.HexFrom | json.hpp:571-583 | each remaining round of `parse_hex4` reads one byte, and it fails only with a missing quotation mark or a bad hex digit |
| JsonGrammar.HexFromOk | json.hpp:568-584 | the rest of `parse_hex4` succeeds exactly when the remaining digits are present and are hexadecimal |
| JsonGrammar.HexFromValue | json.hpp:572-580 | `parse_hex4` accumulates the digits most significant first |
| JsonGrammar.HexFromRound | json.hpp:573-581 | one round of `parse_hex4`: the end of the source is a missing quotation mark, a non-hex byte is `PARSE_INVALID_UNICODE_HEX`, a digit is accumulated |
| JsonGrammar.Hex4 | json.hpp:568-584 | `parse_hex4` succeeds exactly on four hexadecimal digits, consumes exactly four bytes and yields their value, which is at most 0xFFFF |
| JsonGrammar.CombineSurrogates | json.hpp:452 | a high and a low surrogate combine into a code point between 0x10000 and 0x10FFFF, and the pair can be recovered from it |
| JsonGrammar.CheckCodePoint | json.hpp:454-455 | a code point above 0x10FFFF is `PARSE_INVALID_UNICODE_HEX` |
| JsonGrammar.UnicodeEscape | json.hpp:435-455 | a `\u` escape that succeeds reads at least four digits and yields a code point up to 0x10FFFF that is never a high surrogate; it fails only with the three code errors it can return |
| JsonGrammar.Escape | json.hpp:424-463 | an escape that succeeds consumes at least one byte; its failures are string errors |
| JsonGrammar.StringBody | json.hpp:416-475 | a string that succeeds ends right after a quote; its failures are string errors |
| JsonGrammar.EscapeThen | json.hpp:424-464 | the same, for the loop after an escape |
| JsonGrammar.ParseString | json.hpp:402-414 | `parse_string(element)` stores a String and moves past the closing quote |
| JsonGrammar.ParseValue | json.hpp:311-328 | `parse_value` that succeeds consumes at least one byte and stores well-formed maps; it fails with any code but OK and not-singular |
| JsonGrammar.ParseArray | json.hpp:477-515 | `parse_array` stores an Array of well-formed elements |
| JsonGrammar.ArrayItems | json.hpp:490-514 | the loop of `parse_array` gives an Array, ending at the latest at the end of the source |
| JsonGrammar.ArrayAfterElement | json.hpp:495-508 | after an element, a `]` ends the array with the elements pushed so far and the cursor after it, any byte other than `,` and `]` (the end of the source included) is `PARSE_MISS_COMMA_OR_SQUARE_BRAKET`, and a success ends past the cursor |
| JsonGrammar.ArrayItemsRound | json.hpp:491-497 | a round whose element parses continues after the element with it pushed |
| JsonGrammar.ArrayAfterComma | json.hpp:498-501 | a comma starts the next round of the array loop |
| JsonGrammar.ArrayItemsFails | json.hpp:493-494 | a round whose element fails ends the array with that failure |
| JsonGrammar.ParseObject | json.hpp:517-566 | `parse_object` stores an Object whose map stays sorted |
| JsonGrammar.ObjectMembers | json.hpp:529-565 | the loop of `parse_object` gives a sorted Object |
| JsonGrammar.ObjectAfterMember | json.hpp:550-564 | after a member, the end of the source is a missing quotation mark, `}` ends the object with the members inserted so far and the cursor after it, and a byte other than `}` and `,` is `PARSE_MISS_COMMA_OR_CURLY_BRACKET` |
| JsonGrammar.ObjectAfterComma | json.hpp:560-561 | a comma starts the next round of the object loop |
| JsonGrammar.ObjectMembersRound | json.hpp:530-550 | a round whose key and value parse inserts the member and continues after the value |
| JsonGrammar.MemberKey | json.hpp:530-545 | the key and colon of a member: the end of the source is a missing quotation mark; a byte other than `"`, or a quoted key that is not a well-formed string, is `PARSE_MISS_KEY`; `PARSE_MISS_COLON` only when the key parsed and a byte other than `:` follows; a success carries the parsed string and puts the cursor after the blanks that follow the colon |
| JsonGrammar.ElementWellFormed | json.hpp:491-497 | a nested value parsed into a fresh node keeps every map sorted |
| JsonGrammar.ApplyWellFormed | json.hpp:339-352 | storing a parsed value into a node keeps every map sorted |
| JsonGrammar.Parse | json.hpp:297-309 | on every error but not-singular the root is unchanged; on not-singular it is Null |
| JsonGrammarFacts.SkipDigitsRun | json.hpp:371 | the digit loop stops exactly at the end of a run of digits |
| JsonGrammarFacts.ScanNumberSound | json.hpp:362-386 | every lexeme the scan accepts is a number of section 6 of RFC 8259 |
| JsonGrammarFacts.IntegerPartSpan | json.hpp:366-372 | the integer part is read whole, and a leading `0` ends it |
| JsonGrammarFacts.FractionPartSpan | json.hpp:373-378 | the fraction is read whole |
| JsonGrammarFacts.ScanNumberComplete | json.hpp:362-386 | every number of RFC 8259 that nothing extends is scanned whole: the cursor ends exactly after it |
| JsonGrammarFacts.ExponentPartSpan | json.hpp:379-386 | the exponent is read whole |
| JsonGrammarFacts.MinusWithoutDigit | json.hpp:364-370 | a `-` that no digit follows is `PARSE_INVALID_VALUE` |
| JsonGrammarFacts.PointWithoutDigit | json.hpp:373-376 | a `.` that no digit follows is `PARSE_INVALID_VALUE` |
| JsonGrammarFacts.ExponentWithoutDigit | json.hpp:379-384 | an `e` or `E`, with or without a sign, that no digit follows is `PARSE_INVALID_VALUE` |
| JsonGrammarFacts.NumberDispatch | json.hpp:322-325 | a `-` or a digit at the cursor hands the value to `parse_number` |
| JsonGrammarFacts.Utf8Shape | json.hpp:586-604 | `encode_utf8` writes 1, 2, 3 or 4 bytes up to 0x7F, 0x7FF, 0xFFFF and above, with the lead and continuation bit patterns of section 3 of RFC 3629 |
| JsonGrammarFacts.Utf8RoundTrip | json.hpp:586-604 | decoding the bytes `encode_utf8` writes gives back the code point |
| JsonGrammarFacts.SurrogatePairOf | json.hpp:440-452 | every code point above 0xFFFF is the combination of exactly one surrogate pair |
| JsonGrammarFacts.UnicodeEscapeValue | json.hpp:435-456 | a `\u` escape outside the high surrogates stands for itself, a lone low surrogate included; a high surrogate followed by `\u` and a low surrogate combines with it; the check against 0x10FFFF never fails |
| JsonGrammarFacts.LoneHighSurrogate | json.hpp:440-443 | a high surrogate not followed by a backslash is `PARSE_INVALID_UNICODE_SURROGATE`, or a missing quotation mark at the end |
| JsonGrammarFacts.StringBodyPlain | json.hpp:467-471 | a run of ordinary bytes up to a quote is the string itself |
| JsonGrammarFacts.StringBodyStep | json.hpp:419-474 | end of source or NUL is a missing quotation mark, a byte below 0x20 as a signed `char` is `PARSE_INVALID_STRING_CHAR`, a one-letter escape appends its byte, any other escape but `\u` is `PARSE_INVALID_STRING_ESCAPE` |
| JsonGrammarFacts.UnescapeTable | json.hpp:426-434 | exactly the escapes `\" \\ \/ \b \f \n \r \t` stand for a single byte, each its own |
| JsonGrammarFacts.ArrayItemsKeepOrder | json.hpp:490-509 | array elements keep source order: the elements found so far stay first |
| JsonGrammarFacts.ObjectMembersFirstWins | json.hpp:549 | once a key is in the object being read, its value stays: the first of repeated keys wins |
| JsonGrammarFacts.ObjectAfterMemberFirstWins | json.hpp:549-561 | the same, from the separator after a member |
| JsonGrammarFacts.SkipBlankAllSpaces | json.hpp:330-333 | `skip_blank` passes a run of spaces up to the end |
| JsonGrammarFacts.BlankDocument | json.hpp:297-313 | an empty or all-space document is `PARSE_EXPECT_VALUE` and leaves the root as it was |
| JsonGrammarFacts.Lookahead | json.hpp:311-328 | after the spaces, NUL is `PARSE_EXPECT_VALUE` and a byte outside `n t f [ { " - 0-9` (tab, LF and CR included) is `PARSE_INVALID_VALUE`, with the root unchanged |
| JsonGrammarFacts.TrailingText | json.hpp:301-306 | text after the value clears the root and is `PARSE_ROOT_NOT_SINGULAR` |
| JsonGrammarFacts.SkipBlankTo | json.hpp:330-333 | `skip_blank` stops at the first byte that is not a space |
| JsonGrammarFacts.SpacedEmptyArray | json.hpp:478-488 | `[`, spaces and `]` are an empty array, read up to the `]` |
| JsonGrammarFacts.SpacedEmptyArrayDocument | json.hpp:478-488 | the document `[   ]` parses to an empty array |
| JsonGrammarFacts.StaleArrayDocument | json.hpp:509-512 | `["x"]` parsed into a node that holds the stale element `1` gives the array `[1]`: the vector's copy assignment writes the string with `operator=(const Value&)`, which ignores strings |
| JsonGrammarFacts.EmptyObjectDocument | json.hpp:522-528 | `{}` leaves `}` unread, so the document is `PARSE_ROOT_NOT_SINGULAR` and the root becomes Null |
| JsonGrammarFacts.UnclosedArrayDocument | json.hpp:490-514 | the document `[` parses to an empty array |
| JsonGrammarFacts.TrailingCommaDocument | json.hpp:490-514 | the document `[null,` parses to an array holding one null |
| JsonGrammarFacts.LoneLowSurrogateDocumentPart | json.hpp:435-457 | the body of `"\uDC00"` is the three UTF-8 bytes of U+DC00 |
| JsonGrammarFacts.LoneLowSurrogateDocument | json.hpp:440 | a lone low surrogate is accepted and stored as its UTF-8 bytes |
| JsonGrammarFacts.LeadingZeroDocument | json.hpp:366-367 | `0123` is the number 0 followed by text: `PARSE_ROOT_NOT_SINGULAR` and a cleared root |
| JsonGrammarFacts.ControlBeforeValueDocument | json.hpp:330-333 | a line feed or tab before a value is `PARSE_INVALID_VALUE`, not blank |
| JsonGrammarFacts.TruncatedLiteralDocument | json.hpp:335-357 | `nul` is `PARSE_INVALID_VALUE` with the root unchanged |
| JsonGrammarFacts.KeyADocumentPart | json.hpp:530-543 | the key `"a"` and its colon are read, and the value starts right after |
| JsonGrammarFacts.LiteralDocumentPart | json.hpp:315-316 | `null` and `true` at the cursor parse and consume four bytes |
| JsonGrammarFacts.NullMemberDocumentPart | json.hpp:529-550 | the member `"a":null` inserts `a` and continues after it |
| JsonGrammarFacts.UnclosedObjectDocument | json.hpp:400 | the end of the source inside an object is `PARSE_MISS_QUOTATION_MARK`, with the root unchanged |
| JsonParser.Parser.SetJsonSource | json.hpp:291-295 | `set_json_source` puts the cursor at the start of the source and records the destination |
| JsonParser.Parser.Parse | json.hpp:297-309 | the code and the root after `parse()` are those of `JsonGrammar.Parse` |
| JsonParser.Parser.SkipBlank | json.hpp:330-333 | the cursor moves to where `JsonGrammar.SkipBlank` stops |
| JsonParser.Parser.ParseValue | json.hpp:311-328 | the code, cursor and destination are those of `JsonGrammar.ParseValue`; on failure the destination is untouched |
| JsonParser.Parser.ParseLiteral | json.hpp:335-357 | the code, cursor and destination are those of `JsonGrammar.ParseLiteral` |
| JsonParser.Parser.DigitsFrom | json.hpp:371 | the digit loop ends where `SkipDigits` says |
| JsonParser.Parser.ScanIntegerPart | json.hpp:366-372 | the integer part of the scan, as `IntegerPart` |
| JsonParser.Parser.ScanFractionPart | json.hpp:373-378 | the fraction of the scan, as `FractionPart` |
| JsonParser.Parser.ScanExponentPart | json.hpp:379-386 | the exponent of the scan, as `ExponentPart` |
| JsonParser.Parser.ScanNumberFrom | json.hpp:362-386 | the whole scan, as `ScanNumber` |
| JsonParser.Parser.ParseNumber | json.hpp:362-398 | the code, cursor and destination are those of `JsonGrammar.ParseNumber` |
| JsonParser.Parser.ParseHex4 | json.hpp:568-584 | the code, value and cursor are those of `Hex4` |
| JsonParser.Parser.ParseStringRaw | json.hpp:416-475 | the loop of `parse_string` gives the code, the string and the cursor of `StringBody` |
| JsonParser.Parser.ParseEscape | json.hpp:424-463 | the escape branch gives what `Escape` gives |
| JsonParser.Parser.ParseUnicodeEscape | json.hpp:435-458 | the `\u` branch gives what `UnicodeEscape` gives |
| JsonParser.Parser.ParseString | json.hpp:402-414 | the code, cursor and destination are those of `JsonGrammar.ParseString` |
| JsonParser.Parser.ParseElement | json.hpp:491-493 | a nested value parsed into a fresh node gives what `JsonGrammar.ParseValue` gives |
| JsonParser.Parser.ParseArray | json.hpp:477-515 | the code, cursor and destination are those of `JsonGrammar.ParseArray` |
| JsonParser.Parser.ParseArrayItems | json.hpp:490-509 | the array loop gives what `ArrayItems` gives |
| JsonParser.Parser.ParseArrayElement | json.hpp:491-508 | one round of the array loop either continues the same `ArrayItems` further on or ends with its outcome |
| JsonParser.Parser.ParseArraySeparator | json.hpp:498-508 | the separator after an element either continues or ends as `ArrayAfterElement` says |
| JsonParser.Parser.ParseMemberKey | json.hpp:530-545 | the key and colon of a member give what `MemberKey` gives |
| JsonParser.Parser.ParseObject | json.hpp:517-566 | the code, cursor and destination are those of `JsonGrammar.ParseObject` |
| JsonParser.Parser.ParseObjectMembers | json.hpp:529-565 | the object loop gives what `ObjectMembers` gives |
| JsonParser.Parser.ParseMember | json.hpp:530-564 | one round of the object loop either continues the same `ObjectMembers` further on or ends with its outcome, keeping the map sorted |
| JsonParser.Parser.ParseMemberSeparator | json.hpp:550-564 | the separator after a member either continues or ends as `ObjectAfterMember` says |
| JsonWriter.Literal | json.hpp:657-663 | `convert_literal` writes `null`, `true` or `false`, which `parse_literal` recognises |
| JsonWriter.HexChar | json.hpp:685 | `%x` writes a lower-case hex digit of the given value |
| JsonWriter.HexNumberTwoDigits | json.hpp:685 | `00XY` denotes `16 * X + Y` |
| JsonWriter.UnicodeEscapeText | json.hpp:683-686 | `\u%04x` of a control byte is `\u` and four hex digits denoting the byte |
| JsonWriter.Escaped | json.hpp:674-690 | `convert_string` writes a byte from 0x20 on as itself (`/` included) except the quote and backslash; the seven one-letter escapes are a backslash and the letter `parse_string` maps back to the byte; other control bytes take six bytes |
| JsonWriter.EscapedTextAppend | json.hpp:673-692 | escaping one more byte appends that byte's escape |
| JsonWriter.EscapedPrefixStep | json.hpp:673-692 | the text after `i + 1` bytes extends the text after `i` bytes by the escape of byte `i` |
| JsonWriter.Quoted | json.hpp:671-695 | `convert_string` output starts and ends with a quote |
| JsonWriter.ConvertString | json.hpp:671-695 | the loop of `convert_string` writes the quoted escaped text |
| JsonWriter.TextAtSplit | json.hpp:671-695 | text written one piece after another stands piece after piece |
| JsonWriter.EscapedRead | json.hpp:416-475 | `parse_string` reads one escaped byte back as the byte |
| JsonWriter.EscapedTextLayout | json.hpp:673-692 | the escaped text of a string is that of its first byte, then that of the rest |
| JsonWriter.EscapedTextRead | json.hpp:416-475 | `parse_string` reads the escaped text of a whole string back as the string |
| JsonWriter.QuotedRead | json.hpp:311-328 | `parse_value` reads back what `convert_string` wrote, wherever it stands |
| JsonWriter.QuotedString | json.hpp:402-414 | `parse_string(element)` reads back what `convert_string` wrote |
| JsonWriter.StringOfBody | json.hpp:402-414 | `parse_string(element)` stores the string its loop read |
| JsonWriter.QuotedLayout | json.hpp:671-695 | `convert_string` output is a quote, the escaped text and a quote |
| JsonWriter.ClosingQuote | json.hpp:422-423 | a quote ends the string read so far |
| JsonRender.ConvertScalar | json.hpp:645-669 | `convert_value` on a scalar writes a literal that `parse_literal` recognises, the quoted string, or the formatted number |
| JsonRender.Terminated | json.hpp:706-709 | a terminated list of pieces is at least as long as one separator |
| JsonRender.TerminatedStep | json.hpp:706-709 | one more piece at the end of a terminated list |
| JsonRender.AppendPiece | json.hpp:706-709 | appending the next piece and the separator extends the list |
| JsonRender.AppendLabelled | json.hpp:719-724 | the same, for a key, `" : "` and a value |
| JsonRender.DropTrailing | json.hpp:710-712 | two `pop_back` calls and the closing byte turn the last separator into a space and the bracket |
| JsonRender.JoinSnoc | json.hpp:704-714 | a joined list grows by a separator and a piece |
| JsonRender.TerminatedThenLast | json.hpp:749-758 | all pieces but the last, terminated, then the last piece, are the joined list |
| JsonRender.TerminatedIsJoin | json.hpp:704-714 | a terminated list is the joined list followed by one separator |
| JsonFastWriter.ItemTexts | json.hpp:706-709 | one text per element |
| JsonFastWriter.MemberTexts | json.hpp:719-724 | one text per member |
| JsonFastWriter.Write | json.hpp:700-702 | `FastWriter::write` gives `FastText` of the root |
| JsonFastWriter.ConvertValue | json.hpp:645-655 | `convert_value` gives `FastText` of the node |
| JsonFastWriter.Close | json.hpp:710-712 | after no item the two `pop_back` calls leave only the bracket; after items they leave the joined items, a space and the bracket |
| JsonFastWriter.ItemStep | json.hpp:706-709 | one round of the array loop extends the text by the item and `" , "` |
| JsonFastWriter.MemberStep | json.hpp:719-724 | one round of the object loop extends the text by the member and `" , "` |
| JsonFastWriter.CloseArray | json.hpp:710-712 | the end of `convert_array` gives the array's text |
| JsonFastWriter.CloseObject | json.hpp:725-727 | the end of `convert_object` gives the object's text |
| JsonFastWriter.ConvertArray | json.hpp:704-714 | `convert_array` gives `FastText`: `"[ "`, the items joined by `" , "`, `" ]"` |
| JsonFastWriter.MemberLookup | json.hpp:722 | looking up the `i`-th name gives the `i`-th member |
| JsonFastWriter.AppendMember | json.hpp:720-723 | one round of the object loop writes the bare key, `" : "`, the value and `" , "` |
| JsonFastWriter.ConvertObject | json.hpp:716-729 | `convert_object` gives `FastText`: `"{ "`, the members joined by `" , "`, `" }"` |
| JsonFastWriter.EmptyContainerText | json.hpp:705-712 | an empty array is written `]` and an empty object `}` |
| JsonFastWriter.UnquotedKey | json.hpp:720 | `{"a": null}` is written `{ a : null }`, its key without quotes |
| JsonStyleWriter.Tabs | json.hpp:739-743 | `PUSH_TAB` writes four spaces per level |
| JsonStyleWriter.StyleText | json.hpp:745-784 | writing never lowers `tab_count` |
| JsonStyleWriter.Children | json.hpp:749-758 | the item loop lowers `tab_count` by at most one |
| JsonStyleWriter.StyleWriter.constructor | json.hpp:786 | `tab_count` starts at 0 |
| JsonStyleWriter.StyleWriter.Write | json.hpp:734-737 | `write` resets `tab_count` and gives `StyleText` of the root, leaving the final count in the field |
| JsonStyleWriter.PushTab | json.hpp:739-743 | the `PUSH_TAB` loop appends `Tabs(tab_count)` |
| JsonStyleWriter.ConvertValue | json.hpp:645-655 | `convert_value` gives `StyleText` and its count |
| JsonStyleWriter.ConvertArray | json.hpp:745-762 | `convert_array` gives `StyleText` and its count |
| JsonStyleWriter.ArrayItem | json.hpp:750-757 | one round of the array loop extends the text and count to one more item |
| JsonStyleWriter.ConvertObject | json.hpp:764-784 | `convert_object` gives `StyleText` and its count |
| JsonStyleWriter.ObjectMember | json.hpp:770-779 | one round of the object loop extends the text and count to one more member |
| JsonStyleWriter.CloseContainer | json.hpp:759-760 | `PUSH_TAB` at the count the items leave, then the bracket, completes the container |
| JsonStyleWriter.FromChildren | json.hpp:745-784 | a container's text is its bracket, its items, the indent at their final count and its closing bracket |
| JsonStyleWriter.ChildFacts | json.hpp:751 | item `k` is the `k`-th element, or the value found under the `k`-th name |
| JsonStyleWriter.ChildStep | json.hpp:750-757 | one round of either loop gives the text and count of one more item |
| JsonStyleFacts.TabCount | json.hpp:748-757 | writing a node raises `tab_count` by exactly the number of empty containers in it |
| JsonStyleFacts.ChildrenTabCount | json.hpp:749-758 | the item loop decrements only after the last item |
| JsonStyleFacts.TabsRestored | json.hpp:745-784 | `tab_count` is restored after a node exactly when the node holds no empty container |
| JsonStyleFacts.EmptyContainerText | json.hpp:745-762 | an empty container is its bracket, a line indented one level deeper and its closing bracket, and the count stays raised |
| JsonStyleFacts.ClosingIndent | json.hpp:759-760 | a closing bracket is indented one extra level per empty container inside |
| JsonStyleFacts.EmptyInsideArray | json.hpp:748-760 | in `[[]]` the count ends at 1 and the outer `]` is indented four spaces |
| JsonStyleFacts.Lines | json.hpp:750-751 | one line per item |
| JsonStyleFacts.NoEmptyBefore | json.hpp:749-758 | items before one without empty containers hold none either |
| JsonStyleFacts.LineStep | json.hpp:750-757 | an item without empty containers adds its line and its line end and keeps the count |
| JsonStyleFacts.ChildrenLayout | json.hpp:749-758 | without empty containers, the items are their lines joined by `",\n"` and ended by `"\n"` |
| JsonStyleFacts.Layout | json.hpp:745-784 | a non-empty container without empty ones is written one item per line at four spaces per level, the closing bracket at its own level, with the count restored |
| JsonStyleFacts.WriteTabCount | json.hpp:734-737 | after `write` the count is the number of empty containers in the document |
| LeptJson.Nul | leptjson.hpp:37 | the end of a C string is its first NUL |
| LeptJson.SkipWs | leptjson.hpp:42-50 | the whitespace loop passes only space, LF, TAB and CR, and stops at the first other character, never past the NUL |
| LeptJson.ValueEnd | leptjson.hpp:88-103 | `lept_parse_value` never moves the cursor past the NUL |
| LeptJson.LeptValue.constructor | leptjson.hpp:30-33 | a `lept_value` holds the type it is given |
| LeptJson.Context.constructor | leptjson.hpp:109 | the cursor starts at the beginning of the string |
| LeptJson.ParseWhitespace | leptjson.hpp:42-50 | the cursor moves to where `SkipWs` stops |
| LeptJson.ParseNull | leptjson.hpp:52-62 | on a match the cursor advances four bytes and the type becomes Null; otherwise `LEPT_PARSE_INVALID_VALUE` and nothing changes |
| LeptJson.ParseTrue | leptjson.hpp:64-74 | on a match the cursor advances three bytes only and the type becomes True; otherwise nothing changes |
| LeptJson.ParseFalse | leptjson.hpp:76-86 | on a match the cursor advances five bytes and the type becomes False; otherwise nothing changes |
| LeptJson.ParseValue | leptjson.hpp:88-103 | the code, cursor and type are those of `ValueStep`: NUL is `LEPT_PARSE_EXPECT_VALUE`, a byte other than `n t f` is `LEPT_PARSE_INVALID_VALUE` |
| LeptJson.Parse | leptjson.hpp:105-122 | the code and type after `lept_parse` are those of `LeptParse` |
| LeptJson.GetType | leptjson.hpp:124-127 | `lept_get_type` gives the stored type |
| LeptJson.SkipWsAt | leptjson.hpp:45-48 | the whitespace loop stops at the first non-whitespace character |
| LeptJson.TrueDocument | leptjson.hpp:64-74 | `true` is `LEPT_PARSE_ROOT_NOT_SINGULAR`, with the type already True |
| LeptJson.MisspelledNull | leptjson.hpp:105-111 | `nul` is `LEPT_PARSE_INVALID_VALUE`, and the type is the Null stored before parsing |
| LeptJson.ExpectValueIff | leptjson.hpp:98-99 | `LEPT_PARSE_EXPECT_VALUE` exactly when the string holds only whitespace |
| LeptJson.Outcomes | leptjson.hpp:105-122 | success comes only with Null or False; failures to parse a value leave Null; True comes only with not-singular |
| LeptJson.OkShape | leptjson.hpp:105-122 | a successful document is whitespace, `null` or `false`, whitespace |
| LeptJson.OkIsAccepted | leptjson.hpp:105-122 | every document `lept_parse` accepts is whitespace, `null` or `false`, whitespace |
| LeptJson.LiteralDocument | leptjson.hpp:105-122 | whitespace, `null` or `false` and whitespace parse when the string ends there and are not singular otherwise; the type is the literal's either way |
| LeptJson.NullDocument | TestUnit.cpp:21-27 | `null` parses, with the type Null |
| LeptJson.SpacedFalse | leptjson.hpp:42-50 | all four whitespace characters around `false` are skipped |
| LeptJson.TrailingText | leptjson.hpp:113-119 | text after a value is `LEPT_PARSE_ROOT_NOT_SINGULAR` and the stored type stays |
| LeptJson.OkIff | leptjson.hpp:105-122 | `lept_parse` succeeds exactly on whitespace, `null` or `false`, whitespace |

## Left out

- Floating point: `strtod`, its `errno`/`HUGE_VAL` overflow test and `sprintf("%.17g")` (json.hpp:389-391, 665-669) are parameters of the parser and the writers. A `double` is an opaque bit pattern.
- The singleton `json_parser` and the `Reader` wrapper (json.hpp:611-635): the model makes one `Parser` per call, holding the source, the cursor and the root.
- The comment field and `setComment`/`hasComment`/`getComment` (json.hpp:167-177, 280) are not modelled.
- `asString` and `toStyledString` for containers (json.hpp:789-802) call through the `fw`/`sw` fields, which are never initialised, and `toStyledString` has no return statement. The `fw` and `sw` fields are not modelled either.
- `Value::get` (json.hpp:147-149) ignores its receiver; it is not modelled.
- `get_type` and the `is*`, `isValidIndex` and `isMember` predicates (json.hpp:90-145) are functions without contracts: each reads one field. The `assert`s of `operator[](index)` (json.hpp:81, 86, `At`), `asDouble` (json.hpp:95), `size` (json.hpp:108), `getMemberNames` (json.hpp:152), `resize` (json.hpp:189) and `append` on an object (json.hpp:267) are preconditions, so a failing assertion is a call the model does not allow. The const `operator[](key)` (`Get`) has no assertion.
- Bytes from 0x80 on: `parse_string` compares a signed `char` with 0x20, so it rejects them with `PARSE_INVALID_STRING_CHAR`, and the model keeps that. `convert_string` would overflow `buf[7]` on them, so the writers require ASCII strings (`Writable`).
- JsonGrammar.ParseNumber: `strtod` reads from the cursor to the end of the source rather than only the scanned lexeme, and the model applies the parameter to that whole suffix.
- JsonCell.Cell.AssignArray: `std::vector`'s capacity is not modelled. When the new array is longer than the stale elements and fits in the old capacity, `std::vector` writes the first items over the stale elements with `operator=(const Value&)` and copies the rest. The model copies every item, which is what a vector without spare capacity does.
- JsonCell.Cell.IndexKey: the result is a copy of the member's value, not a `Value&` into the node, so writes through the returned reference are not modelled.
- JsonCell.Cell.Assign: the argument is a value, so aliasing is not modelled. In C++, `v = v` on an array clears `v` and then calls `other.size()` on the cleared node, whose tag is now Null, so the `assert` of `size` (json.hpp:108, 249-250) aborts. The model gives the node with tag Null and its elements kept.
- JsonCell.Cell.constructor: the `number` field that `Value()` leaves uninitialised is taken to be 0.
- JsonStyleWriter.ConvertValue: the member functions take `tab_count` in and give it back, and only `Write` stores it in the field. The count is otherwise touched only by these functions, so the sequence of values is the same.
- LeptJson.Parse: the `assert(v != NULL)` is not modelled, since a `LeptValue` reference is never null, and the `EXPECT` macro is unused in the source.
- LeptJson.Context.constructor: the C string is a `seq<char>` containing a NUL (`IsCString`); reading past that NUL never happens.
- RFC 8259 and json.hpp disagree, and the model follows the code:
  - only `' '` is blank;
  - a repeated key keeps its first value;
  - the root is not reset on errors other than `PARSE_ROOT_NOT_SINGULAR`;
  - `{}` is not singular;
  - `[` and `[null,` parse.
- The writers' output does not generally re-parse: keys are unquoted and empty containers lose their opening bracket. No round trip is stated for whole documents; only strings written by `convert_string` are shown to read back.
