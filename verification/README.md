# Verified model of the JSON, XML and base64 engines

This project models, in Dafny, the engines the repository rests on: rapidjson's reader, document, writers, JSON
Pointer, schema validator, codecs and pool allocator, RapidXML's parser, printer, node lists and memory pool, and the
repository's own base64. `dafny verify dfyconfig.toml` checks everything.

How it is organised:

- `Json`, `Numbers`, `ReaderSpec` describe what a JSON text says, on the bytes left to read. `Reader` holds the parsers
  as they work (cursor, in-situ buffer, frame stack, fixed-width accumulators), each proved against that description.
  `Iterative` explains the table-driven machine. `Grammar` and `GrammarTheorem` write the grammar of RFC 8259 on bytes,
  as derivations with text and meaning, independently of the reader, and prove the reader sound and complete for it,
  refused literals and their errors included. `Encoding` goes from bytes to characters: which of these texts are JSON
  texts of RFC 8259 in UTF-8. `ErrorCodes` says where a text breaks off and which code is raised there.
- `Document`, `DocumentParse`, `Writer`, `RoundTrip`, `AsciiWriter` go from events to trees to text and back;
  `WriterLayout` gives the compact text without white space and the pretty text line by line.
- `SchemaSpec` gives the recursive meaning of a schema (JSON Schema draft v4, section 5 of
  draft-fge-json-schema-validation-00). `SchemaMachine` is the streaming validator with its contexts, hashers and
  parallel validators. `SchemaProof` and `SchemaTheorem` show that they agree on every schema and every tree;
  `SchemaPath` and `SchemaPointer` follow the document pointer; `SchemaValidator` is the object that is updated in
  place. `TextValidation` puts the reader in front of the validator. `SchemaKeywords` states each keyword by itself, and
  `SchemaHash` what the hash behind enum and uniqueItems tells apart.
- `Pointer`, `PointerParse`, `PointerAccess` cover JSON Pointer (RFC 6901) and its laws on trees; `PointerText` gives its
  text byte by byte and `PointerShape` the trees that Create and Set leave.
- `Utf` covers UTF-8 and UTF-16 (RFC 3629, RFC 2781). `Base64` works on bytes with their bit operations, and
  `Base64Table` compares it with Table 1 of RFC 4648; `Bits` holds what bytes are as bit vectors.
- `XmlSpec` describes RapidXML's printer and its parser with default flags; `XmlRoundTrip` shows they are inverse;
  `XmlInPlace` and `XmlParser` are the parser inside its own text; `XmlPrinter` closes the circle. `XmlReference` and
  `XmlGrammar` write references and whole documents as derivations of XML 1.0, with text and meaning, independently of
  parser and printer. `XmlList` holds the sibling lists.
- `JsonPool` and `XmlPool` are the two allocators; `Memory` holds what they share.

Errors are kept as the code raises them: a code or message and the number of bytes left, which fixes the offset. An
invalid numeric entity is reported at the write cursor, as in the code, and not behind its digits.

Where the code departs from its documentation, the model follows the code:

- pointer.h:90-95 says that a token whose value exceeds the index range has no index. The overflow test only notices a
  sum that shrinks, so some oversize tokens get a wrong index (`Pointer.OversizeExample`); `Pointer.OversizeIndex` says
  exactly which.
- The iterative parser reports a stray ',', ':', ']' or '}' at the start of a text as an empty document, the recursive
  one as an invalid value (`DocumentParse.RunBoth`, and `DocumentParse.StrayBracket` for the text "]").
- error/error.h:84 calls NumberTooBig a number too big for a double. The reader measures digits instead: zero with an
  exponent above 308 is refused, and some numbers no double holds are taken (`Grammar.RefusedByExponent`);
  `Grammar.NumberComplete` says exactly which literals are refused.
- RFC 8259 derives strings with an unpaired leading surrogate, and section 8.2 says so; the reader refuses them
  (`Grammar.LoneSurrogate`). `Grammar.Unpaired` is the condition, `Grammar.StringComplete` the error.
- Section 8.1 of RFC 8259 asks for UTF-8; without its validating flag the reader takes any byte from 0x20 up inside a
  string (`Encoding.UncheckedByte`). `Encoding.JsonExactly` says what that admits beyond JSON.

Two round trips hold for some inputs only, and the project says exactly for which: `XmlRoundTrip.DocumentRoundTrip`
(failing inputs: `XmlRoundTrip.AdjacentData`, `XmlRoundTrip.BlankData`) and `Base64.CanonicalRoundTrip` (failing input:
`Base64.LeftoverBits`).

## Model

| member | source | states |
|---|---|---|
| SchemaTheorem.StreamingAgrees | deps/rapidjson-1.1.0/schema.h:1662-1733 | For every schema and every tree, from either producer of events, the streaming validator ends valid exactly when the recursive `Valid` accepts the tree, and is then back in its initial state |
| SchemaKeywords.StreamingMeetsKeywords | deps/rapidjson-1.1.0/schema.h:600-900 | For every schema and every tree the streaming validator ends valid exactly when every keyword, each stated by itself as draft v4 words it, allows the tree |
| SchemaKeywords.Agree | deps/rapidjson-1.1.0/schema.h:600-900 | The recursive reading is the conjunction of the keywords |
| SchemaKeywords.EmptySchema | deps/rapidjson-1.1.0/schema.h:355-382 | A run under the schema {} accepts every tree |
| SchemaKeywords.NoAdditionalProperties | deps/rapidjson-1.1.0/schema.h:809-826 | With additionalProperties false and no schema for them, a run over an object is refused for a member of any other name |
| SchemaKeywords.AdditionalMember | deps/rapidjson-1.1.0/schema.h:809-826 | A member of a name not among the properties is judged by the additionalProperties schema, or let pass or refused by its truth value; otherwise only the member count notices it |
| SchemaKeywords.ElementsJudged | deps/rapidjson-1.1.0/schema.h:600-624 | A run over an array is valid exactly when its length lies within plain limits, uniqueItems sees no equal hashes, and a run for each element under its own schema is valid: items, the tuple, additionalItems |
| SchemaTheorem.RunValue | deps/rapidjson-1.1.0/schema.h:1812-1878 | The same for one value in any surroundings: verdict, hash bookkeeping of the enclosing array, and document pointer, by joint induction over tree and schema depth |
| SchemaTheorem.RunElements | deps/rapidjson-1.1.0/schema.h:600-624 | Any run of array elements is accepted exactly when each meets its item schema and, under uniqueItems, all hashes are new |
| SchemaTheorem.RunMembers | deps/rapidjson-1.1.0/schema.h:783-826 | Any run of members is accepted exactly when each value meets the schema its name selects; the property marks grow accordingly |
| SchemaTheorem.RunMember | deps/rapidjson-1.1.0/schema.h:1707-1713 | A key and its value leave the validator as before, with the document pointer restored |
| SchemaTheorem.ArrayDecides | deps/rapidjson-1.1.0/schema.h:1721-1733 | An array is judged as the recursive reading judges it |
| SchemaTheorem.ObjectDecides | deps/rapidjson-1.1.0/schema.h:1701-1720 | An object is judged as the recursive reading judges it |
| SchemaTheorem.ScalarDecides | deps/rapidjson-1.1.0/schema.h:1684-1699 | A scalar is judged as the recursive reading judges it |
| SchemaTheorem.NestedValues | deps/rapidjson-1.1.0/schema.h:1049-1083 | The parallel validators of allOf, anyOf, oneOf, not and dependencies reach the verdicts of the recursive reading |
| SchemaTheorem.CheckEndMeans | deps/rapidjson-1.1.0/schema.h:652-690 | The end-of-value check decides enum (by hash), allOf, anyOf, oneOf and not |
| SchemaTheorem.CheckEndObjectMeans | deps/rapidjson-1.1.0/schema.h:828-856 | The end-of-object check decides required, dependencies and the member count |
| SchemaTheorem.MarksMean | deps/rapidjson-1.1.0/schema.h:801-802 | A property is marked exactly when a member carries it |
| SchemaTheorem.CheckNumber | deps/rapidjson-1.1.0/schema.h:1099-1174 | The signed and the unsigned number checks both compare as integers do, whichever callback delivers the number |
| SchemaTheorem.PopMeans | deps/rapidjson-1.1.0/schema.h:1843-1878 | Ending a value fails only by its own check or by a hash seen before in the enclosing array |
| SchemaTheorem.DropName | deps/rapidjson-1.1.0/schema.h:1873-1895 | Ending a member removes exactly the token its key appended, whatever '~' or '/' the key contains |
| SchemaTheorem.DropIndex | deps/rapidjson-1.1.0/schema.h:1276-1291 | Ending an element removes exactly its index token |
| SchemaTheorem.RunCarries | deps/rapidjson-1.1.0/schema.h:1669-1679 | Fanning the events of a value out leaves each context with the tree hash and the nested verdicts of that value |
| SchemaProof.HashValue | deps/rapidjson-1.1.0/schema.h:164-255 | The hasher's stack machine leaves exactly one code, the hash of the tree, above whatever was there |
| SchemaHash.StringsApart | deps/rapidjson-1.1.0/schema.h:236-254 | Two strings that differ in exactly one byte have different hashes |
| SchemaHash.ArraysApart | deps/rapidjson-1.1.0/schema.h:207-214 | Arrays that differ in one element hash alike exactly when those elements do |
| SchemaHash.MemberValuesApart | deps/rapidjson-1.1.0/schema.h:197-204 | Objects that differ in the value of one member hash alike exactly when those values do |
| SchemaHash.MemberNamesApart | deps/rapidjson-1.1.0/schema.h:197-204 | Objects that differ in the name of one member hash alike exactly when those names do, as strings |
| SchemaHash.LiteralsApart | deps/rapidjson-1.1.0/schema.h:171-172 | null, false and true have different hashes |
| SchemaHash.KnownHash | deps/rapidjson-1.1.0/schema.h:236-254 | The 64-bit hashes of null, false, true, {} and [] as literals, which fix the prime and the basis |
| SchemaHash.KnownStringHash | deps/rapidjson-1.1.0/schema.h:236-254 | The hash of the string "a" as a literal |
| SchemaHash.IntegerImagesApart | deps/rapidjson-1.1.0/schema.h:173-176 | Different integers are hashed from different bytes |
| SchemaHash.NearestDouble | deps/rapidjson-1.1.0/schema.h:173-176 | The double hashed along with an integer is the nearest one, ties to even |
| SchemaHash.UniquePair | deps/rapidjson-1.1.0/schema.h:1856-1871 | A run under uniqueItems accepts an array of two elements exactly when their hashes differ |
| SchemaHash.UniqueStrings | deps/rapidjson-1.1.0/schema.h:1856-1871 | so it accepts two strings that differ in one byte |
| SchemaHash.EnumOfOne | deps/rapidjson-1.1.0/schema.h:652-655 | A run under an enum compiled from one tree accepts exactly the trees that hash like it |
| SchemaProof.RunConcat | deps/rapidjson-1.1.0/schema.h:1662-1733 | Feeding events is compositional |
| SchemaProof.RunInvalid | deps/rapidjson-1.1.0/schema.h:1662-1667 | A validator that turned invalid ignores everything after |
| SchemaMachine.ParallelDepth | deps/rapidjson-1.1.0/schema.h:1049-1083 | Every parallel validator works on a strictly shallower schema, so fanning out terminates |
| SchemaSpec.FindProperty | deps/rapidjson-1.1.0/schema.h:1086-1097 | The first property of that name, or none |
| SchemaSpec.SeenMeansNamed | deps/rapidjson-1.1.0/schema.h:797-805 | With distinct property names, a property is recorded as seen exactly when a member has its name |
| SchemaPath.DocumentIsPointer | deps/rapidjson-1.1.0/schema.h:1812-1841 | At every point of a valid run over any tree, the document stack spells the current location |
| SchemaPath.RunTracks | deps/rapidjson-1.1.0/schema.h:1879-1895 | The same for every well-nested event sequence, as an invariant of the step |
| SchemaPath.EndShape | deps/rapidjson-1.1.0/schema.h:1843-1878 | Ending a value with success pops its context, changes nothing else but the hashes of the enclosing array, and drops one token |
| SchemaPath.HashIgnoresOrder | deps/rapidjson-1.1.0/schema.h:197-204 | Trees that differ only in the order of members, at any depth, hash alike |
| SchemaPath.UniqueRejectsReordered | deps/rapidjson-1.1.0/schema.h:1856-1871 | uniqueItems turns down any array with two elements that differ only in the order of members, at any depth |
| SchemaPointer.DocumentParses | deps/rapidjson-1.1.0/schema.h:1879-1895 | At every point of a valid run the document stack parses, as a JSON Pointer, to the reference tokens of the location |
| SchemaValidator.GenericSchemaValidator.constructor | deps/rapidjson-1.1.0/schema.h:1786-1807 | A new validator is valid, with empty stacks |
| SchemaValidator.GenericSchemaValidator.Receive | deps/rapidjson-1.1.0/schema.h:1662-1733 | One event on the object equals one step of the machine |
| SchemaValidator.GenericSchemaValidator.HandleParallel | deps/rapidjson-1.1.0/schema.h:1669-1679 | The fan-out loops feed every context's hasher and nested validators |
| SchemaValidator.GenericSchemaValidator.HandleBegin | deps/rapidjson-1.1.0/schema.h:1662-1667 | Push, check and set up the context of a value |
| SchemaValidator.GenericSchemaValidator.HandleEnd | deps/rapidjson-1.1.0/schema.h:1715-1733 | The closing checks of an object or array, then the end of the value |
| SchemaValidator.GenericSchemaValidator.BeginValue | deps/rapidjson-1.1.0/schema.h:1812-1841 | Equals the machine's announcement of a value |
| SchemaValidator.GenericSchemaValidator.EndValue | deps/rapidjson-1.1.0/schema.h:1843-1878 | Equals the machine's end of a value |
| SchemaValidator.GenericSchemaValidator.AppendToken | deps/rapidjson-1.1.0/schema.h:1880-1895 | Appends '/' and the escaped name |
| SchemaValidator.GenericSchemaValidator.RemoveToken | deps/rapidjson-1.1.0/schema.h:1873-1875 | Pops up to and including the last '/' |
| SchemaValidator.GenericSchemaValidator.Validate | deps/rapidjson-1.1.0/schema.h:1553-1560 | Feeding a whole tree to a new validator object leaves it valid exactly when the recursive reading, and every keyword by itself, allows the tree |
| SchemaValidator.CheckCombinators | deps/rapidjson-1.1.0/schema.h:652-690 | The keyword loops compute the end-of-value check |
| SchemaValidator.CheckProperties | deps/rapidjson-1.1.0/schema.h:828-856 | The required and dependencies loops compute the end-of-object check |
| SchemaValidator.CheckOneDependency | deps/rapidjson-1.1.0/schema.h:843-852 | One property's dependency |
| SchemaValidator.FindEnum | deps/rapidjson-1.1.0/schema.h:652-659 | The search loop finds a code exactly when it is there |
| SchemaValidator.ExactlyOne | deps/rapidjson-1.1.0/schema.h:673-684 | The oneOf loop, stopping at a second success, decides that exactly one validator is valid |
| SchemaValidator.Hasher.WriteBuffer | deps/rapidjson-1.1.0/schema.h:237-254 | The FNV loop pushes the code of the bytes |
| SchemaValidator.Hasher.Receive | deps/rapidjson-1.1.0/schema.h:171-214 | One event on the hasher object equals one step of its stack machine |
| SchemaValidator.Hasher.EndObject | deps/rapidjson-1.1.0/schema.h:197-204 | The xor loop pops the members and pushes their combination |
| SchemaValidator.Hasher.EndArray | deps/rapidjson-1.1.0/schema.h:207-214 | The loop pops the elements and pushes their ordered combination |
| GrammarTheorem.DocumentSound | deps/rapidjson-1.1.0/reader.h:485-516 | Every text accepted with strict flags has a derivation in the grammar, read on bytes, in which no literal is refused, and the events delivered are its meaning |
| GrammarTheorem.DocumentComplete | deps/rapidjson-1.1.0/reader.h:485-516 | Every text with such a derivation, refused literals included, is accepted with its meaning or refused for its first refused literal, a number too large or a string with an unpaired leading surrogate, with the events before it, its code and its place |
| GrammarTheorem.AcceptsExactly | deps/rapidjson-1.1.0/reader.h:485-516 | The strict reader accepts a text if and only if it is one of the byte grammar, up to its NUL, in which no literal is refused |
| Encoding.JsonExactly | deps/rapidjson-1.1.0/reader.h:485-516 | The JSON texts of RFC 8259, over characters in UTF-8, in which no literal is refused are exactly those the strict reader accepts and that are well-formed UTF-8 as far as they are read |
| Encoding.Utf8Exactly | deps/rapidjson-1.1.0/reader.h:485-516 | On well-formed UTF-8 the strict reader accepts a text if and only if it is a JSON text of RFC 8259 in which no literal is refused |
| Encoding.ValueCut | deps/rapidjson-1.1.0/reader.h:1392-1405 | The text of a byte derivation is well-formed UTF-8 exactly when every string and name in it spells characters of the grammar |
| Encoding.StringsAreCharacters | deps/rapidjson-1.1.0/reader.h:848-905 | A string of bytes and escapes spells a string of characters of section 7 of RFC 8259 exactly when it is well-formed UTF-8 |
| Encoding.UncheckedByte | deps/rapidjson-1.1.0/reader.h:895-903 | The string of the byte 0xFF is accepted, though it is no UTF-8 and so no JSON text |
| ErrorCodes.DocumentBreaks | deps/rapidjson-1.1.0/reader.h:589-702 | A document in order up to some place, at any depth, is refused there: the code for a missing name, colon, comma or bracket or for a broken scalar, and the place |
| ErrorCodes.SecondRoot | deps/rapidjson-1.1.0/reader.h:504-513 | Anything but white space behind a complete document is DocumentRootNotSingular, at its place |
| ErrorCodes.EmptyDocument | deps/rapidjson-1.1.0/reader.h:493-498 | White space alone is DocumentEmpty |
| ErrorCodes.NotAValue | deps/rapidjson-1.1.0/reader.h:1392-1405 | A byte that starts no value is ValueInvalid |
| ErrorCodes.BrokenKeyword | deps/rapidjson-1.1.0/reader.h:705-741 | A literal broken off is ValueInvalid at the first byte that differs |
| ErrorCodes.BareMinus | deps/rapidjson-1.1.0/reader.h:1147-1201 | A minus sign without a digit is ValueInvalid behind it |
| ErrorCodes.NoFractionDigits | deps/rapidjson-1.1.0/reader.h:1240-1246 | A decimal point without a digit is NumberMissFraction behind it |
| ErrorCodes.NoExponentDigits | deps/rapidjson-1.1.0/reader.h:1287-1331 | An exponent without a digit is NumberMissExponent behind its sign |
| ErrorCodes.BrokenString | deps/rapidjson-1.1.0/reader.h:848-905 | A string broken off by the end of the text, a control character or a wrong escape: the code and the place of each |
| GrammarTheorem.ValueSound | deps/rapidjson-1.1.0/reader.h:1392-1405 | The same for a value in front of anything |
| GrammarTheorem.ValueComplete | deps/rapidjson-1.1.0/reader.h:1392-1405 | The same for a value followed by anything that ends a number |
| Grammar.NumberSound | deps/rapidjson-1.1.0/reader.h:1133-1390 | Every number taken is one of the grammar and is reported as its meaning |
| Grammar.NumberComplete | deps/rapidjson-1.1.0/reader.h:1133-1390 | Every number of the grammar is reported as its meaning, or refused at its first byte exactly when its integer digits reach the double guard or its exponent exceeds 308 plus the fraction digits counted |
| Grammar.RefusedByExponent | deps/rapidjson-1.1.0/reader.h:1287-1331 | The exponent is measured by its digits alone: "0e309" is refused although it is zero, "10e308" is taken although no double holds it |
| Grammar.IntegerLiteral | deps/rapidjson-1.1.0/reader.h:1147-1238 | Integer literals of any length are reported exactly as Uint, Uint64, Int or Int64 by the four ranges, fall to double only beyond them, and are refused exactly from ten times the double guard on |
| Grammar.GuardMeans | deps/rapidjson-1.1.0/reader.h:1231-1238 | The guard of the magnitude loop is the largest double, 2^1024 - 2^971, cut to seventeen digits and a tenth of it |
| Grammar.RoomMeans | deps/rapidjson-1.1.0/reader.h:1247-1283 | Fraction digits all count until the significand exceeds 2^53 - 1, then only up to seventeen significant digits |
| Grammar.WhiteSpaceIsBlank | deps/rapidjson-1.1.0/reader.h:263-269 | White space is that of section 2 of RFC 8259 |
| Grammar.StringSound | deps/rapidjson-1.1.0/reader.h:840-905 | Every string taken is one of the grammar with its leading surrogates paired, and denotes the bytes delivered |
| Grammar.StringComplete | deps/rapidjson-1.1.0/reader.h:840-905 | Every string of the grammar is taken and delivered as what it denotes, or refused at its first unpaired leading surrogate |
| Grammar.LoneSurrogate | deps/rapidjson-1.1.0/reader.h:867-882 | The string "\uD800" is derived by the grammar and refused by the reader |
| DocumentParse.RunBoth | deps/rapidjson-1.1.0/reader.h:485-516 | Running both parsers on one text: they accept alike, deliver the same events, stop at the same place and report the same error at the same offset; exactly a stray first structural byte changes the code, from ValueInvalid to DocumentEmpty |
| DocumentParse.RunReader | deps/rapidjson-1.1.0/reader.h:1822-1857 | Either parser, copying or in situ, ends with the result, events and place the grammar prescribes |
| DocumentParse.StrayBracket | deps/rapidjson-1.1.0/reader.h:1822-1857 | On the text "]" the two parsers report different codes |
| DocumentParse.AcceptedBuildsOne | deps/rapidjson-1.1.0/document.h:2155-2165 | For every accepted text one value is built, and the events delivered are those of that value, up to the callback an integer comes through |
| DocumentParse.ParseStream | deps/rapidjson-1.1.0/document.h:2155-2165 | Parsing with either parser, copying or in situ, returns the tree of the accepted text, and nothing otherwise; the copying mode leaves the text alone |
| DocumentParse.ReadText | deps/rapidjson-1.1.0/reader.h:485-516 | Either parser, copying or in situ, reports the verdict and events of the grammar |
| TextValidation.TextValidates | deps/rapidjson-1.1.0/schema.h:1662-1733 | For every accepted text, feeding the events of the reader to a new validator ends valid exactly when the recursive reading of the schema accepts the tree the text describes |
| TextValidation.ParseAndValidate | deps/rapidjson-1.1.0/schema.h:1662-1733 | Either parser, in either mode, with a document and a validator behind it: the tree of the text, and the verdict of the schema on it |
| TextValidation.SameStep | deps/rapidjson-1.1.0/schema.h:1686-1689 | The validator does not care which callback delivers an integer |
| Reader.Reader.IterativeParse | deps/rapidjson-1.1.0/reader.h:1822-1857 | For every text and flags the loop ends with the outcome of the grammar; it finishes only with an empty frame stack and every turn consumes input |
| Reader.Reader.Turn | deps/rapidjson-1.1.0/reader.h:1829-1848 | One turn delivers some events and leaves the rest of the outcome to the new state and frames |
| Reader.Reader.Transit | deps/rapidjson-1.1.0/reader.h:1649-1797 | Acting on the predicted state keeps the frame stack well nested and the outcome unchanged; no assertion is violated |
| Reader.Reader.TransitOpen | deps/rapidjson-1.1.0/reader.h:1656-1681 | Opening pushes the return state and a zero count |
| Reader.Reader.TransitKey | deps/rapidjson-1.1.0/reader.h:1683-1688 | A member name |
| Reader.Reader.TransitValue | deps/rapidjson-1.1.0/reader.h:1695-1706 | A value in an array, in an object or alone |
| Reader.Reader.TransitDelimiter | deps/rapidjson-1.1.0/reader.h:1690-1716 | A comma counts an entry; a colon does not |
| Reader.Reader.TransitFinish | deps/rapidjson-1.1.0/reader.h:1718-1777 | Closing pops the frame and reports its count, unless a trailing comma is forbidden |
| Reader.Reader.PushFrame | deps/rapidjson-1.1.0/reader.h:1659-1671 | The cells pushed are those of one frame |
| Reader.Reader.PopFrame | deps/rapidjson-1.1.0/reader.h:1725-1734 | The cells popped are those of the innermost frame; the outermost leads to Finish |
| Reader.Reader.HandleError | deps/rapidjson-1.1.0/reader.h:1801-1819 | The error of each state; an earlier error stands |
| Iterative.ResumeValue | deps/rapidjson-1.1.0/reader.h:1695-1706 | A state that expects a value goes on, after a value, as the state behind it |
| Iterative.ResumeOpen | deps/rapidjson-1.1.0/reader.h:1656-1681 | Pushing a frame turns the rest of the enclosing state into the unwinding of the stack |
| Iterative.ResumeClose | deps/rapidjson-1.1.0/reader.h:1718-1777 | Popping a frame resumes the enclosing state |
| Iterative.ResumeInside | deps/rapidjson-1.1.0/reader.h:1690-1716 | Steps inside a compound keep what is left to do |
| Iterative.ResumeStuck | deps/rapidjson-1.1.0/reader.h:1801-1819 | Where the table predicts an error, the recursive parser fails with the same code at the same place |
| Iterative.ResumeTrailing | deps/rapidjson-1.1.0/reader.h:1718-1724 | A closing bracket after a comma fails alike in both parsers when trailing commas are off |
| Reader.Reader.Parse | deps/rapidjson-1.1.0/reader.h:485-516 | The recursive parser ends with the outcome of the grammar |
| Reader.Reader.ParseValue | deps/rapidjson-1.1.0/reader.h:1392-1405 | A value, its events and what is left |
| Reader.Reader.ParseArray | deps/rapidjson-1.1.0/reader.h:657-702 | An array, with or without a trailing comma, and its element count |
| Reader.Reader.ParseObject | deps/rapidjson-1.1.0/reader.h:589-654 | An object, with or without a trailing comma, and its member count |
| Reader.Reader.ParseKeyword | deps/rapidjson-1.1.0/reader.h:705-741 | null, true and false, or the place of the first wrong byte |
| Reader.Reader.ParseString | deps/rapidjson-1.1.0/reader.h:808-837 | A string or name; in situ, this and all earlier decoded strings and the unread text stay intact |
| Reader.Reader.ParseStringToStream | deps/rapidjson-1.1.0/reader.h:840-905 | The decoding loop; the write cursor never passes the read cursor |
| Reader.Reader.ReadUnit | deps/rapidjson-1.1.0/reader.h:850-901 | One character or escape and the bytes it denotes, never more than the bytes read |
| Reader.Reader.ReadTrail | deps/rapidjson-1.1.0/reader.h:870-880 | The second half of a surrogate pair |
| Reader.Reader.ParseHex4 | deps/rapidjson-1.1.0/reader.h:755-774 | Four hexadecimal digits, or an error at the escape |
| Reader.Reader.PutAll | deps/rapidjson-1.1.0/stream.h:144-167 | Writing behind the read cursor leaves the unread text alone |
| Reader.Reader.SkipWhitespaceAndComments | deps/rapidjson-1.1.0/reader.h:560-587 | White space and, when allowed, both kinds of comments |
| Reader.Reader.SkipWhitespace | deps/rapidjson-1.1.0/reader.h:264-270 | White space |
| Reader.Reader.ParseNumber | deps/rapidjson-1.1.0/reader.h:1133-1390 | The number of the grammar; accumulators are fixed-width types that are shown never to overflow |
| Reader.Reader.Accumulate32 | deps/rapidjson-1.1.0/reader.h:1149-1184 | The 32-bit loop leaves before a digit could overflow it |
| Reader.Reader.Accumulate64 | deps/rapidjson-1.1.0/reader.h:1204-1229 | The 64-bit loop leaves before a digit could overflow it |
| Reader.Reader.AccumulateDouble | deps/rapidjson-1.1.0/reader.h:1231-1238 | The loop beyond 64 bits, and its refusal of magnitudes |
| Reader.Reader.ParseFraction | deps/rapidjson-1.1.0/reader.h:1240-1286 | The fraction and how many of its digits count |
| Reader.Reader.ParseExponent | deps/rapidjson-1.1.0/reader.h:1288-1327 | The exponent and its limit |
| Reader.Reader.EmitInteger | deps/rapidjson-1.1.0/reader.h:1372-1383 | The callback for an integer, with its exact value |
| Document.BuildValue | deps/rapidjson-1.1.0/document.h:1768-1805 | Replaying any tree into the handler leaves the stack as it was plus that tree |
| Document.FlagsAreRanges | deps/rapidjson-1.1.0/document.h:634-670 | The flag word of every number constructor says exactly which ranges hold the value |
| Document.FlagsDependOnValue | deps/rapidjson-1.1.0/document.h:634-670 | The four constructors give the same flag word to the same value |
| Document.VisitorKind | deps/rapidjson-1.1.0/document.h:1797-1803 | The visitor's choice of callback follows from the flag word |
| Document.GenericDocument.Push | deps/rapidjson-1.1.0/document.h:2334-2362 | A value or name event pushes one cell |
| Document.GenericDocument.EndObject | deps/rapidjson-1.1.0/document.h:2364-2368 | Closing an object pops name and value cells into members |
| Document.GenericDocument.EndArray | deps/rapidjson-1.1.0/document.h:2371-2375 | Closing an array pops its elements |
| Document.GenericDocument.Receive | deps/rapidjson-1.1.0/document.h:2333-2375 | A run of events equals the stack machine |
| Document.GenericDocument.CopyFrom | deps/rapidjson-1.1.0/document.h:2405-2416 | The deep copy equals the original |
| Document.PairsOfCells | deps/rapidjson-1.1.0/document.h:2364-2368 | Members laid out as cells are read back as the same members |
| Writer.WriteValue | deps/rapidjson-1.1.0/writer.h:171-236 | Replaying any tree into either writer violates none of its assertions and appends exactly the tree's text |
| WriterLayout.CompactIs | deps/rapidjson-1.1.0/writer.h:345-462 | The compact text is the literals, the quoted strings and the brackets with commas and colons between, and no white space |
| WriterLayout.PrettyIs | deps/rapidjson-1.1.0/prettywriter.h:190-237 | The pretty text line by line: each element or member starts a line indented by the open levels, or stays on the line of its array in single-line mode; closing brackets return to the depth of their value |
| WriterLayout.EscapedBytes | deps/rapidjson-1.1.0/writer.h:345-400 | Byte by byte, which escape a string is written with |
| WriterLayout.HexDigits | deps/rapidjson-1.1.0/writer.h:346-351 | The sixteen hexadecimal digits and their values |
| Writer.JsonWriter.Write | deps/rapidjson-1.1.0/writer.h:171-236 | One event on the object equals one step of the writer |
| Writer.JsonWriter.Prefix | deps/rapidjson-1.1.0/writer.h:437-455 | Comma or colon by the parity of the level counter |
| Writer.JsonWriter.PrettySpacing | deps/rapidjson-1.1.0/prettywriter.h:190-232 | Line breaks, blanks and indentation of the pretty writer |
| Writer.JsonWriter.WriteIndent | deps/rapidjson-1.1.0/prettywriter.h:234-237 | As many indentation characters as levels are open |
| Writer.JsonWriter.WriteString | deps/rapidjson-1.1.0/writer.h:345-413 | The loop writes the escaped bytes between quotes |
| Writer.JsonWriter.WriteTree | deps/rapidjson-1.1.0/document.h:1768-1805 | A whole tree, leaving the writer complete |
| RoundTrip.JsonRoundTrip | deps/rapidjson-1.1.0/writer.h:345-462 | Writing any tree without doubles, compact or pretty, and parsing the text with either parser under any flags builds the same tree |
| RoundTrip.ReadValue | deps/rapidjson-1.1.0/prettywriter.h:190-237 | Reading a tree's text in either layout yields its events and stops behind it |
| RoundTrip.ReadEscaped | deps/rapidjson-1.1.0/writer.h:377-399 | Strings of any bytes come back unchanged |
| RoundTrip.ReadInteger | deps/rapidjson-1.1.0/reader.h:1372-1383 | Every 64-bit integer comes back with the same value and callback |
| RoundTrip.WrittenDocument | deps/rapidjson-1.1.0/writer.h:437-462 | A root value leaves the writer with no open level |
| AsciiWriter.AsciiRoundTrip | deps/rapidjson-1.1.0/writer.h:368-398 | Reading what an ASCII-target writer wrote for well-formed UTF-8 gives the bytes back |
| AsciiWriter.ReadCharEscape | deps/rapidjson-1.1.0/writer.h:374-397 | The escape or escape pair of any scalar value is read as its UTF-8 |
| AsciiWriter.AsciiIsGrammar | deps/rapidjson-1.1.0/writer.h:371-373 | Writing succeeds exactly on well-formed UTF-8 |
| AsciiWriter.AsciiIsAscii | deps/rapidjson-1.1.0/writer.h:368-399 | The output is printable ASCII |
| AsciiWriter.WriteString | deps/rapidjson-1.1.0/writer.h:345-413 | The loop for an ASCII target |
| Utf.DecodeIsGrammar | deps/rapidjson-1.1.0/encodings.h:146-183 | The decoder accepts exactly the characters of the ABNF in section 4 of RFC 3629 and takes exactly their bytes |
| Utf.ValidateIsDecode | deps/rapidjson-1.1.0/encodings.h:186-213 | Validation accepts what decoding accepts and copies the bytes read |
| Utf.DecodeEncoded | deps/rapidjson-1.1.0/encodings.h:102-122 | Decoding undoes encoding on every scalar value |
| Utf.EncodeDecoded | deps/rapidjson-1.1.0/encodings.h:146-183 | Encoding undoes every successful decoding; the result is a scalar value |
| Utf.Utf8Means | deps/rapidjson-1.1.0/encodings.h:102-129 | The bits of a code point in the bytes of its encoding, by the table of section 3 of RFC 3629 |
| Utf.MaskMeans | deps/rapidjson-1.1.0/encodings.h:215-232 | The byte ranges each mask of the range table admits |
| Utf.Decode16Encoded | deps/rapidjson-1.1.0/encodings.h:277-290 | UTF-16 decoding undoes encoding |
| Utf.Encode16Decoded | deps/rapidjson-1.1.0/encodings.h:308-323 | UTF-16 encoding undoes every successful decoding |
| Utf.Utf16Means | deps/rapidjson-1.1.0/encodings.h:276-295 | The high and low ten bits of U' in the two units, by section 2.1 of RFC 2781 |
| Utf.To16IsGrammar | deps/rapidjson-1.1.0/encodings.h:661-667 | Exactly well-formed UTF-8 strings transcode |
| Utf.ThereAndBack | deps/rapidjson-1.1.0/encodings.h:661-667 | UTF-8 to UTF-16 and back is the identity on well-formed strings |
| Utf.BackAndThere | deps/rapidjson-1.1.0/encodings.h:661-667 | UTF-16 to UTF-8 and back is the identity where defined, through well-formed UTF-8 |
| Pointer.PointerRoundTrip | deps/rapidjson-1.1.0/pointer.h:941-976 | Parsing what Stringify writes gives the pointer back: plain for any names, as a URI fragment whenever they are UTF-8 |
| Pointer.PlainTextIsCanonical | deps/rapidjson-1.1.0/pointer.h:941-976 | Conversely, an accepted plain text is the text of its own tokens |
| Pointer.FragmentExists | deps/rapidjson-1.1.0/pointer.h:960-968 | The fragment form exists exactly when all names are UTF-8 |
| Pointer.NameRoundTrip | deps/rapidjson-1.1.0/pointer.h:802-900 | One name, in either form, whatever token follows |
| PointerText.StringifyIs | deps/rapidjson-1.1.0/pointer.h:941-976 | The text byte by byte: "~0", "~1", and in a fragment "%XX" in upper case for exactly the bytes that are not unreserved in section 2.3 of RFC 3986 |
| PointerText.MustEncode | deps/rapidjson-1.1.0/pointer.h:790-792 | A fragment must percent-encode exactly the bytes that are not unreserved |
| PointerText.IndexSyntax | deps/rapidjson-1.1.0/pointer.h:896-904 | What looks like an index is the array-index of section 4 of RFC 6901 |
| Pointer.IndexIsWrapped | deps/rapidjson-1.1.0/pointer.h:905-917 | The index conversion gives the value modulo 2^32, unless some prefix wraps to less than the one before |
| Pointer.FittingIndex | deps/rapidjson-1.1.0/pointer.h:905-917 | A value below 2^32 is the index |
| Pointer.OversizeIndex | deps/rapidjson-1.1.0/pointer.h:90-95 | The documented rule, no index for a value out of range, holds for such a token exactly when a prefix wraps to less or the value wraps to the invalid index |
| Pointer.OversizeExample | deps/rapidjson-1.1.0/pointer.h:905-917 | 5000000000 is out of range yet taken for the index 705032704 |
| PointerParse.GenericPointer.Parse | deps/rapidjson-1.1.0/pointer.h:802-932 | Tokens, lengths, terminators, indices, error code and offset are those of the grammar; token count is the number of '/'; no store leaves its array |
| PointerParse.ParseTokens | deps/rapidjson-1.1.0/pointer.h:838-922 | The outer loop fills every slot |
| PointerParse.ParseToken | deps/rapidjson-1.1.0/pointer.h:838-919 | One token, its terminator and its index |
| PointerParse.ParseName | deps/rapidjson-1.1.0/pointer.h:845-895 | The name loop |
| PointerParse.ParsePart | deps/rapidjson-1.1.0/pointer.h:846-893 | One turn of it, percent-encoding and tilde escapes included |
| PointerParse.ToIndex | deps/rapidjson-1.1.0/pointer.h:896-917 | The two index checks and the conversion loop |
| PointerParse.PartSkips | deps/rapidjson-1.1.0/pointer.h:845-893 | A part of a name never reaches over a '/' |
| PointerAccess.CreateExists | deps/rapidjson-1.1.0/pointer.h:401-447 | alreadyExist is true exactly when Get resolved beforehand; the tree is then unchanged |
| PointerShape.CreateShape | deps/rapidjson-1.1.0/pointer.h:401-447 | Create leaves exactly the tree in which, token by token, "-" appended, an index stayed within or filled up an array, a name was found or added last, and what was no fitting container became an array for an index and an object otherwise; nothing else changed |
| PointerShape.SetShape | deps/rapidjson-1.1.0/pointer.h:479-507 | So does Set, with the value at the end |
| PointerShape.SetContainers | deps/rapidjson-1.1.0/pointer.h:409-420 | After Set, the container in front of each token: the object that was there, else an array for an index and an object for a name |
| PointerShape.LeadsTo | deps/rapidjson-1.1.0/pointer.h:479-507 | What Get finds under one token: the element at the index, or the first member of the name |
| PointerAccess.SetThenGet | deps/rapidjson-1.1.0/pointer.h:610-617 | After Set, Get returns the set value exactly when no "-" token met an array |
| PointerAccess.SetKeepsOthers | deps/rapidjson-1.1.0/pointer.h:401-447 | Set leaves every value off its path as it was |
| PointerAccess.EraseExists | deps/rapidjson-1.1.0/pointer.h:711-749 | Erase succeeds exactly when the pointer is not the root's and Get resolves; otherwise nothing changes |
| PointerAccess.EraseRemoves | deps/rapidjson-1.1.0/pointer.h:711-749 | Erase takes exactly that child out of its container |
| PointerAccess.EraseConserves | deps/rapidjson-1.1.0/pointer.h:711-749 | The tree loses exactly as many values as the erased subtree holds |
| PointerAccess.EraseKeepsOthers | deps/rapidjson-1.1.0/pointer.h:711-749 | Whatever lies off the erased path is still found, elements behind an erased one under an index less by one |
| PointerAccess.EraseUndoesCreate | deps/rapidjson-1.1.0/pointer.h:401-447 | Erase undoes a Create that added one child |
| PointerAccess.GetValue | deps/rapidjson-1.1.0/pointer.h:479-507 | The loop resolves the pointer or reports the first token that does not resolve |
| PointerAccess.CreateValue | deps/rapidjson-1.1.0/pointer.h:401-447 | The loop, growing the tree under a cursor, equals the recursive description |
| PointerAccess.FindMember | deps/rapidjson-1.1.0/document.h:1153-1161 | The first member of that name, or none |
| Base64.RoundTrip | src/base64/base64.cpp:41-147 | Decoding gives back every encoded byte string |
| Base64.CanonicalRoundTrip | src/base64/base64.cpp:92-147 | Encoding gives back a decoded text exactly when that was canonical in the sense of section 3.5 of RFC 4648 |
| Base64.LeftoverBits | src/base64/base64.cpp:92-147 | "QR==" is not canonical: it decodes to "A", which encodes as "QQ==" |
| Base64.EncodedLength | src/base64/base64.cpp:41-90 | The encoding has 4*ceil(n/3) characters |
| Base64.DecodedLength | src/base64/base64.cpp:92-147 | Six bits a character, whole bytes only |
| Base64.SextetsAreBits | src/base64/base64.cpp:56-59 | The four sextets are the 24 bits of the group in order |
| Base64Table.EncodedByTable | src/base64/base64.cpp:41-89 | Every character of the encoding is the entry of Table 1 of RFC 4648 for the six bits at its place, or "=" |
| Base64Table.DecodedByTable | src/base64/base64.cpp:92-147 | Every decoded octet is the eight bits at its place among the table's numbers of the characters |
| Base64Table.InTable | src/base64/base64.cpp:31-39 | The characters decoding reads are those of the table |
| Base64.Encode | src/base64/base64.cpp:41-90 | The loop computes the encoding, last group included |
| Base64.Decode | src/base64/base64.cpp:92-147 | The loop computes the decoding of the characters up to the first foreign one |
| Base64.DecodeTail | src/base64/base64.cpp:126-146 | The 0xFF left in unused slots never reaches an emitted byte |
| XmlRoundTrip.DocumentRoundTrip | deps/rapidxml-1.13/rapidxml_print.hpp:241-294 | For legal names, NUL-free text and CDATA free of its end mark: parsing with default flags what was printed without indentation rebuilds the tree if and only if no data is adjacent, blank or outside the elements and every element value repeats its first data |
| XmlRoundTrip.AdjacentData | deps/rapidxml-1.13/rapidxml.hpp:1940-1993 | Data "x" and "y" side by side come back as one piece "xy" |
| XmlRoundTrip.BlankData | deps/rapidxml-1.13/rapidxml.hpp:2172-2178 | Data of one blank does not come back |
| XmlRoundTrip.NormalRoundTrip | deps/rapidxml-1.13/rapidxml_print.hpp:241-294 | Without those conditions it builds the normal form: adjacent data in one piece, blank data dropped, values following the data |
| XmlRoundTrip.ReadNode | deps/rapidxml-1.13/rapidxml.hpp:2037-2080 | A printed tag reads back as its node, whatever follows |
| XmlRoundTrip.ReadChildren | deps/rapidxml-1.13/rapidxml.hpp:2167-2233 | Printed children read back one after the other up to the closing tag |
| XmlRoundTrip.ReadAttributes | deps/rapidxml-1.13/rapidxml_print.hpp:178-204 | Printed attributes, with their choice of quotes, read back |
| XmlRoundTrip.ExpandEscaped | deps/rapidxml-1.13/rapidxml_print.hpp:47-81 | Expanding references undoes escaping, in text and in either kind of quotes |
| XmlReference.ExpandMeans | deps/rapidxml-1.13/rapidxml.hpp:1588-1711 | Characters, the five predefined entities and decimal and hexadecimal references are expanded to what they denote, in data and in either kind of quotes |
| XmlReference.ReadReference | deps/rapidxml-1.13/rapidxml.hpp:1646-1686 | One character reference: its code point in UTF-8, or the error beyond Unicode |
| XmlReference.EscapedMeans | deps/rapidxml-1.13/rapidxml_print.hpp:47-81 | What the printer writes for a text is a sequence of characters and predefined entities that denotes it |
| XmlReference.Tables | deps/rapidxml-1.13/rapidxml.hpp:2309-2570 | The characters each lookup table leaves out |
| XmlGrammar.ParseMeans | deps/rapidxml-1.13/rapidxml.hpp:1381-1411 | Every document by the grammar, with white space wherever tags and attributes allow it, references, comments, CDATA, instructions and a document type, parses to its nodes, with or without a byte order mark |
| XmlGrammar.ReadContent | deps/rapidxml-1.13/rapidxml.hpp:2167-2233 | Content by the grammar reads as its nodes up to the closing tag |
| XmlGrammar.ReadAttrs | deps/rapidxml-1.13/rapidxml.hpp:2237-2298 | Attributes by the grammar, in either quotes and with white space around the equals sign |
| XmlGrammar.PrintedAllAre | deps/rapidxml-1.13/rapidxml_print.hpp:107-294 | What the printer writes is a text of that grammar, byte for byte |
| XmlGrammar.ValueIsFirst | deps/rapidxml-1.13/rapidxml.hpp:1977-1984 | The value of an element is the text of its first character data |
| XmlRoundTrip.ReadCdata | deps/rapidxml-1.13/rapidxml_print.hpp:218-238 | CDATA without its end mark reads back |
| XmlRoundTrip.ReadDocument | deps/rapidxml-1.13/rapidxml.hpp:1381-1411 | Top-level siblings read back as their normal form, or are refused with "expected <" when data outside the elements is not blank |
| XmlRoundTrip.ReadRun | deps/rapidxml-1.13/rapidxml.hpp:2172-2178 | Text between two tags reads as one piece of data, or as nothing when it is blank |
| XmlRoundTrip.GatherFixed | deps/rapidxml-1.13/rapidxml.hpp:1940-1993 | Siblings are their own normal form exactly when no data is adjacent or blank and every element below is settled |
| XmlParser.ParseDocument | deps/rapidxml-1.13/rapidxml.hpp:1381-1411 | The in-place parser: when it ends, the nodes point into the overwritten text and show the tree it described before; errors carry message and place |
| XmlParser.ParseNode | deps/rapidxml-1.13/rapidxml.hpp:2081-2163 | A node after '<'; only its own stretch of text changes |
| XmlParser.ParseElement | deps/rapidxml-1.13/rapidxml.hpp:2037-2080 | An element; the zero after its name lands where no pointer reaches |
| XmlParser.ParseContents | deps/rapidxml-1.13/rapidxml.hpp:2167-2233 | Children and data up to the closing tag, earlier nodes staying intact |
| XmlParser.ParseData | deps/rapidxml-1.13/rapidxml.hpp:1940-1993 | Character data, its terminating zero and the character that ended it |
| XmlParser.ParseAttributes | deps/rapidxml-1.13/rapidxml.hpp:2237-2298 | All attributes of a tag |
| XmlParser.ParseAttribute | deps/rapidxml-1.13/rapidxml.hpp:2240-2297 | One attribute |
| XmlParser.ParseValue | deps/rapidxml-1.13/rapidxml.hpp:2268-2296 | A quoted value, expanded in place |
| XmlParser.ParseSpecial | deps/rapidxml-1.13/rapidxml.hpp:2091-2161 | Declarations, instructions, comments, CDATA, DOCTYPE and unknown constructs |
| XmlParser.ParseCdata | deps/rapidxml-1.13/rapidxml.hpp:1998-2033 | A CDATA section |
| XmlParser.SkipDoctypeBody | deps/rapidxml-1.13/rapidxml.hpp:1814-1850 | DOCTYPE with nested brackets |
| XmlParser.ParseClosing | deps/rapidxml-1.13/rapidxml.hpp:2188-2211 | The closing tag, whose name is not compared under default flags |
| XmlInPlace.SkipAndExpand | deps/rapidxml-1.13/rapidxml.hpp:1570-1718 | Expansion in place: the write cursor never passes the read cursor, the unread text stays, the result is the expansion of the original, and a fault is placed at the write cursor for an invalid code, at the read cursor otherwise |
| XmlInPlace.PutPiece | deps/rapidxml-1.13/rapidxml.hpp:1590-1711 | One character or reference |
| XmlInPlace.PutNumeric | deps/rapidxml-1.13/rapidxml.hpp:1650-1686 | A numeric reference, whose UTF-8 fits behind its digits, or one beyond Unicode, where nothing is written |
| XmlInPlace.InsertCoded | deps/rapidxml-1.13/rapidxml.hpp:1511-1554 | The UTF-8 of a code, written last byte first |
| XmlInPlace.ReadCode | deps/rapidxml-1.13/rapidxml.hpp:1652-1680 | The digits, accumulated modulo 2^64 |
| XmlInPlace.Skip | deps/rapidxml-1.13/rapidxml.hpp:1558-1565 | The longest run of a character class |
| XmlPrinter.PrintAndParse | deps/rapidxml-1.13/rapidxml_print.hpp:241-294 | Printing a document and parsing the text in its own buffer shows its normal form, which is the document itself exactly when it is settled |
| XmlPrinter.PrintNode | deps/rapidxml-1.13/rapidxml_print.hpp:107-164 | The text of a node |
| XmlPrinter.PrintChildren | deps/rapidxml-1.13/rapidxml_print.hpp:169-174 | The texts of the children in order |
| XmlPrinter.PrintAttributes | deps/rapidxml-1.13/rapidxml_print.hpp:178-204 | The texts of the attributes |
| XmlPrinter.PrintQuoted | deps/rapidxml-1.13/rapidxml_print.hpp:188-199 | The value in the quotes that suit it |
| XmlPrinter.CopyAndExpand | deps/rapidxml-1.13/rapidxml_print.hpp:47-81 | The escaping loop |
| XmlPrinter.FindChar | deps/rapidxml-1.13/rapidxml_print.hpp:94-100 | The search loop |
| XmlList.XmlNode.PrependNode | deps/rapidxml-1.13/rapidxml.hpp:1076-1092 | Prepends to the represented sequence; all other lists and every pointer rule are kept |
| XmlList.XmlNode.AppendNode | deps/rapidxml-1.13/rapidxml.hpp:1097-1113 | Appends to the represented sequence |
| XmlList.XmlNode.InsertNode | deps/rapidxml-1.13/rapidxml.hpp:1119-1136 | Inserts before a given child, or at the end |
| XmlList.XmlNode.RemoveFirstNode | deps/rapidxml-1.13/rapidxml.hpp:1140-1150 | Removes the first child |
| XmlList.XmlNode.RemoveLastNode | deps/rapidxml-1.13/rapidxml.hpp:1155-1167 | Removes the last child; the last pointer of an emptied list keeps its value |
| XmlList.XmlNode.RemoveNode | deps/rapidxml-1.13/rapidxml.hpp:1171-1185 | Removes a given child |
| XmlList.XmlNode.RemoveAllNodes | deps/rapidxml-1.13/rapidxml.hpp:1188-1193 | Empties the list and orphans every child |
| XmlList.InsertForest | deps/rapidxml-1.13/rapidxml.hpp:1328-1343 | Inserting a parentless node keeps every list in order and touches no other list |
| XmlList.RemoveForest | deps/rapidxml-1.13/rapidxml.hpp:1328-1343 | So does removing a child |
| XmlList.EmptiedForest | deps/rapidxml-1.13/rapidxml.hpp:1188-1193 | So does emptying a list |
| XmlList.Relinked | deps/rapidxml-1.13/rapidxml.hpp:1328-1343 | Relinking one list correctly keeps the pointer rules for all nodes |
| JsonPool.MemoryPoolAllocator.Malloc | deps/rapidjson-1.1.0/allocators.h:176-188 | A new block at the end of the head chunk, apart from all live ones, aligned exactly when its chunk is; failure exactly when asked for nothing or refused memory; the whole chunk list and the used size are stated |
| JsonPool.MemoryPoolAllocator.Realloc | deps/rapidjson-1.1.0/allocators.h:191-221 | With any truthful original size, also after a block was shrunk: failure exactly when asked for nothing or a needed chunk is refused, the same address exactly when shrinking or growing the last block, the old contents kept and every other live block left in place with its bytes |
| JsonPool.MemoryPoolAllocator.Clear | deps/rapidjson-1.1.0/allocators.h:145-153 | Every chunk is given back once, the user's buffer emptied |
| JsonPool.MemoryPoolAllocator.Size | deps/rapidjson-1.1.0/allocators.h:168-173 | The loop sums the used sizes |
| JsonPool.MemoryPoolAllocator.Capacity | deps/rapidjson-1.1.0/allocators.h:158-163 | The loop sums the capacities, which bound the used sizes |
| JsonPool.Carve | deps/rapidjson-1.1.0/allocators.h:181-187 | The end of the head chunk is a new block: the invariant of every run |
| JsonPool.Extend | deps/rapidjson-1.1.0/allocators.h:205-212 | Growing the last block in place keeps that invariant |
| JsonPool.BlockAlignment | deps/rapidjson-1.1.0/allocators.h:185-187 | A block is aligned exactly when its chunk is |
| JsonPool.LiveAligned | deps/rapidjson-1.1.0/allocators.h:181-187 | If the base allocator aligns its chunks, every live block is aligned |
| JsonPool.SizeWithinCapacity | deps/rapidjson-1.1.0/allocators.h:158-173 | Size never exceeds Capacity |
| XmlPool.MemoryPool.AllocateAligned | deps/rapidxml-1.13/rapidxml.hpp:599-631 | An aligned block inside the current pool, apart from all earlier ones; a new pool, with its header, is taken exactly when the block does not fit, and the new pools, headers and free pointer are stated |
| XmlPool.MemoryPool.Clear | deps/rapidxml-1.13/rapidxml.hpp:525-537 | Follows the headers back and frees each dynamic pool once |
| XmlPool.RoomSuffices | deps/rapidxml-1.13/rapidxml.hpp:607-613 | The worst-case size suffices for every raw address |
| XmlPool.BlocksSpareHeaders | deps/rapidxml-1.13/rapidxml.hpp:615-622 | No block reaches into a pool's header |
| XmlPool.Carve | deps/rapidxml-1.13/rapidxml.hpp:624-630 | A block at the aligned free pointer keeps the invariant of every run |

## Left out

- Doubles: strtod, dtoa, full-precision parsing and the double checks of the schema. A double keeps its literal; the
  magnitude loop beyond 64 bits and the exponent are exact unbounded integers, so the machine's own rounding there and
  the width of the exponent counters are not captured. For a tree with doubles the schema theorem therefore only speaks
  of `type` and of the literal, not of minimum, maximum, multipleOf or the real hash.
- Reader.Reader.AccumulateDouble: sums exact integers where the code sums rounded doubles.
- The reader flags for validated encoding, NaN and infinity, and numbers as strings; a handler that refuses an event;
  SIMD scanning; streams other than zero-terminated memory.
- Counts of elements and members are unbounded, where the library uses 32-bit counters.
- Integer-to-text helpers are taken as canonical decimal, the internal stack as a sequence.
- Schema `$ref`, `pattern`, `patternProperties`, minLength, maxLength and bounds given as doubles; compiling a schema
  from its JSON text; the name of the keyword that failed.
- Nested validators inside a context are values of the validator's state, not objects of their own, and a hasher is put
  into an object only for the event it receives, so aliasing between them is not captured. Schema hash codes follow a little-endian machine.
- SchemaTheorem.StreamingAgrees: enum and uniqueItems compare hashes, as the code does, so trees that collide count as
  equal.
- Pointer operations that change a tree (Create, Set, Erase) work on tree values with a path as cursor, so pointer
  stability and reuse of memory are not captured. Tokens supplied by hand with an index that does not match their name
  are left out.
- A pointer text of length zero: the code still looks at the byte behind it for a '#', which the terminating zero of a
  C string never is; the model takes the text as ending there.
- XML text with a NUL, and CDATA that holds "]]>": neither can be printed as XML, and the round trip does not cover them.
- `GenericValue::operator==`, RemoveMember, capacity growth of arrays and objects, string sharing and move semantics.
- Document types with an internal subset are parsed (`XmlParser.SkipDoctypeBody`) but not part of `XmlGrammar`; neither
  are texts that are not well-formed XML and that the parser lets pass, such as a lone '&'.
- BOM detection and the UTF-16LE/BE, UTF-32 and AutoUTF codecs; code points that are not scalar values.
- UTF8 arithmetic: shifts and masks of code points are written as division and remainder.
- RapidXML parse flags other than the defaults, printing with indentation, printing of declarations, comments, DOCTYPE
  and instructions, wide characters, attribute lists as linked lists (they mirror the node lists), clone_node.
- XmlParser builds nodes as values that point into the text; linking them is the subject of XmlList.
- Allocators: addresses and sizes are unbounded, so a request near the end of the address space, where aligning or
  adding would wrap around, is not captured. What the system allocator hands out is an input, assumed apart from what
  is still in use.
- Base64 input lengths are unbounded; `isalnum` is the one of the C locale.
- src/db, src/config, src/entity, the protobuf code and all file and stream wrappers: plumbing around libraries that
  are not part of this model.
