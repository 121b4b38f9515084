# A Dafny model of a log collector's core

The repository is a log collector.  A receiver takes UDP packets, masters pass them to workers
through rings of pointers, workers extract fields and write JSON lines to files that are rotated
when they grow.  The configuration and the output use a JSON library with its own hash tables,
string maps and growing strings.  This project models the parts of it that carry state from step
to step, and proves what they promise.

| part | files |
|---|---|
| JSON reader | `JsonValue`, `JsonCodec`, `JsonStringExact`, `JsonNumber`, `JsonNumberExact`, `JsonNumberErrors`, `JsonParser`, `JsonGrammar`, `JsonLexer`, `JsonReader`, `JsonText`, `JsonMessages`, `JsonFailures`, `JsonPositions` |
| JSON writer, equality, hashing | `JsonPrinter`, `JsonLayout`, `JsonRoundTrip`, `JsonDocument`, `JsonReals`, `JsonCanonical`, `JsonHash` |
| JSON reference counts | `RefGraph`, `RefChanges`, `RefMembers`, `RefCount`, `RefRuns` |
| growing strings | `DynamicString` |
| hash table, string map | `Chains`, `HashGrowth`, `HashMap`, `HashRuns`, `HashIteration`, `Shash` |
| ring of pointers | `RingGeometry`, `RingIndex`, `Ring`, `RingMachine`, `RingProgress` |
| receiver, masters, workers | `HandOver`, `HandOverCounts`, `HandOverBooks`, `HandOverRoutes`, `HandOverSenders`, `HandOverRuns`, `HandOverProgress`, `HandOverSetup` |
| log file rotation | `Rotation`, `RotationEpochs` |
| words as natural numbers, byte strings | `Bits`, `Bytes` |

`dafny verify dfyconfig.toml` checks the whole project.

## How the model reads the source

* Code that works by changing things step by step is a class or a method here, with the source's
  fields, loops and branches.  Each such method is tied by its `ensures` to a function of the old
  state, and the theorems are about that function: `JsonReader.Reader` to `JsonLexer.Feed`,
  `JsonPrinter.Serializer` to `JsonPrinter.Print`, `JsonNumber.LexNumber` to `ScanNumber`,
  `Ring.Ring` and `RingMachine` to a bounded queue, `HashMap.Map` to chains of nodes,
  `Shash.Table` to a finite map, `RefCount.Heap` to a multigraph of references,
  `Rotation.FileHandle` to a counting protocol.
* Unsigned words of 32 and 64 bits are natural numbers; every wrap-around is written out
  (`% U32`, `% ULLONG_SPAN`), and `&`, `|`, `>>` are defined bit by bit in `Bits`.
* A JSON tree is a `Json`; its object members are listed in the order in which the hash table
  iterates over them.  `Eval` gives the value it stands for, with an object as a finite map.
  C's `==` on doubles is an arbitrary relation `same`: `json_equal` is proved to be equality of
  these values up to reals that `same` relates, and plain equality where one tree has no reals.
* The theorems about reading are stated against grammars written out on their own: literals of
  section 2.4, characters of section 2.5 and texts of section 2 of RFC 4627 (`JsonNumberExact`,
  `JsonStringExact`, `JsonText`); so are those about errors (`JsonFailures`).
* A double is a bit pattern.  strtod, the comparison with zero and the zero without a sign come as
  one record `Strtod` of arbitrary functions.
* The height limit of the parser is a field that never changes (`Setup`); every parser that the
  code creates has `JSON_MAX_HEIGHT`.
* The reader is modelled byte by byte: `JsonLexer.Core` is the lexer state, the buffer and the
  parser, `JsonParser.Parser` is the automaton with its explicit stack.  A frame on the stack
  keeps its own container and the name of the slot it hangs from.
* The ring is modelled twice: as a class whose operations run undisturbed (`Ring`), and as a
  machine in which every load and every store of one producer and one consumer is a step of its
  own, in any interleaving (`RingMachine`).  The head moves are plain stores
  (`src/ring_c11_mem.h:76-78` and `144-146`), so one producer and one consumer is a hypothesis.
* The hand-over is a machine over such ring machines; any thread may take its next step at any
  time.  The sender that recvfrom stores is a parameter of the receiver's turn.  Its hypotheses are
  one receiver, and dedicated cores for every plugin.
* Every machine has a start state that the code builds, and that is proved to satisfy its invariant:
  `RingMachine.CreatedInv`, `HandOverSetup.Setup`, `RotationEpochs.StartsReady`.
* The rotation protocol is a class with `ref`, `prev_ref`, `fptr` and `prev_fptr`, and a machine
  in which drains read `fptr` without the lock and add to `file_size` when they end.

## What is false of the code

The code is modelled as it is.  Where it does not do what its comments or its callers expect, the
exact condition under which it does is a theorem.

* `json_lex_number` lets the mantissa go round at 2^64 when the accumulator is exactly
  ULLONG_MAX / 10 and the next digit is more than 5 (`src/json.c:647`).  `WrapExample`: 2^64 to
  2^64 + 3 are read as 0 to 3.  `ExactIff` gives the exact condition for every literal;
  `FewDigits` shows that 19 digits are always few enough.
* The comment of `json_deep_clone` promises a deep copy (`src/json.c:391`); the code makes a new
  container around the same children.  `RefCount.Heap.DeepClone`: the copy shares nothing with the
  original if and only if the original has no children; `CloneOfOne` is an array of one.
* `json_string_unescape` rejects a leading surrogate that no trailing one follows, but a trailing
  surrogate on its own is accepted and encoded.  `UnicodeAccepted` says what may follow `\u`, and
  `UnicodeIsScalar`: what is accepted becomes the UTF-8 form of a scalar value if and only if the
  first four digits are not a trailing surrogate.
* Values that refer to themselves are not freed.  `DestroyUnlessLoop`: json_destroy frees exactly
  what no reference leads to any more, if and only if there is no cycle to which none leads;
  `RefRuns.PerformAll` says the same of whole runs, and `SelfReference` makes such a cycle with
  four calls.
* `json_equal` compares reals with `==` and `json_hash` hashes their bits (`src/hash.c:54-61`), so
  0.0 and -0.0 are equal with different hashes and different texts.  `EqualHashIff` and
  `EqualPrintIff`: equal trees always hash alike, or print alike when sorted, if and only if the
  hash, or the format, of a double respects `==`.
* `json_equal` says true at once when both pointers are the same (`src/json.c:563`), although a
  NaN is not equal to itself.  `EqualSelf`: a tree equals itself in the recursive sense if and only
  if every real in it does.
* json_hash gives null, 0 and the empty array the same hash whatever the hash functions are
  (`HashTellsLittle`).  `SameHashIff`: with hash functions free of collisions two trees have the
  same hash if and only if the words hashed are the same.
* A real need not come back from its text: "%.*g" prints 1.0 as an integer.  `RealComesBack`: it does
  if and only if its text is read as that very real (`ReadsBack`); `RoundTripIff` holds for all trees
  whose reals are such.
* `ring_init` accepts the count 0, and an exact count of 2^31 or more leaves a ring of size 0;
  `ring_create` moreover refuses exact counts from 2^30 to
  2^31 - 1.  `RingGeometry.Init` and `RingGeometry.Create` give the exact conditions for a sound
  ring.
* A previous log file is closed when `prev_ref` reaches 0, without regard to which threads have
  called.  `SafeClose`: for a given order of callers every interleaving is safe if and only if in
  each complete round of n calls every one of the n threads calls once.  Calls triggered by the
  file size do not respect that; `OneThreadTwice` is the smallest failing case.
* `file_size` is not the size of the current log file: a drain that has read `fptr` before the file
  was replaced adds to it afterwards.  `SizeCounts`: it is what drains have counted into that file if
  and only if no such drain has counted anything since (in 64 bits); `StrayDrain` is the smallest
  case.  (What a drain of records counts leaves out the new line behind each.)
* A buffer whose address no plugin has is dropped by the master without a `free`
  (`src/logcollector.c:983-988`).  `Routing`: of the buffers that the masters have disposed of,
  over any run, exactly those are set aside whose sender no plugin has.
* A position in a hash table has 32 bits.  `AtPosition`: the position it gives is that of the next
  node if and only if that place fits.

## Model

| member | source | states |
|---|---|---|
| `JsonDocument.RoundTripIff` | src/json.c:1507-1636 | for every array or object of NUL-free strings, 64-bit integers and reals whose text is read as they are, and all flags: reading back what is printed gives the value that was printed if and only if it is nested at most 1000 deep; otherwise reading fails |
| `JsonReals.RealComesBack` | src/json.c:1537-1539 | an array of one real comes back from its text if and only if the text of the real is read as that real |
| `JsonDocument.RoundTrip` | src/json.c:1485-1493 | the same through a reader created with either setting of the trailer flag and fed the text |
| `JsonDocument.RoundTripEqual` | src/json.c:1047-1061 | whatever tables the reader builds, the tree it returns is json_equal to the one printed, and to no tree that is not, where that has no reals |
| `JsonDocument.SameTextSameValue` | src/json.c:1497-1505 | printing is injective at any depth of nesting: two trees, whose reals have texts that are read as they are, with the same text under the same flags have the same value |
| `JsonDocument.SameTextEqual` | src/json.c:1497-1505 | two such trees without reals are json_equal |
| `JsonRoundTrip.ReadsReal` | src/json.c:1537-1539 | the text of a real, if it is read as that real, is one real token in front of any delimiter |
| `JsonDocument.BoxedValue` | src/json.c:1507-1636 | a printed tree between brackets is read as its value by a parser whose stack may be high enough |
| `JsonDocument.PrintNulFree` | src/json.c:1638-1688 | the printed text holds no NUL, so strlen sees all of it |
| `JsonDocument.DepthArranged` | src/json.c:1579-1611 | sorting the members does not change the nesting depth |
| `JsonRoundTrip.ReadsPrinted` | src/json.c:1507-1688 | in front of any delimiter the reader turns the printed text into exactly the tokens of the tree in the order of printing |
| `JsonRoundTrip.ReadsString` | src/json.c:948-1029 | a quoted and escaped NUL-free string is read as one string token carrying it, whatever follows |
| `JsonRoundTrip.ReadsInteger` | src/json.c:948-1029 | the decimal form of every 64-bit integer is read as one integer token carrying it |
| `JsonRoundTrip.EvalArranged` | src/json.c:1579-1611 | printing members in another order keeps the value of the tree |
| `JsonRoundTrip.SortDistinct` | src/json.c:1579-1611 | sorting keeps the names of an object different |
| `JsonRoundTrip.NestingValue` | src/json.c:1223-1247 | the deepest stack of brackets over the tokens of a value is the nesting depth of the value |
| `JsonRoundTrip.SameTokensSameDepth` | src/json.c:1223-1247 | token sequences determine the nesting depth |
| `JsonCanonical.CanonicalForm` | src/json.c:1579-1611 | two printable trees, nested to any depth, are json_equal if and only if their sorted texts are the same |
| `JsonCanonical.EqualPrint` | src/json.c:1579-1636 | json_equal trees have the same sorted text at every depth, plain or pretty, although their tables may iterate in different orders, if they have no reals or the format of doubles respects == |
| `JsonCanonical.EqualPrintIff` | src/json.c:1537-1539 | that all json_equal trees print alike when sorted holds if and only if doubles that compare equal print alike |
| `JsonCanonical.EqualHash` | src/json.c:464-521 | json_equal trees have the same json_hash from every basis, for any hash functions of strings and integers, if they have no reals or the hash of doubles respects == |
| `JsonCanonical.EqualHashIff` | src/json.c:514-515 | that all json_equal trees hash alike holds if and only if doubles that compare equal hash alike |
| `JsonCanonical.EqualSorted` | src/json.c:464-480 | the sorted members of json_equal objects line up: same names, json_equal values |
| `JsonCanonical.SortUnique` | src/shash.c:278-308 | two sorted lists with the same different names have them at the same places |
| `JsonCanonical.EqualValues` | src/json.c:560-598 | the comparison loops decide Equal, whatever relation == is on doubles |
| `JsonCanonical.EqualObject` | src/json.c:523-540 | objects: counts first, then every member of one looked up in the other |
| `JsonCanonical.EqualArray` | src/json.c:542-558 | arrays: lengths first, then element by element |
| `JsonCanonical.HashValue` | src/json.c:493-521 | the hashing loops compute the hash that EqualHash is about |
| `JsonCanonical.HashObject` | src/json.c:464-479 | objects: names and values in the order of names |
| `JsonCanonical.HashArray` | src/json.c:481-491 | arrays: the length, then the elements |
| `JsonHash.HashIsMix` | src/json.c:464-521 | json_hash mixes the strings, integers and doubles of the tree into the basis, one after the other, objects in the order of their names |
| `JsonHash.SameHashIff` | src/json.c:464-521 | with hash functions free of collisions two trees have the same hash if and only if these are the same |
| `JsonHash.HashTellsLittle` | src/json.c:493-521 | null, 0 and the empty array have the same hash for any hash functions, and are not equal |
| `JsonValue.EqualIffAlike` | src/json.c:560-598 | for any relation == on doubles, json_equal holds if and only if the values of the two trees differ at most in reals that compare equal, for every iteration order of their tables |
| `JsonValue.EqualIffSameValue` | src/json.c:560-598 | where one of the trees has no reals, json_equal holds if and only if they stand for the same value |
| `JsonValue.EqualWithoutReals` | src/json.c:560-598 | where one of the trees has no reals, == on doubles makes no difference |
| `JsonValue.EqualSelf` | src/json.c:560-564 | that a tree equals itself, which the code takes for granted when the pointers are the same, holds if and only if every real in it compares equal to itself |
| `JsonValue.EvalFind` | src/shash.c:228-233 | looking a name up in an object finds the value that the finite map has for it, and nothing if it has none |
| `JsonValue.Find` | src/shash.c:214-226 | what is found has the name; if nothing is found no member has it |
| `JsonGrammar.AcceptsExactlyDocuments` | src/json.c:1344-1425 | a token sequence ends in the accepting state without error if and only if it is the token form of an array or object of section 2 of RFC 4627 nested at most 1000 deep; the tree left is its value, the last of several members of one name winning |
| `JsonGrammar.AcceptsLeadingDocument` | src/json.c:1314-1342 | without the check for trailing garbage: accepted if and only if it starts with such a document, and the parser is done behind it |
| `JsonGrammar.RunValue` | src/json.c:1261-1312 | from any state that expects a value, the tokens of a value leave the parser as putting that value would |
| `JsonGrammar.RunArray` | src/json.c:1399-1417 | from behind a bracket, the elements and the closing bracket leave the container closed with their value |
| `JsonGrammar.RunObject` | src/json.c:1362-1397 | the same for the members of an object |
| `JsonGrammar.RunDocument` | src/json.c:1344-1425 | a document nested at most 1000 deep is taken from the start to the end with its value in stack[0], whatever follows |
| `JsonGrammar.ReadValue` | src/json.c:1261-1312 | an accepted run from where a value is expected starts with the tokens of a value that is not nested too deep |
| `JsonGrammar.ReadContainer` | src/json.c:1223-1247 | an accepted run that starts with a bracket starts with a container that fits under the height limit |
| `JsonParser.InputValid` | src/json.c:1344-1425 | every token keeps the invariant of the parser: the state fixes the type of the top of the stack and whether a member name is set, the height stays within 0 to 1000, the stack is a path from the root; the first error stays |
| `JsonParser.PutValid` | src/json.c:1209-1221 | putting a value keeps the invariant and the frames below, and leaves a slot to hang a container from |
| `JsonParser.PushValid` | src/json.c:1223-1247 | pushing a container keeps the invariant, also where the height limit makes it fail |
| `JsonParser.PopValid` | src/json.c:1314-1342 | popping keeps the invariant and the tree that hangs from stack[0] |
| `JsonMessages.WhichMessage` | src/json.c:1344-1421 | the first token that cannot follow gets the message that the tokens before it call for, seen from the last of them and the innermost open bracket; a bracket that could follow is refused only at 1000 open containers, and then for that |
| `JsonMessages.FollowsOn` | src/json.c:1344-1421 | the stack holds the containers whose brackets are open, and the state says what is called for |
| `JsonLexer.ChunkingDoesNotMatter` | src/json.c:1088-1113 | feeding any number of pieces gives the same parser, error, position and byte count as feeding them as one |
| `JsonLexer.FeedConcat` | src/json.c:1123-1140 | feeding a then b is feeding a + b, byte counts added |
| `JsonLexer.FeedCoreConcat` | src/json.c:948-1029 | the same for the automata alone |
| `JsonLexer.FeedForgetsPositions` | src/json.c:1123-1140 | line and column numbers never influence what is read |
| `JsonLexer.LexInput` | src/json.c:948-1029 | every byte keeps the invariant, and a byte that is not consumed leaves the parser done or the lexer at its start, which is why feeding ends |
| `JsonLexer.DeliverValid` | src/json.c:1344-1425 | a complete lexeme, good or bad, ends with the parser done or the lexer at its start |
| `JsonLexer.Feed` | src/json.c:1123-1140 | feeding keeps the invariant and stops early only when the parser is done |
| `JsonLexer.Incomplete` | src/json.c:1166-1171 | when input ends, no error means the parser is in its end state |
| `JsonLexer.CString` | src/json.c:929-946 | the bytes in front of the first NUL, none of which is NUL; everything if there is none |
| `JsonText.AcceptsExactlyTexts` | src/json.c:1047-1061 | json_from_string accepts a text, up to its first NUL, if and only if it is the text of an array or object of RFC 4627 nested at most 1000 deep: white space, tokens with white space between them, numbers being literals inside the exponent guards that stand for a 64-bit integer or that strtod converts, strings being sequences of characters of section 2.5; the result is the value written there |
| `JsonText.NumberIff` | src/json.c:620-770 | a text becomes a number token if and only if it is a literal inside the guards: the integer it stands for if that has 64 bits, otherwise the double that strtod makes of it, without the sign of a zero |
| `JsonText.NumberRefused` | src/json.c:620-770 | a number is out of range if and only if it is a literal that stands for no 64-bit integer and strtod does not convert it; it is malformed if and only if it is no literal inside the guards |
| `JsonText.FirstLexeme` | src/json.c:948-1029 | a text starts with a token, behind which the parser goes on, or with what is no token, and then that is the error |
| `JsonFailures.WhyRefused` | src/json.c:1047-1061 | every error of json_from_string: behind white space and tokens that can stand there the text ends too early, or something is no token (a bad character, keyword, number, string), or a token cannot follow; and the message is the one for that |
| `JsonPositions.ReportedPosition` | src/json.c:1123-1140 | the position reported is the line, column and offset of the first byte with which the text is wrong, or of its end |
| `JsonPositions.FeedPosition` | src/json.c:1123-1140 | line, column and offset are the number of new lines consumed, the bytes behind the last, and all bytes |
| `JsonText.OneValue` | src/json.c:1047-1061 | a text is the text of one value only |
| `JsonText.TokensIn` | src/json.c:948-1029 | a text that is read without an error is white space and tokens, and the automaton accepts these tokens |
| `JsonText.WrittenReads` | src/json.c:948-1029 | a text written with tokens that the automaton accepts is read as just these tokens |
| `JsonText.QuotedIs` | src/json.c:929-946 | what stands between quotes is taken as a string token if and only if it is written with characters of section 2.5 of RFC 4627 that mean the string |
| `JsonText.ScalarNeverEnds` | src/json.c:1344-1425 | a scalar is never the last token of a text, and only punctuation may follow it, which is why numbers and keywords need no look-ahead |
| `JsonStringExact.AcceptsStrings` | src/json.c:834-907 | the inside of a string is accepted as the bytes s if and only if it is a sequence of plain characters, letter escapes, four digits and surrogate pairs that mean s |
| `JsonStringExact.UnescapeChar` | src/json.c:834-907 | each character is unescaped to what it means, a pair to the UTF-8 form of its scalar value |
| `JsonStringExact.WhyRefused` | src/json.c:771-907 | a string that is refused starts with characters, and behind them there is what the error says |
| `JsonStringExact.EscapeShortest` | src/json.c:1638-1688 | no text that is read as the same string is shorter than the escaped one |
| `JsonReader.Reader.constructor` | src/json.c:1115-1121 | a new reader is in the start state and satisfies the invariant |
| `JsonReader.Reader.Feed` | src/json.c:1123-1140 | the loop over the input takes the reader to the state, and returns the count, of the specification that ChunkingDoesNotMatter is about; it terminates |
| `JsonReader.Reader.Finish` | src/json.c:1148-1186 | the outcome is that of the specification; both assertions of the code hold |
| `JsonReader.Reader.LexInput` | src/json.c:948-1029 | one byte updates the fields as the specification says, and no unreachable case is reached |
| `JsonReader.Reader.LexKeyword` | src/json.c:600-618 | the buffer becomes one of three tokens or an error |
| `JsonReader.Reader.LexNumber` | src/json.c:620-770 | the buffer becomes the token, or the error, that NumberIff and NumberRefused are about |
| `JsonReader.Reader.LexString` | src/json.c:929-946 | the buffer becomes the unescaped string or the error of unescaping |
| `JsonReader.Reader.Input` | src/json.c:1344-1425 | a token changes the parser as the automaton does and resets the lexer |
| `JsonReader.Reader.Accept` | src/json.c:1347-1421 | the switch over the states of the parser, every state covered |
| `JsonReader.Reader.InputName` | src/json.c:1368-1375 | a member name is taken, anything else is an error |
| `JsonReader.Reader.ParseValue` | src/json.c:1261-1312 | a value token is put or pushed, anything else is an error |
| `JsonReader.Reader.PutValue` | src/json.c:1209-1221 | the value goes into the container on top, under the pending name if that is an object; the pending name is cleared |
| `JsonReader.Reader.Push` | src/json.c:1223-1247 | the container is put and becomes the top, unless the height is at its limit |
| `JsonReader.Reader.Pop` | src/json.c:1314-1342 | the container on top is closed, and the state follows from the one below |
| `JsonReader.Reader.Error` | src/json.c:1436-1456 | only the first error is kept, with its position; the reader is done |
| `JsonReader.FromString` | src/json.c:1047-1061 | reading a string is feeding it and finishing |
| `JsonReader.FromStream` | src/json.c:1088-1113 | reading a stream in pieces of any size gives the outcome of its whole text |
| `JsonPrinter.ToString` | src/json.c:1485-1493 | the text is that of the specification which the round trip and JsonLayout are about |
| `JsonPrinter.Serializer.Serialize` | src/json.c:1507-1549 | appends the text of the tree at the current depth, and restores the depth |
| `JsonPrinter.Serializer.SerializeObject` | src/json.c:1579-1611 | braces around the members, sorted by name if asked |
| `JsonPrinter.Serializer.SerializeObjectMember` | src/json.c:1560-1577 | comma and new line before every member but the first, then name, colon, value |
| `JsonPrinter.Serializer.SerializeMembers` | src/json.c:1589-1607 | the loop over the members in the order given |
| `JsonPrinter.Serializer.SerializeArray` | src/json.c:1613-1636 | brackets around the elements, no indentation if there is none |
| `JsonPrinter.Serializer.SerializeElems` | src/json.c:1622-1632 | the loop over the elements |
| `JsonPrinter.Serializer.IndentLine` | src/json.c:1551-1558 | a new line and indentation if pretty, else nothing; JsonLayout says what that makes of a text |
| `JsonPrinter.SortSorts` | src/shash.c:278-308 | the members are printed in the order of strcmp on their names |
| `JsonLayout.PlainIsOneLine` | src/json.c:1475-1477 | without JSSF_PRETTY the text of every tree, if the format of reals is free of white space, has no new line or other control character, and no white space outside quotes |
| `JsonLayout.PrettySqueezed` | src/json.c:1551-1558 | with JSSF_PRETTY, dropping the white space outside quotes gives the plain text |
| `JsonLayout.ElementLine` | src/json.c:1613-1636 | each element of an array starts a line of its own behind the bracket or a comma, indented by two blanks for each level, and a comma or the bracket follows it; the elements are in their order |
| `JsonLayout.MemberLine` | src/json.c:1560-1611 | so does each member of an object, with a colon and a blank behind its name; the members are in their order, or sorted if asked |
| `JsonLayout.LineCount` | src/json.c:1551-1558 | there is one new line for each element and each member of the whole tree and one in each empty object, and no other |
| `JsonLayout.PrintSpaced` | src/json.c:1507-1636 | pretty text is plain text with white space between tokens, at every depth |
| `JsonCodec.UnescapeInvertsEscape` | src/json.c:1673-1688 | unescaping the escaped form gives back every NUL-free byte string |
| `JsonCodec.UnescapeBasicPlane` | src/json.c:792-832 | the escape of every scalar value below 0x10000 but 0, in either letter case (section 2.5 of RFC 4627), becomes its UTF-8 form |
| `JsonCodec.UnescapeSurrogatePair` | src/json.c:792-832 | an escaped surrogate pair (section 2.2 of RFC 2781) becomes the UTF-8 form of its scalar value |
| `JsonCodec.SurrogatesOf` | src/unicode.h:14-34 | every scalar value above the basic plane is the value of exactly one pair |
| `JsonCodec.DecodesSurrogatePair` | src/util.c:245-262 | the shifts and masks compute 0x10000 plus ten bits of each half, and never leave the range of Unicode |
| `JsonCodec.UnicodeAccepted` | src/json.c:792-832 | what follows the escape u is accepted if and only if it is four hexadecimal digits that are not 0000 and, where they are a leading surrogate, another such escape of a trailing one |
| `JsonCodec.UnicodeIsScalar` | src/json.c:792-832 | what is accepted becomes the UTF-8 form of a scalar value if and only if the first four digits are not a trailing surrogate |
| `JsonCodec.LoneSurrogates` | src/json.c:834-907 | a leading surrogate without an escaped trailing one behind it is an error, whatever else follows; a trailing one alone is encoded, though it is no scalar value |
| `JsonCodec.PutUtf8Decodes` | src/dynamic-string.c:86-108 | an independent decoder of section 3 of RFC 3629, which rejects overlong forms, reads back every code point, whatever follows |
| `JsonCodec.UnescapePlain` | src/json.c:834-907 | a string without backslash and quote is its own unescaped form |
| `JsonCodec.StringUnescape` | src/json.c:834-907 | the loop computes the recursive specification and never reads past the end of the input |
| `JsonCodec.LexUnicodeAt` | src/json.c:792-832 | reading in place is reading the rest of the input |
| `JsonCodec.Lex4HexAt` | src/json.c:771-790 | four digits are read only if four bytes are left |
| `JsonCodec.Lex4Hex` | src/json.c:771-790 | a result is a nonzero number of four digits that were there |
| `JsonCodec.HexitsValue` | src/util.c:156-175 | ok if and only if all bytes are hexadecimal digits, and then the number they spell |
| `JsonCodec.HexitIs` | src/util.c:133-151 | a digit has its value in either letter case, and nothing else has one |
| `JsonCodec.SerializeString` | src/json.c:1673-1688 | appends the escaped string between quotes |
| `JsonNumberExact.ExactIff` | src/json.c:620-753 | for every literal of section 2.4 of RFC 4627 inside the exponent guards: the token is T_INTEGER exactly when the rational value is an integer of 64 bits, and carries it, if and only if the mantissa does not go round or what the accumulator then holds makes no 64-bit integer either |
| `JsonNumberExact.ExactIntegers` | src/json.c:719-753 | where the mantissa does not go round, the token is T_INTEGER if and only if the value is an integer in range, and it carries that value |
| `JsonNumberExact.FewDigits` | src/json.c:645-656 | a mantissa of at most 19 digits after its leading zeros does not go round |
| `JsonNumberExact.AccumulatorExact` | src/json.c:645-678 | significand, power and the imprecise flag describe the mantissa if and only if it did not go round |
| `JsonNumberExact.TokenOfHeld` | src/json.c:620-753 | the token is the exact one for the number the accumulator holds, gone round or not |
| `JsonNumberExact.WrappedIsNoInteger` | src/json.c:645-656 | a mantissa that goes round makes no 64-bit integer with any power of ten |
| `JsonNumberExact.AcceptsLiterals` | src/json.c:620-718 | the scanner accepts a text if and only if it is a literal of section 2.4 of RFC 4627 whose exponent is inside the guards |
| `JsonNumberExact.ScanRender` | src/json.c:620-718 | a literal is split at the right places: the only error left is the exponent |
| `JsonNumberExact.ScanDecimal` | src/json.c:1533-1535 | every 64-bit integer is read back from its decimal form |
| `JsonNumberExact.WrapExample` | src/json.c:645-656 | 2^64 to 2^64 + 3 are read as 0 to 3 |
| `JsonNumberExact.HeldUnlessWrap` | src/json.c:645-678 | the accumulator stands for the mantissa if and only if it does not go round, and for less otherwise |
| `JsonNumberExact.TokenOfLiteral` | src/json.c:620-753 | a literal inside the guards becomes the 64-bit integer that the accumulator with its power of ten stands for, or a real if there is none |
| `JsonNumberErrors.WhyNoNumber` | src/json.c:620-718 | a text that is refused starts with parts of a literal and stops where the message says: no digit behind the minus, the point or the exponent, a zero in front, an exponent outside the guards, or something behind the literal |
| `JsonNumber.LexNumber` | src/json.c:620-770 | the imperative scanner over 64-bit and 32-bit variables computes the specification; no signed overflow, both scaling loops end |
| `JsonNumber.LexInteger` | src/json.c:636-660 | sign, leading zeros and the digits before the point |
| `JsonNumber.LexWhole` | src/json.c:645-656 | the loop over the digits before the point, in 64-bit arithmetic |
| `JsonNumber.LexFraction` | src/json.c:669-677 | the loop over the digits behind the point |
| `JsonNumber.LexExponent` | src/json.c:698-705 | the loop over the digits of the exponent stays within an int |
| `JsonNumber.LexAfterWhole` | src/json.c:662-723 | from the decimal point to the token |
| `JsonNumber.LexAfterFraction` | src/json.c:680-723 | from the exponent to the token |
| `JsonNumber.LexSignedExponent` | src/json.c:693-723 | the guards keep the power of ten within an int |
| `JsonNumber.Figure` | src/json.c:724-753 | the two scaling loops and the verdict |
| `RefGraph.LiveExactlyInUse` | src/json.c:330-361 | on acyclic memory with exact counts a value is live if and only if some outstanding reference leads to it |
| `RefGraph.LiveIsInUse` | src/json.c:330-361 | by climbing from a live value to its parents one ends at an outstanding reference |
| `RefGraph.LostExactlyInLoops` | src/json.c:330-361 | with exact counts, some live value is unreachable from every outstanding reference if and only if there is a cycle of values none of which is reachable |
| `RefGraph.LiveUnlessLoop` | src/json.c:330-361 | live is the same as reachable if and only if there is no such cycle |
| `RefGraph.IdleIsLost` | src/json.c:330-361 | climbing from a live but unreachable value to what holds it ends in such a cycle |
| `RefGraph.AcyclicHasNoLoop` | src/json.c:330-361 | in memory without cycles there is none |
| `RefGraph.CycleLeaks` | src/json.c:330-361 | a value held by nothing but itself is such a cycle |
| `RefGraph.ApartIfEmpty` | src/json.c:391-421 | a new container of the same values shares nothing with the old one if and only if there are no such values |
| `RefGraph.EdgesChange` | src/json.c:174-183 | changing the children of one value changes the number of references to each value by just that |
| `RefGraph.AcyclicPut` | src/json.c:257-267 | putting a value into one that it does not lead to makes no cycle |
| `RefGraph.AcyclicNew` | src/json.c:1427-1434 | a new container of old values makes no cycle |
| `RefGraph.AcyclicPart` | src/json.c:330-361 | freeing makes no cycle |
| `RefChanges.CountedNew` | src/json.c:1427-1434 | a new value with count 1 keeps every count equal to parent references plus outstanding references |
| `RefChanges.CountedClone` | src/json.c:423-429 | so does incrementing the count for one more outstanding reference |
| `RefChanges.CountedDrop` | src/json.c:330-334 | so does dropping a reference that is not the last |
| `RefChanges.CountedDie` | src/json.c:330-361 | so does removing a value with its last reference, its children becoming outstanding |
| `RefChanges.CountedPut` | src/json.c:257-267 | so does exchanging references held by a container for outstanding ones |
| `RefChanges.NothingLeadsTo` | src/json.c:437-449 | a value with one reference, held by a caller, is inside no other value |
| `RefChanges.GoneExactly` | src/json.c:330-386 | in terms of the memory before destroying: what has gone is exactly what no reference that is left leads to, if and only if there is no cycle to which none leads |
| `RefChanges.GoneByDeath` | src/json.c:330-361 | destroying a value and then its children takes nothing but what it leads to, and nothing of any set of values that hold each other |
| `RefChanges.SameUse` | src/json.c:330-361 | what is left is reachable from the references left as it was before |
| `RefMembers.NoneLeadsBack` | src/json.c:257-267 | in memory without cycles the value to be replaced does not lead back to the object |
| `RefCount.Heap.constructor` | src/json.c:1427-1434 | an empty memory has exact counts |
| `RefCount.Heap.Create` | src/json.c:1427-1434 | the new value is the only thing that changes, and takes over its children |
| `RefCount.Heap.Clone` | src/json.c:423-429 | the same address with one more outstanding reference |
| `RefCount.Heap.Destroy` | src/json.c:330-361 | one reference is given up; only values it leads to disappear, none of a set that hold each other does, what remains is unchanged, and the values freed on the way are exactly those that disappeared, each once, the value itself last; the recursion ends |
| `RefCount.Heap.DestroyUnlessLoop` | src/json.c:330-361 | json_destroy has freed exactly what no reference that is left leads to, if and only if there is no cycle to which none leads |
| `RefCount.Heap.FreedUnlessLoop` | src/json.c:330-361 | between calls, of all values ever created the freed ones are exactly those that no reference leads to, if and only if there is no such cycle |
| `RefCount.Heap.DestroyIsExact` | src/json.c:330-361 | after json_destroy on acyclic memory a value has been freed if and only if no outstanding reference leads to it |
| `RefCount.Heap.SelfReference` | src/json.c:174-183 | an array that is added to itself and then destroyed stays live, and no reference leads to it |
| `RefCount.Heap.DestroyEach` | src/json.c:363-386 | the same for a list of references, one after the other |
| `RefCount.Heap.PutMember` | src/shash.c:153-169 | the finite map of the object is updated, and the value replaced becomes an outstanding reference |
| `RefCount.Heap.ObjectPut` | src/json.c:257-267 | the finite map of the object is updated, the reference taken over, and the value replaced given up, which does not free the object: the caller owns it, or the value replaced does not lead back to it; no cycle arises if the new value does not lead to the object |
| `RefCount.Heap.GiveUp` | src/json.c:263-267 | giving up the value replaced leaves the object live, though only its parent may own it |
| `RefCount.Heap.PutNested` | src/json.c:1209-1221 | the parser puts two members of one name into an object that only its parent owns; the last one stays |
| `RefCount.Heap.PutScalar` | src/json.c:1209-1221 | in memory without cycles a new scalar becomes a member of any live object, owned by the caller or not |
| `RefCount.Heap.NewMember` | src/json.c:1223-1247 | an empty object becomes a member, and its parent alone owns it |
| `RefCount.Heap.ArrayAdd` | src/json.c:174-183 | the element is appended and its reference taken over |
| `RefCount.Heap.Store` | src/json.c:174-183 | a container with other references keeps all counts exact |
| `RefCount.Heap.CloneEach` | src/json.c:451-462 | one more reference to every element |
| `RefCount.Heap.DeepClone` | src/json.c:391-421 | a new value with the same members or elements; everything else is unchanged; it shares nothing with the old one if and only if that has no members or elements |
| `RefCount.Heap.CloneOfOne` | src/json.c:391-421 | the copy of an array of one value holds that very value |
| `RefCount.Heap.CloneObject` | src/json.c:437-449 | the new object has the finite map of the old one |
| `RefRuns.PerformAll` | src/json.c:174-462 | over any run of create, clone, put, add, deep clone and destroy by a caller that gives away and up only what it owns: every step does what it should to the memory, and at the end the values freed are exactly those that no reference of the caller leads to, if and only if there is no cycle to which none leads |
| `RefRuns.Perform` | src/json.c:174-462 | one such operation |
| `DynamicString.Ds.constructor` | src/dynamic-string.c:27-33 | the empty string without a buffer |
| `DynamicString.Ds.Reallocate` | src/dynamic-string.c:54-66 | the contents survive the move to a longer buffer |
| `DynamicString.Ds.Reserve` | src/dynamic-string.c:54-66 | contents stay, there is room, and the capacity at least doubles; the class invariant bounds all copying ever done by the capacity, and the capacity by twice the greatest length asked for |
| `DynamicString.Ds.PutUninit` | src/dynamic-string.c:68-77 | old contents stay in front of the new bytes, and a terminator follows |
| `DynamicString.Ds.PutChar` | src/dynamic-string.h:69-78 | one more byte, on the fast and the slow path alike |
| `DynamicString.Ds.PutBuffer` | src/dynamic-string.c:116-120 | the bytes are appended |
| `DynamicString.Ds.PutCharMultiple` | src/dynamic-string.c:110-114 | n copies are appended |
| `DynamicString.Ds.PutUtf8` | src/dynamic-string.c:86-108 | the octets appended are those that the decoder of RFC 3629 reads back; beyond Unicode the replacement character |
| `DynamicString.Ds.Truncate` | src/dynamic-string.c:45-52 | the contents are cut to the shorter of the two lengths |
| `DynamicString.Ds.Cstr` | src/dynamic-string.c:322-330 | contents unchanged, a buffer and a terminator are there |
| `DynamicString.Ds.Chomp` | src/dynamic-string.c:449-458 | the old contents are the new ones with the byte behind them if and only if it ended in that byte |
| `HashGrowth.GrowthIsAmortised` | src/hmap.h:249-255 | over any run of insertions and removals from empty, on the counters alone, there are at most 2 mask + 1 nodes after each insertion, and all resizes together move at most two nodes for each insertion |
| `HashRuns.PerformAll` | src/hmap.h:249-267 | the same for a real table: it holds the nodes inserted and not removed, at most 2 mask + 1, and hmap_resize has moved at most two nodes for each insertion |
| `HashRuns.Perform` | src/hmap.h:249-267 | one insertion or removal changes n, mask and the moves of the table as it changes the counters |
| `HashGrowth.ApplyPaid` | src/hmap.h:249-255 | one insertion or removal keeps the credit that pays for the next resize |
| `HashGrowth.CalcMaskIs` | src/hmap.c:136-155 | the mask is all ones, never 1, at least half the capacity, and no larger than that needs |
| `HashGrowth.CalculateMask` | src/hmap.c:136-155 | the shifts compute that mask |
| `HashGrowth.BucketIsRemainder` | src/hmap.h:236 | the bucket of a hash is its remainder modulo the number of buckets |
| `HashMap.Map.constructor` | src/hmap.c:28-35 | an empty table is valid |
| `HashMap.Map.OrderIsNodes` | src/hmap.h:340-372 | the order of iteration names every node exactly once, and n of them |
| `HashMap.Map.InsertFast` | src/hmap.h:234-241 | the node goes to the front of the chain of its hash, every other chain stays; chains stay acyclic, disjoint and at home |
| `HashMap.Map.Insert` | src/hmap.h:249-255 | the set of nodes grows by the node, no hash changes, the mask grows if and only if more than half is used, and n is at most 2 mask + 1 |
| `HashMap.Map.LinkTo` | src/hmap.h:259-265 | the walk ends, and finds the link that leads to the node |
| `HashMap.Map.Remove` | src/hmap.h:259-267 | the node is cut out of its chain, every other chain stays, and its next pointer is preserved |
| `HashMap.Map.Replace` | src/hmap.h:276-285 | the new node stands where the old one stood |
| `HashMap.Map.Resize` | src/hmap.c:84-134 | the same nodes with the same hashes in another number of buckets, each moved once: only the arrangement changes |
| `HashMap.Map.MoveBucket` | src/hmap.c:103-110 | the outer loop: what is left in the old table and what is in the new one make up the old table |
| `HashMap.Map.MoveChain` | src/hmap.c:106-110 | the inner loop moves every node of a chain once |
| `HashMap.Map.Expand` | src/hmap.c:161-168 | nodes and hashes stay, and the mask becomes the larger one |
| `HashMap.Map.Shrink` | src/hmap.c:175-182 | nodes and hashes stay, and the mask becomes the smaller one |
| `HashMap.Map.Reserve` | src/hmap.c:191-198 | nodes and hashes stay, and the mask is enough for the capacity |
| `HashMap.Map.Clear` | src/hmap.c:54-61 | no node is left, and the table is valid |
| `HashIteration.ForEach` | src/hmap.h:148-154 | the loop visits every node of the table exactly once |
| `HashIteration.First` | src/hmap.h:355-359 | the first node of the order, or null if there is none |
| `HashIteration.Next` | src/hmap.h:368-372 | from each node of the order to the next, and from the last to null |
| `HashIteration.FirstFrom` | src/hmap.h:340-351 | the first node at or behind a bucket |
| `HashIteration.NextWithHash` | src/hmap.h:287-294 | the first node from a place on that has the hash: none before it has |
| `HashIteration.Contains` | src/hmap.c:291-303 | true if and only if the node is in the table |
| `HashIteration.AtPosition` | src/hmap.c:257-288 | the node at a position of the order; the position it leaves is the one of the next node if and only if that fits 32 bits; behind the end it is the beginning |
| `HashIteration.Behind32IsBehind` | src/hmap.c:257-288 | cutting bucket and offset to 32 bits gives the next place if and only if they fit |
| `HashIteration.ForEachPosition` | src/hmap.c:257-288 | from (0, 0) it yields the same order as the loop, and then is back at (0, 0) |
| `HashIteration.OrderWithout` | src/hmap.h:259-267 | removing a node leaves the rest of the order as it was |
| `HashIteration.RemoveFirst` | src/hmap.h:259-267 | removing the first node leaves the tail of the order |
| `HashIteration.RemoveEach` | src/shash.c:69-79 | the safe loop that removes what it visits visits each node once and empties the table |
| `HashIteration.PopHelper` | src/hmap.h:178-192 | the first node is removed, and the buckets before it are known to be empty |
| `HashIteration.PopEach` | src/hmap.h:194-198 | popping until null visits each node once and empties the table |
| `Shash.PerformAll` | src/shash.c:107-261 | over any run of add_once, replace, find, delete, clear, expand, shrink and reserve, for any hash function, the table gives the answers of a finite map and ends up standing for that map |
| `Shash.Perform` | src/shash.c:107-261 | the same for one operation |
| `Shash.ApplyOneMore` | src/shash.c:107-261 | runs of the finite map can be extended at the end |
| `Shash.Table.constructor` | src/shash.c:32-36 | the empty map |
| `Shash.Table.Find` | src/shash.c:214-233 | a node with the name is found if and only if there is one; in a table without duplicates it carries the data of the map |
| `Shash.Table.FindData` | src/shash.c:243-248 | the data of the name, or null |
| `Shash.Table.Add` | src/shash.c:107-114 | one more node with the name, whether or not the name was there; the map with one more name if it was not |
| `Shash.Table.AddOnce` | src/shash.c:133-142 | the map is extended if and only if the name was not there |
| `Shash.Table.Replace` | src/shash.c:153-169 | the map is updated, and the old data returned, or null |
| `Shash.Table.Delete` | src/shash.c:195-212 | the name of the node leaves the map |
| `Shash.Table.FindAndDelete` | src/shash.c:250-261 | the name leaves the map, and its data is returned, or null |
| `Shash.Table.Clear` | src/shash.c:69-79 | the map becomes empty |
| `Shash.Table.Expand` | src/hmap.c:161-168 | growing the table does not change the map |
| `Shash.Table.Shrink` | src/hmap.c:175-182 | shrinking the table does not change the map |
| `Shash.Table.Reserve` | src/hmap.c:191-198 | reserving does not change the map |
| `Shash.Table.Count` | src/shash.c:101-105 | the number of names in the map |
| `Shash.KeysWithin` | src/shash.c:312-327 | the loop decides inclusion of the key sets |
| `Shash.EqualKeys` | src/shash.c:312-327 | true if and only if the two maps have the same keys, though only one inclusion is walked |
| `Shash.Sort` | src/shash.c:278-308 | the nodes of the table, each once, in the order of their names |
| `Shash.InsertByName` | src/shash.c:278-284 | sorting by name: ordered, and a permutation |
| `RingGeometry.Align32Pow2` | src/ring.c:29-40 | the least power of two that is at least the count, and 0 exactly for 0 and for counts beyond 2^31 |
| `RingGeometry.PowerOf2Accepts` | src/defines.h:106 | the macro accepts the powers of two and also 0 |
| `RingGeometry.Init` | src/ring.c:42-73 | when it is fatal, and exactly when the ring is sound; in exact mode the size is the least power of two above the count |
| `RingGeometry.Create` | src/ring.c:76-100 | the same for the whole of ring_create, which refuses more |
| `RingIndex.Granted` | src/ring_c11_mem.h:68-74 | all, or as many as there is room for, or none, according to the behaviour |
| `RingIndex.SlotOf` | src/ring.h:230 | wrapping at 2^32 does not disturb which slot an ever-growing counter stands for |
| `RingIndex.FreeIsExact` | src/ring_c11_mem.h:58-66 | the wrapped difference is the exact free space |
| `RingIndex.EntriesAreExact` | src/ring_c11_mem.h:127-135 | the wrapped difference is the exact number of entries |
| `RingIndex.CountIsExact` | src/ring.h:593-600 | ring_count is exact when its two tails belong to one moment |
| `Ring.WrittenAt` | src/ring.h:70-79 | object k goes to slot (head + k) modulo size, and no other slot is touched |
| `Ring.WindowGrows` | src/ring.h:227-284 | dequeue reads back what enqueue wrote, behind what was there |
| `Ring.FourAtATime` | src/ring.h:233-246 | the masks of the unrolled loops split n into fours and a rest |
| `Ring.Ring.constructor` | src/ring.c:69-70 | a new ring is the empty queue |
| `Ring.Ring.MoveProdHead` | src/ring_c11_mem.h:38-81 | the free space reported is exact, the head moves by what is granted |
| `Ring.Ring.MoveConsHead` | src/ring_c11_mem.h:106-149 | the entries reported are exact, the head moves by what is granted |
| `Ring.Ring.EnqueuePtrs` | src/ring.h:227-253 | the unrolled and the wrapping loops equal the simple modular copy |
| `Ring.Ring.DequeuePtrs` | src/ring.h:258-284 | the objects fetched are the window from the head on; the rest of the table is untouched |
| `Ring.Ring.DoEnqueue` | src/ring.h:318-338 | the first granted objects are appended to the queue, and the free space reported is what is left |
| `Ring.Ring.DoDequeue` | src/ring.h:360-380 | the first granted objects leave the queue in order, and the count reported is what is left |
| `Ring.Ring.Count` | src/ring.h:593-600 | the length of the queue |
| `Ring.Ring.FreeCount` | src/ring.h:610-613 | the room in the queue |
| `RingMachine.Fifo` | src/ring.h:318-380 | under every interleaving of the single loads and stores of one producer and one consumer, what has been enqueued is what has been dequeued followed by the queue, which never exceeds the capacity: nothing lost, duplicated, overwritten or reordered |
| `RingMachine.StepKeeps` | src/ring_c11_mem.h:6-149 | every step of either end keeps cons.tail <= cons.head <= prod.tail <= prod.head <= cons.tail + capacity on unbounded counters, keeps what may still be read, and is a step of a bounded queue |
| `RingMachine.RunHistory` | src/ring.h:318-380 | over any run from any reachable state the histories grow by what the calls returned |
| `RingMachine.NoSlotIsShared` | src/ring.h:227-284 | no slot is written while it is being read |
| `RingMachine.CreatedInv` | src/ring.c:69-70 | a new ring satisfies the invariant and is empty, whatever its slots hold |
| `RingMachine.ProducerLoads` | src/ring_c11_mem.h:48-74 | the free space is exact at the load of cons.tail |
| `RingMachine.ProducerClaims` | src/ring_c11_mem.h:76-78 | the store of prod.head keeps the invariant and changes no queue |
| `RingMachine.ProducerStores` | src/ring.h:227-253 | a store to a slot overwrites nothing that may still be read |
| `RingMachine.ProducerPublishes` | src/ring_c11_mem.h:6-13 | the store of prod.tail appends exactly the objects of the call |
| `RingMachine.ConsumerLoads` | src/ring_c11_mem.h:116-142 | the number of entries is exact at the load of prod.tail |
| `RingMachine.ConsumerClaims` | src/ring_c11_mem.h:144-146 | the store of cons.head keeps the invariant and changes no queue |
| `RingMachine.ConsumerReads` | src/ring.h:258-284 | a load from a slot gives the object enqueued there |
| `RingMachine.ConsumerReleases` | src/ring_c11_mem.h:6-13 | the store of cons.tail removes exactly the objects read |
| `RingMachine.ConsumerCounts` | src/ring.h:593-600 | ring_count of the consumer is the length of the queue at its load of prod.tail |
| `RingMachine.ProducerOther` | src/ring.h:593-600 | the other steps of the producer change no queue; its ring_count is the length at its load of cons.tail |
| `RingProgress.EnqueueReturns` | src/ring.h:318-338 | a call of enqueue returns within so many steps of the producer as it has objects and 4 more, whatever else is done in between; its answer is that of the free space at its load of cons.tail: a fixed number of objects whole or not at all, a variable one as far as there is room |
| `RingProgress.DequeueReturns` | src/ring.h:360-380 | a call of dequeue returns within n + 4 steps of the consumer, with the objects at the front of the queue at its load of prod.tail |
| `RingProgress.ProducerFalls` | src/ring_c11_mem.h:6-81 | every step of a call brings its end nearer, and the one that returns an answer is the last |
| `RingProgress.ConsumerFalls` | src/ring_c11_mem.h:6-149 | the same for the consumer |
| `HandOverRuns.Ownership` | src/logcollector.c:846-1026 | along any schedule every buffer is in exactly one place: a hand, a ring, freed, or set aside; no ring holds one twice, none is freed twice, and what is freed or set aside stays so |
| `HandOverRuns.Routing` | src/logcollector.c:846-1026 | along any schedule buffer number k carries the address of the k-th packet received, for good; on its way to a worker and with one it is at a core of the plugin of that sender; of the buffers the masters have disposed of exactly those are set aside whose sender no plugin has; the receiver has counted the packets it has sent on |
| `HandOverRuns.RunRecords` | src/logcollector.c:856-857 | over any schedule the addresses of the buffers that have left the receiver are the senders in their order |
| `HandOverSenders.ReceiverRecords` | src/logcollector.c:856-857 | a turn of the receiver that gets a packet stores its sender in the buffer in hand |
| `HandOverProgress.SendEnds` | src/logcollector.c:868-872 | a send under way ends within five turns of its thread, in any interleaving: the ring has the buffer, or was full and the buffer is freed |
| `HandOverProgress.TakeEnds` | src/logcollector.c:979 | a take under way ends within five turns of its thread, with the first buffer of the queue if there is one |
| `HandOverProgress.MasterGets` | src/logcollector.c:975-1026 | a buffer with k others before it in the ring of a master is in the hand of the master within 12 (k + 1) of its turns |
| `HandOverProgress.PollGets` | src/logcollector.c:560-561 | a worker that polls a ring that holds something has its first buffer within five more turns |
| `HandOverProgress.EveryCore` | src/logcollector.c:1010-1018 | every dedicated core of the plugin can be the one chosen |
| `HandOverProgress.MasterCounts` | src/logcollector.c:990-991 | a master counts a packet exactly when it begins to pass it on, and for itself |
| `HandOverRuns.Conservation` | src/logcollector.c:846-1026 | the packets counted by the receiver are those in rings and hands behind it, freed or set aside; those counted by the masters are those sent on or being sent; each ring holds as many as its length says; free totals are exact |
| `HandOverRuns.RunKeeps` | src/logcollector.c:846-1026 | over any schedule totals and routes stay right, buffers that have left the receiver keep their addresses, and freed and set-aside ones stay where they are |
| `HandOverRuns.StartedOk` | src/logcollector.c:841-843 | one buffer with the receiver and empty rings satisfy everything |
| `HandOverBooks.ReceiverKeepsBooks` | src/logcollector.c:846-881 | each step of the receiver keeps the totals |
| `HandOverBooks.MasterKeepsBooks` | src/logcollector.c:979-1026 | each step of a master keeps the totals |
| `HandOverBooks.WorkerKeepsBooks` | src/logcollector.c:545-728 | each step of a worker keeps the totals |
| `HandOverBooks.SendEffect` | src/logcollector.c:868-872 | one step of a send: nothing to be seen, or the ring has the buffer at its end, or the ring is full and the buffer is freed and counted |
| `HandOverBooks.TakeEffect` | src/logcollector.c:979 | one step of a take: the thread has the first buffer of the ring, or none moves, and an empty-handed end means the ring was empty |
| `HandOverRoutes.MasterRoutes` | src/logcollector.c:979-1026 | a master sets a buffer aside if and only if no plugin has its address; otherwise it goes to a core of the plugin that has it, and to no other; every buffer stays where its address says |
| `HandOverRoutes.ReceiverRoutes` | src/logcollector.c:846-881 | a step of the receiver leaves every buffer where its address says |
| `HandOverRoutes.WorkerRoutes` | src/logcollector.c:545-728 | so does a step of a worker, which therefore only sees buffers of its own plugin |
| `HandOverRoutes.MasterMasterBooks` | src/logcollector.c:990-1021 | the packets counted by the masters are the buffers sent on or being sent, after a step of a master |
| `HandOverRoutes.ReceiverMasterBooks` | src/logcollector.c:846-881 | and after one of the receiver |
| `HandOverRoutes.WorkerMasterBooks` | src/logcollector.c:545-728 | and after one of a worker |
| `HandOverRuns.RingLength` | src/logcollector.c:560-561 | a ring is as long as the number of buffers whose place it is |
| `HandOver.SendOne` | src/logcollector.c:868-872 | one load or store of an enqueue of one buffer: it is in the ring afterwards, or the ring was full, or nothing is visible yet |
| `HandOver.TakeOne` | src/logcollector.c:979 | one load or store of a dequeue of one buffer: the first of the queue is taken, or the queue was empty, or nothing is visible yet |
| `HandOver.SendOrFree` | src/logcollector.c:868-872 | a step of a send keeps ownership, and an ended one leaves nothing in the hand; where the buffer went is HandOverBooks.SendEffect |
| `HandOver.ReceiverNext` | src/logcollector.c:846-881 | each step of receiver_loop keeps exclusive ownership of all buffers; what it records is HandOverSenders.ReceiverRecords |
| `HandOver.MasterNext` | src/logcollector.c:979-1026 | each step of main_loop keeps exclusive ownership of all buffers |
| `HandOver.WorkerNext` | src/logcollector.c:545-728 | each step of worker_loop from dequeue to free keeps exclusive ownership of all buffers |
| `HandOver.SendStepKeeps` | src/logcollector.c:868 | ownership through the ring machine, when sending |
| `HandOver.TakeStepKeeps` | src/logcollector.c:979 | ownership through the ring machine, when taking |
| `HandOver.FreeKeeps` | src/logcollector.c:727 | freeing a buffer that is in a hand keeps ownership: it was not freed before |
| `HandOver.AbandonKeeps` | src/logcollector.c:985-988 | dropping a buffer with an unknown address keeps ownership of the others |
| `HandOver.AllocateKeeps` | src/logcollector.c:878-880 | a new buffer is in the hand of the thread that allocated it only |
| `HandOverSetup.Setup` | src/logcollector.c:1635-1677 | for every configuration with a master, dedicated cores for each plugin and no unknown plugin, what main builds is a system from which Ownership and Conservation hold |
| `HandOverSetup.CreateReceiverRings` | src/logcollector.c:1362-1379 | one new ring to each master, and the rings there were stay |
| `HandOverSetup.CreateDedicatedRings` | src/logcollector.c:1381-1405 | one new ring from each master to each dedicated core of the plugin, and no other |
| `HandOverSetup.CreateRing` | src/ring.h:112 | RING_SIZE makes a sound, empty ring for one pointer less |
| `RotationEpochs.StartsReady` | src/logcollector.c:409-439 | however many threads register, one file is opened, and the system is one that SafeClose is about |
| `RotationEpochs.SafeClose` | src/logcollector.c:292-484 | for a given order of callers, no interleaving of unlocked reads of fptr, ends of drains and set calls closes a file under a drain, if and only if in every complete round of n calls each of the n threads calls once |
| `RotationEpochs.EnoughFrom` | src/logcollector.c:361-407 | once a round is enough, from any point within a round |
| `RotationEpochs.BadIsUnsafe` | src/logcollector.c:361-407 | if some round leaves a thread out, there is a possible run in which it drains into a closed file |
| `RotationEpochs.OneThreadTwice` | src/logcollector.c:361-407 | with two threads, one calling twice is such a run |
| `RotationEpochs.SetKeeps` | src/logcollector.c:361-407 | a set call in turn keeps what drains hold open |
| `RotationEpochs.RoundCloses` | src/logcollector.c:361-407 | a whole round closes the file that was current before it |
| `RotationEpochs.OnceEach` | src/logcollector.c:361-407 | n calls by n threads have no thread calling twice |
| `Rotation.Rotations` | src/logcollector.c:292-329 | k calls by n registered threads open exactly ceil(k / n) files and close k / n |
| `Rotation.BooksKept` | src/logcollector.c:292-439 | over any run ref + prev_ref is the number of registered threads, prev_fptr is null if and only if prev_ref is 0, at most two files are open, and each file replaced is closed once |
| `Rotation.ReplacedValid` | src/logcollector.c:361-407 | one set call keeps these books |
| `Rotation.SizeIsDrained` | src/logcollector.c:705-706 | over any run of registrations, drains and set calls file_size is what has been drained since the last file was opened, in 64 bits |
| `Rotation.SizeAfter` | src/logcollector.c:361-439 | a call that opens a file leaves file_size 0, every other call but a drain leaves it as it was; a set call opens one if and only if no rotation is under way |
| `Rotation.SizeTest` | src/logcollector.c:714 | once a file has been opened the size test fails until more than the limit has been drained |
| `RotationEpochs.SizeCounts` | src/logcollector.c:705-706 | with drains that read fptr without the lock: file_size counts what went to the current file and what late drains wrote to an older one; it is the size of the current file if and only if there is none of that |
| `RotationEpochs.StrayDrain` | src/logcollector.c:705-706 | the smallest run with a late drain |
| `Rotation.RegisteredValid` | src/logcollector.c:409-439 | one registration keeps these books |
| `Rotation.FileHandle.constructor` | src/logcollector.c:331-358 | no file, no thread |
| `Rotation.FileHandle.Create` | src/logcollector.c:409-439 | opens the file only for the first thread and registers one more |
| `Rotation.FileHandle.Set` | src/logcollector.c:361-407 | rotates and resets file_size if no rotation is under way, else leaves the file; who is last closes the previous file, which is open |
| `Rotation.FileHandle.AddSize` | src/logcollector.c:705-706 | adds to file_size in 64 bits |
| `Bits.AndMask` | src/ring.h:70-79 | masking with 2^k - 1 is the remainder modulo 2^k |
| `Bits.Smear32IsOnes` | src/ring.c:29-40 | five shifts and ors give all ones of the same width |
| `Bits.Smear64IsOnes` | src/hmap.c:136-150 | six do for 64 bits |
| `Bytes.AtMostTotal` | src/shash.c:278-284 | strcmp orders any two names |
| `Bytes.AtMostAntisymmetric` | src/shash.c:278-284 | names that compare equal are the same |
| `Bytes.AtMostTransitive` | src/shash.c:278-284 | the order of names is transitive |

## Left out

- JsonValue.Find: stands for the walk of shash_find over a list of members; the walk over the
  chains of the hash table is proved in `Shash.Table.Find`, and the two are not connected by a
  single object that holds both.
- RefCount.Heap.PutMember: keeps the members of an object in a list rather than in the hash table,
  so the order in which json_destroy meets them is that of the list.
- JsonValue.EqualSelf: trees are values here, so the shortcut of json_equal for two pointers that
  are the same is not a branch of the model; the theorem says when taking it changes nothing.
- RefRuns.Perform: the caller of a run does not replace a member of an object that it owns no
  reference to; ObjectPut itself covers that where the old member does not lead back.
- Shash.Sort: qsort is taken as any sort that gives an ordered permutation (an insertion sort
  here); the order of equal names does not matter because names are different.
- JsonReader.FromStream: a stream is a list of nonempty blocks; fread and its errors are outside.
- JsonNumber.LexNumber: the power of ten stays an int for buffers of at most INT_MAX bytes; the
  value of a real is left to strtod.
- RingMachine.StepKeeps: loads with acquire and stores with release are steps in program order;
  reordering by weaker hardware is not modelled.
- HandOver.MasterNext: plugins without dedicated cores (the branch on nb_slaves) and several
  receivers on one ring are outside, because the rings are for one producer and one consumer.
- HandOverProgress.PollGets: which ring a worker polls next is a choice of the schedule, so that it
  polls each ring again and again is not stated.
- HandOver.WorkerNext: only dequeue and free; matching, field extraction and the JSON output
  between them do not touch the buffer's ownership.
- RotationEpochs.SafeClose: the hypothesis that threads call once a round is on the callers; of the
  decision to call, the time is not modelled.
- Rotation.FileHandle.Set: directory creation and fopen succeed; on failure the code returns with
  the lock held or ends the program.
- Reals: strtod, the format, the hash and the comparison of reals are arbitrary functions; the round
  trip is stated for reals whose text is read as they are, the canonical form for trees without
  reals, equality and hashing for all trees.
- NUL bytes: the reader is proved total on all bytes, but strings that hold NUL are outside the
  round trip because C strings end there.
- The parser's pointers into its parent nodes are values with slots here; aliasing of the nodes on
  the stack with the finished tree is not captured, their contents are.
- The printer's output buffer is a byte sequence in `JsonPrinter`; the buffer itself is
  `DynamicString`.
- The inline bucket of an empty hash table is an ordinary array of one bucket; hmap_swap and
  hmap_moved, which exist because of it, are part of `Resize`.
- The hand-over and ring machines are functions on states and not loops over local variables,
  because other threads act between any two of their steps.
- malloc failure, overflow of size_t in lengths and of reference counts.
- The text of error messages; kinds and positions are kept.
- The growth of arrays by x2nrealloc and json_array_trim, which change no contents.
- hmap_random_node, hmap_node_moved, hash functions, ds_put_format, ds_put_strftime and
  ds_put_hex_dump.
- Write buffers, statistics, timing, signals, sockets, thread creation and core affinity.
- PCRE matching, custom functions, configuration and plugin data.
- logcollector_trial.c, which the build does not compile.
