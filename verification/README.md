# Proofs about the Thrift tree

This project models seven parts of the Thrift sources that are kept in this repository, and proves
what they are for. Every file is a Dafny module or a few; `dafny verify dfyconfig.toml` checks them all.

- **The scanner** (`ScannerTables.dfy`, `Scanner.dfy`): the engine that flex generated for the
  compiler, over any tables that meet a stated condition. The buffer, the sentinel, the refill in the
  middle of a token and the replay of recorded states are as in the code; how the input comes in
  chunks is left open. The tokens are those of longest match and first rule over the whole file.
- **MD5** (`Md5.dfy`): appending and finishing with a partial block, a two-word counter and 64
  unrolled steps, against the one-shot function of RFC 1321.
- **The parser** (`LrTables.dfy`, `LrItems.dfy`, `LrLanguage.dfy`, `LrUnpacked.dfy`, `LrParser.dfy`,
  `FieldKeys.dfy`): bison's driver over
  any packed tables that come with a certificate, namely for each state the symbols known to be on top
  of the stack and the states below them, and a rank that drops along reductions, and that pass a check
  which looks at each state and token once. With a second certificate, the items of each state, all of
  the language of the grammar is accepted.
  Growth of the two stacks is part of the model, and so are the automatic field keys.
- **Spec-driven structs** (`Wire.dfy`, `Serialization.dfy`, `WireVersions.dfy`, `HBase.dfy`): the PHP
  readers and writers that go by `$_TSPEC`, on a protocol of abstract tokens; the readers and writers
  generated without those loops are proved to do the same.
- **The JavaScript protocol** (`Json.dfy`, `JsonWriter.dfy`, `JsonStructs.dfy`, `JsonTrees.dfy`,
  `JsonArrival.dfy`, `JsonReader.dfy`, `JsonRoundTrip.dfy`, `JsonNumbers.dfy`, `JsonFields.dfy`,
  `JsonExamples.dfy`): the writer's stack machine, the JSON text
  between, the reader's stacks, and what arrives of a value that is sent.
- **Concurrent structures** (`StableVector.dfy`, `Counters.dfy`, `ServiceTracker.dfy`,
  `Aggregator.dfy`): steps of any number of threads in any order, or calls under a mutex.
- **Doc comments** (`Doctext.dfy`): the cleaner of the compiler, pass by pass.

Functions on values say what is meant; the methods and classes follow the code and are proved
against them. `Options.dfy` has what several modules share.

Some things are not as one might expect, and are stated as they are:

- The size of `StableVector` can be too small after two threads met (`StableThreads.SizeTooSmall`);
  exactly when it is exact is `StableThreads.SizeOfRun`, and when a step loses it `StableThreads.SizeLost`.
- The assertion at the end of `clean_up_doctext` fails exactly for texts with which there is nothing
  to do (`Doctext.AssertionFails`).
- A var that is null does not survive if a new object has another value for it
  (`WireVersions.RoundTrip`, `HBase.MutationRoundTrip`).
- In JavaScript a var that is zero, false or empty is not sent, and a false key arrives as a true one
  (`JsonArrival.ZeroLost`, `JsonArrival.FalseKeyLost`). A map with the key `hasOwnProperty` is not
  written at all, and the key `__proto__` does not arrive (`JsonStructs.OwnNameThrows`,
  `JsonArrival.ProtoLost`). Exactly which values arrive as they are is `JsonArrival.IntactArrives`.
- Strings with control characters that `writeString` does not escape are not read back
  (`Json.ParseEscaped`), and message names are not escaped at all (`Json.ParseUnescaped`,
  `Json.NotPlain`), so that a name can be read as another one (`JsonRoundTrip.HeardOther`); which
  messages are read is in `JsonRoundTrip.Exchange`.
- Automatic field keys can meet after a nested list of fields, or an explicit negative key
  (`FieldKeys.AttrsRestart`, `FieldKeys.NegativeMeets`), and ids of more than 32 bits are cut
  (`FieldKeys.WideMeets`); exactly which lists are accepted is `FieldKeys.ListAccepted`.

## Model

| member | source | states |
|---|---|---|
| ScannerTables.Tables.LongestIsLongest | thrift/compiler/cpp/thriftl.cc:1646-1680 | among the first n characters no longer prefix than the one found is accepted, and the one found is |
| ScannerTables.Tables.LongestUnique | thrift/compiler/cpp/thriftl.cc:1646-1680 | a prefix that is accepted, with none accepted after it, is the longest match |
| ScannerTables.Tables.FirstCharacterAccepted | thrift/compiler/cpp/thriftl.cc:1662-1680 | the first character of any text is accepted, so backing up always ends |
| ScannerTables.Tables.NextTokenAccepted | thrift/compiler/cpp/thriftl.cc:1662-1696 | any text that is not empty has a first token, of at least one character and not more than the text, which is accepted |
| ScannerTables.Tables.RuleIsFirst | thrift/compiler/cpp/thriftl.cc:1662-1680 | of the rules a state accepts the one taken comes first |
| ScannerTables.Tables.DeadForever | thrift/compiler/cpp/thriftl.cc:1646-1661 | a run that has jammed accepts nothing more, whatever follows |
| ScannerTables.Tables.TokenizeCovers | thrift/compiler/cpp/thriftl.cc:1646-1696 | the tokens of a text, put together, are the text: nothing is lost or read twice |
| ScannerTables.Tables.ResolvesNext | thrift/compiler/cpp/thriftl.cc:1650-1656 | what the compressed tables give is the entry at the end of the chain of states and classes, in which each state that has no entry of its own leaves to its default, with the meta class exactly if that is a template |
| ScannerTables.Tables.DenseNext | thrift/compiler/cpp/thriftl.cc:1650-1656 | it is the entry of the uncompressed table, whose rows have their own entries and those of their default states |
| ScannerTables.Tables.TokenizeLongestFirst | thrift/compiler/cpp/thriftl.cc:1600-1700 | the tokens of a text are, by the uncompressed table, the longest prefixes that match a rule, each with the first rule it matches |
| ScannerTables.Tables.LongestFirstUnique | thrift/compiler/cpp/thriftl.cc:1600-1700 | and there are no other such tokens |
| Scanner.Lexer.Transition | thrift/compiler/cpp/thriftl.cc:1650-1656 | the loop looks up just such a chain, and its result is the entry at the end |
| Scanner.BackingUpFindsMatch | thrift/compiler/cpp/thriftl.cc:1662-1680 | where the run stopped, the last accepting state at or before it is that of the longest match of the whole remaining input |
| Scanner.Lexer.MatchLoop | thrift/compiler/cpp/thriftl.cc:1646-1661 | the states recorded are those of the run over the text so far, and the loop ends where the run jams or at the sentinel |
| Scanner.Lexer.FindAction | thrift/compiler/cpp/thriftl.cc:1662-1680 | backing up ends at the last recorded state that accepts, with its first rule |
| Scanner.Lexer.Backup | thrift/compiler/cpp/thriftl.cc:1662-1680 | the action found is that of the last accepted prefix, or the end of the buffer if the sentinel was reached |
| Scanner.Lexer.PreviousState | thrift/compiler/cpp/thriftl.cc:2880-2905 | replaying the text before the current position records the very states that the uninterrupted run would have, NULs included |
| Scanner.Lexer.TryNulTransition | thrift/compiler/cpp/thriftl.cc:2906-2930 | a NUL of the input is a transition like any other, recorded unless the run jams on it |
| Scanner.Lexer.GetNextBuffer | thrift/compiler/cpp/thriftl.cc:2775-2877 | the pending text moves to the front and more input comes behind it; what is still to be scanned is the same text as before |
| Scanner.Lexer.RealNul | thrift/compiler/cpp/thriftl.cc:2639-2700 | a NUL inside the buffer is told from the sentinel, and scanning goes on behind it or backs up |
| Scanner.Lexer.NeedInput | thrift/compiler/cpp/thriftl.cc:2700-2758 | after a refill, or at the end of the file with text pending, scanning goes on where it stopped; it fails only when a token fills the buffer |
| Scanner.Lexer.EndOfBuffer | thrift/compiler/cpp/thriftl.cc:2639-2758 | each of the cases leaves the scanner at a state of the run over the pending text |
| Scanner.Lexer.BeforeAction | thrift/compiler/cpp/thriftl.cc:371-382 | the text of the token is copied if it is short enough, and the character behind it is held back |
| Scanner.Lexer.NextToken | thrift/compiler/cpp/thriftl.cc:1600-1700 | the next token is the longest match by its first rule, and what is pending is what follows it; a fatal stop only if that token does not fit |
| Scanner.Lexer.AllTokens | thrift/compiler/cpp/thriftl.cc:1600-1700 | all tokens up to the end of the input are those of the tokenization of what was pending |
| Scanner.ScanFile | thrift/compiler/cpp/thriftl.cc:1506-1530 | for any tables and any way of cutting a file into chunks, the tokens are those of the tokenization of the whole file, which by the uncompressed table are longest matches with the first rule; if every token fits, scanning does not fail |
| Md5.RotateMacro | thrift/compiler/cpp/src/md5.c:197 | the two shifts of the macro rotate by n positions |
| Md5.FSelects | thrift/compiler/cpp/src/md5.c:202 | section 3.4 of RFC 1321: where x has a one bit F is y, and where it has a zero bit z |
| Md5.GSelects | thrift/compiler/cpp/src/md5.c:228 | where z has a one bit G is x, and where it has a zero bit y |
| Md5.HParity | thrift/compiler/cpp/src/md5.c:254 | where y and z agree H is x, and where they differ it is not |
| Md5.IInverts | thrift/compiler/cpp/src/md5.c:280 | I is the complement of y but where x has a zero bit and z a one bit |
| Md5.AlphabetDigest | thrift/compiler/cpp/src/md5.c:131-381 | the digest of the alphabet is the one in section A.5 of RFC 1321: with the tables of sines and shifts, the order of the words, the initial registers, the padding and the byte order |
| Md5.SetF | thrift/compiler/cpp/src/md5.c:198-205 | a SET of round 1 is the operation of the same number of the indexed loop |
| Md5.SetG | thrift/compiler/cpp/src/md5.c:224-231 | a SET of round 2 is the operation of the same number of the indexed loop |
| Md5.SetH | thrift/compiler/cpp/src/md5.c:250-257 | a SET of round 3 is the operation of the same number of the indexed loop |
| Md5.SetI | thrift/compiler/cpp/src/md5.c:276-283 | a SET of round 4 is the operation of the same number of the indexed loop |
| Md5.Round1 | thrift/compiler/cpp/src/md5.c:207-222 | the sixteen unrolled steps of round 1 lead from state 0 to state 16 of the loop |
| Md5.Round2 | thrift/compiler/cpp/src/md5.c:233-248 | the sixteen unrolled steps of round 2 lead from state 16 to state 32 |
| Md5.Round3 | thrift/compiler/cpp/src/md5.c:259-274 | the sixteen unrolled steps of round 3 lead from state 32 to state 48 |
| Md5.Round4 | thrift/compiler/cpp/src/md5.c:285-300 | the sixteen unrolled steps of round 4 lead from state 48 to state 64 |
| Md5.Process | thrift/compiler/cpp/src/md5.c:131-310 | the 64 unrolled steps are the compression of section 3.4 of RFC 1321 |
| Md5.PaddingIsLeast | thrift/compiler/cpp/src/md5.c:375-376 | the padding ends at 56 modulo 64, has 1 to 64 bytes, and no shorter one will do (section 3.1 of RFC 1321) |
| Md5.WordBytesDecode | thrift/compiler/cpp/src/md5.c:379-380 | a word stored in four bytes, low-order byte first, is read back as itself |
| Md5.CountCarries | thrift/compiler/cpp/src/md5.c:334-337 | two 32-bit words with a carry count bits modulo 2 to the 64 |
| Md5.CountOffset | thrift/compiler/cpp/src/md5.c:328-378 | the offset and the pad length read off the low word alone are right for the whole length |
| Md5.Md5State.constructor | thrift/compiler/cpp/src/md5.c:312-320 | a new state is that of the empty message |
| Md5.Md5State.AddLength | thrift/compiler/cpp/src/md5.c:333-337 | after any number of appends the counter is 8 times the bytes, modulo 2 to the 64 |
| Md5.Md5State.Absorb | thrift/compiler/cpp/src/md5.c:339-358 | however blocks are cut, the registers are the fold over the whole blocks and the buffer is the rest |
| Md5.Md5State.Append | thrift/compiler/cpp/src/md5.c:322-358 | the message grows by the bytes given, and the state stays that of the message |
| Md5.Md5State.SavedLength | thrift/compiler/cpp/src/md5.c:366-375 | the eight bytes appended last are the length in bits, low-order byte first |
| Md5.Md5State.Finish | thrift/compiler/cpp/src/md5.c:360-381 | the digest is that of the message by sections 3.1 to 3.5 of RFC 1321, and no tail is pending |
| Md5.HashChunks | thrift/compiler/cpp/src/md5.c:312-381 | the digest depends on the concatenation of what was appended, and is its MD5 |
| LrTables.Tables.PushOk | thrift/compiler/cpp/thrifty.cc:1630-1660 | a state entered as the tables say keeps what is known of every state on the stack |
| LrTables.Tables.PopOk | thrift/compiler/cpp/thrifty.cc:2895-2905 | so does popping |
| LrTables.Tables.ReductionFindsHandle | thrift/compiler/cpp/thrifty.cc:1676-1690 | wherever the tables reduce, the right-hand side is on top of the stack, and the state below it has a goto |
| LrTables.Tables.AcceptsStartOnly | thrift/compiler/cpp/thrifty.cc:1640-1660 | accepting happens only at the end marker, with the start symbol alone on the stack |
| LrTables.Tables.StepsDrop | thrift/compiler/cpp/thrifty.cc:1518-1690 | every step of the machine leaves fewer steps to go: with the height of the stack the rank drops along reductions |
| LrTables.NodeFits | thrift/compiler/cpp/thrifty.cc:1676-1695 | trees that spell a right-hand side make a tree of its rule, whose value is what the action makes of theirs |
| LrTables.NodeYield | thrift/compiler/cpp/thrifty.cc:1676-1695 | which derives the same tokens |
| LrItems.PeekFollows | thrift/compiler/cpp/thrifty.cc:1598-1650 | the next token when some trees and then the rest of the input are to be read is one that the certificate says can follow |
| LrItems.ReadsTree | thrift/compiler/cpp/thrifty.cc:1518-1690 | in a state where its rule begins, what a tree derives is read in so many steps, whatever was on the stack before, and leaves its value and the goto of its symbol |
| LrItems.TreeAccepted | thrift/compiler/cpp/thrifty.cc:1500-3080 | with items for every state that pass their check, the machine accepts every input that has a parse tree, with the value of the tree |
| LrItems.OneTree | thrift/compiler/cpp/thrifty.cc:557-685 | and no input has two parse trees: the grammar is unambiguous |
| LrLanguage.PeekIs | thrift/compiler/cpp/thrifty.cc:518-519 | the symbol of a token of kind k, in the machine and in a parse tree, is entry k of the translation table, and the undefined symbol beyond its end |
| LrLanguage.TreesAreDerivations | thrift/compiler/cpp/thrifty.cc:557-700 | an input has a parse tree exactly if the symbols of its tokens are derived from the start symbol by rewriting left-hand sides |
| LrUnpacked.LookupIs | thrift/compiler/cpp/thrifty.cc:1598-1650 | the packed tables give, for a state and a token, the entry of the row of the state if check has the token there, and else the default reduction of the state |
| LrUnpacked.LookupGotoIs | thrift/compiler/cpp/thrifty.cc:2905-2920 | and for a state and a nonterminal the entry of the column if check has the state there, and else the default state |
| LrUnpacked.SameOutcome | thrift/compiler/cpp/thrifty.cc:1500-3080 | the textbook machine over tables with an entry for every state and symbol comes to the same as the one over the packed tables |
| LrParser.Relocate | thrift/compiler/cpp/thrifty.cc:484-497 | the contents are the same in the new block |
| LrParser.StacksFitBlock | thrift/compiler/cpp/thrifty.cc:456-497 | the two stacks in one block do not overlap and fit into the bytes asked for |
| LrParser.RelocateStacks | thrift/compiler/cpp/thrifty.cc:456-497 | from two arrays or from one block, both stacks are moved into one new block, where the second copy leaves what the first has put there |
| LrParser.Parser.Grow | thrift/compiler/cpp/thrifty.cc:1555-1588 | growth keeps both stacks, makes room for a push and fails only at the depth limit |
| LrParser.Parser.SetState | thrift/compiler/cpp/thrifty.cc:1518-1590 | the state is stored within the capacity, and there is room for one more push, or the depth limit is reached |
| LrParser.Parser.Backup | thrift/compiler/cpp/thrifty.cc:1598-1650 | reading the next token only when a state needs it, the driver does what the tables say for the next token |
| LrParser.Parser.DoShift | thrift/compiler/cpp/thrifty.cc:1643-1660 | a shift is that of the machine, and the trees on the stack derive one token more |
| LrParser.Parser.DoReduce | thrift/compiler/cpp/thrifty.cc:1666-1690 | a reduction is that of the machine, and the trees derive the same tokens |
| LrParser.Parser.PopPush | thrift/compiler/cpp/thrifty.cc:2899-2920 | popping, pushing the value and taking the goto keep the stacks consistent with the trees |
| LrParser.Parser.Recover | thrift/compiler/cpp/thrifty.cc:2926-3056 | no state shifts the error token, so recovery empties the stack and the parse ends |
| LrParser.Parser.Turn | thrift/compiler/cpp/thrifty.cc:1518-1690 | one turn of the driver is one step of the textbook machine |
| LrParser.Parser.Parse | thrift/compiler/cpp/thrifty.cc:1500-3080 | the driver ends; whatever is accepted has a parse tree over exactly the input, of which the result is the value; the outcome is that of the textbook machine, unless the depth limit is reached |
| LrParser.ParseInput | thrift/compiler/cpp/thrifty.cc:1500-3080 | the same for a fresh parser on any input; the outcome is that of the machine over the unpacked tables; what is accepted is derived from the start symbol, and if there are items that pass their check, everything that is derived is accepted, with the value of its parse tree, unless the depth limit is reached |
| FieldKeys.Struct.Append | thrift/compiler/cpp/src/parse/t_struct.h:73-85 | a key is refused exactly if it is there, and the sorted list stays sorted |
| FieldKeys.Parser.FieldIdentifier | thrift/compiler/cpp/thrifty.cc:2540-2587 | which id a field gets, and how the counter moves, which is an int |
| FieldKeys.Parser.FieldList | thrift/compiler/cpp/thrifty.cc:2484-2535 | a list that is accepted has distinct keys, with negative keys allowed or not and with nested lists; the key of a field is its id cut to 32 bits |
| FieldKeys.FlatLists | thrift/compiler/cpp/thrifty.cc:2484-2587 | without negative keys and nested lists, a list is refused exactly if two explicit positive ids, cut to 32 bits, are the same, or one of them is among the automatic keys -1, -2, ..., or those run through all numbers; else the keys are these |
| FieldKeys.NarrowFlatLists | thrift/compiler/cpp/thrifty.cc:2484-2587 | with ids of 32 bits and fewer than 2 to the 31 fields: exactly if two explicit positive ids are the same, which is then the key that is reported |
| FieldKeys.ListAccepted | thrift/compiler/cpp/thrifty.cc:2484-2587 | any list, with nested ones and with negative keys allowed or not, is accepted exactly if no two explicit positive ids, cut to 32 bits, are the same, no two runs of counted keys meet, and no such id is in a run, in it and in those inside it; a run begins at -1, where a nested list left the counter, or at an explicit id that is not positive, and counts on at the top below the bottom |
| FieldKeys.NarrowAccepted | thrift/compiler/cpp/thrifty.cc:2484-2587 | where ids and runs stay inside 32 bits: exactly if no two explicit positive ids are the same and no two runs overlap |
| FieldKeys.RunsMeet | thrift/compiler/cpp/thrifty.cc:2540-2587 | runs meet, by their first keys and lengths, exactly if there is a key in both |
| FieldKeys.WideMeets | thrift/compiler/cpp/src/parse/t_field.h:47 | the ids 1 and 4294967297 are the same key, and 4294967295 is that of the first automatic one |
| FieldKeys.AttrsRestart | thrift/compiler/cpp/thrifty.cc:2497-2503 | a nested list restarts the counter: here two automatic keys are the same and the list is refused |
| FieldKeys.NegativeMeets | thrift/compiler/cpp/thrifty.cc:2540-2566 | an explicit nonpositive key can make a later automatic key meet an earlier one |
| Serialization.WriteStruct | dataChange/thrift/src/Thrift.php:708-741 | the calls of _write on the protocol |
| Serialization.WriteMap | dataChange/thrift/src/Thrift.php:607-663 | the calls of _writeMap |
| Serialization.WriteList | dataChange/thrift/src/Thrift.php:665-706 | the calls of _writeList |
| Serialization.SkipValue | dataChange/thrift/lib/Thrift/Protocol/TProtocol.php:182-244 | what skip reads, and when it fails |
| Serialization.ReadStruct | dataChange/thrift/src/Thrift.php:558-605 | the vars of the object after _read, and what is left of the input; or that it fails |
| Serialization.ReadMap | dataChange/thrift/src/Thrift.php:439-503 | the array that _readMap makes; a later pair of the same key overwrites an earlier one |
| Serialization.ReadList | dataChange/thrift/src/Thrift.php:505-556 | the array that _readList makes, of a list or of a set |
| Wire.MapHoldsLast | dataChange/thrift/src/Thrift.php:439-503 | an array that is read holds, under each key that is sent, the last value sent with it, and nothing else |
| Wire.SetHoldsAll | dataChange/thrift/src/Thrift.php:505-556 | a set that is read has just the elements that are sent, each once |
| WireVersions.SkipsWritten | dataChange/thrift/lib/Thrift/Protocol/TProtocol.php:182-244 | skipping a value by its wire type consumes exactly the tokens that were written for it |
| WireVersions.ReadsWritten | dataChange/thrift/src/Thrift.php:439-741 | reading under one version of the specs what was written under another consumes exactly the tokens written, and yields the non-null fields that both versions have |
| WireVersions.ReadsVars | dataChange/thrift/src/Thrift.php:558-605 | into an existing object: the vars for which nothing was written keep their values |
| WireVersions.Transfer | dataChange/thrift/src/Thrift.php:558-741 | the same of the writer and the reader run one after the other |
| WireVersions.ViewOfOwn | dataChange/thrift/src/Thrift.php:558-741 | with one version the view is the value exactly if no null var has another initial value |
| WireVersions.RoundTrip | dataChange/thrift/src/Thrift.php:439-741 | a value survives writing and reading exactly if no null var has another initial value |
| HBase.ReadTCell | dataChange/thrift/lib/HBase/Types.php:53-90 | the unrolled reader of TCell agrees with _read on every input |
| HBase.ReadTColumn | dataChange/thrift/lib/HBase/Types.php:954-992 | the same of TColumn |
| HBase.ReadTRowResult | dataChange/thrift/lib/HBase/Types.php:1072-1141 | the same of TRowResult, with its map and its list |
| HBase.ReadMutation | dataChange/thrift/lib/HBase/Types.php:585-636 | the same of Mutation, with the values of a new object |
| HBase.WriteTCell | dataChange/thrift/lib/HBase/Types.php:92-108 | the unrolled writer of TCell makes the calls that _write makes |
| HBase.WriteTColumn | dataChange/thrift/lib/HBase/Types.php:994-1013 | the same of TColumn |
| HBase.WriteTRowResult | dataChange/thrift/lib/HBase/Types.php:1143-1189 | the same of TRowResult |
| HBase.WriteMutation | dataChange/thrift/lib/HBase/Types.php:638-664 | the same of Mutation |
| HBase.NewMutation | dataChange/thrift/lib/HBase/Types.php:536-636 | a mutation that is read from no fields is no deletion, has no column and value, and is written to the log |
| HBase.RowRoundTrip | dataChange/thrift/lib/HBase/Types.php:1017-1189 | every row is read back as it was written |
| HBase.MutationRoundTrip | dataChange/thrift/lib/HBase/Types.php:536-664 | a mutation is read back as it was written exactly if isDelete and writeToWAL are not null |
| Json.ParseEscaped | thrift/lib/js/thrift.js:525-562 | the escaped text is read back by section 7 of RFC 8259 exactly if the string has no control character but those that are escaped |
| Json.ParseUnescaped | thrift/lib/js/thrift.js:359-365 | text between quotation marks that is not escaped is read as it is exactly if nothing in it needs escaping |
| Json.NotPlain | thrift/lib/js/thrift.js:359-365 | two names that are not: a quotation mark, and a backslash before a letter |
| Json.ParsePrint | thrift/lib/js/thrift.js:571-579 | a JSON text is read back as the tree it was printed from, the last of the members with one name counting; it is not read at all exactly if there is a string or a number in it that is not JSON |
| JsonTrees.TreeSettled | thrift/lib/js/thrift.js:571-579 | what is read from the text of a value is its tree with one member for all Boolean keys of a map |
| JsonTrees.TreeLegible | thrift/lib/js/thrift.js:480-562 | the text of a value can be read exactly if no string that is written has a control character that is not escaped, and no number is infinite or not a number |
| JsonArrival.IntactArrives | thrift/compiler/cpp/src/generate/t_js_generator.cc:690-700 | a value is what arrives of it exactly if every var that is false in JavaScript is as in a new struct, no map has the key __proto__, and every map with Boolean keys has no false key, or a true one next to it and the values that then arrive |
| JsonArrival.ZeroLost | thrift/compiler/cpp/src/generate/t_js_generator.cc:690-700 | a field that is zero is not sent, and arrives as null |
| JsonArrival.FalseKeyLost | thrift/compiler/cpp/src/generate/t_js_generator.cc:1618-1630 | a false key is written as 1, and arrives as true |
| JsonArrival.ProtoLost | thrift/compiler/cpp/src/generate/t_js_generator.cc:1414-1415 | what a map has under the key __proto__ is not there when it arrives |
| JsonStructs.OwnNameThrows | thrift/compiler/cpp/src/generate/t_js_generator.cc:1572 | nothing that has a map with the key hasOwnProperty in it is written |
| JsonNumbers.ZeroTextIs | thrift/compiler/cpp/src/generate/t_js_generator.cc:690-700 | the number texts taken for zero are just those whose value is zero |
| JsonNumbers.DecimalValue | thrift/lib/js/thrift.js:480-515 | the value of digits with a dot and an exponent is what section 6 of RFC 8259 means by them |
| JsonNumbers.NumeralValue | thrift/lib/js/thrift.js:480-515 | the value of the text of an integer is the integer |
| JsonFields.TrueIs | thrift/compiler/cpp/src/generate/t_js_generator.cc:690-700 | what is skipped is just null, false, the empty string, zero and NaN |
| JsonFields.SentIfTrue | thrift/compiler/cpp/src/generate/t_js_generator.cc:690-700 | the fields among the members written are just those that are true in JavaScript |
| JsonFields.FieldArrives | thrift/compiler/cpp/src/generate/t_js_generator.cc:690-700 | a scalar that is true arrives as it is, and what is not true as what a new struct has |
| JsonExamples.KnownEscapes | thrift/lib/js/thrift.js:525-562 | which seven characters are escaped, and how |
| JsonExamples.KnownSequences | thrift/lib/js/thrift.js:571-579 | what an escape sequence is read as, and that no others are read |
| JsonExamples.KnownScalars | thrift/lib/js/thrift.js:404-419 | the text of a field with a Boolean, a byte or an i16: its id, then the value under the name of its type |
| JsonExamples.KnownNumbers | thrift/lib/js/thrift.js:404-419 | the same of an i32, an i64 and a double |
| JsonExamples.KnownString | thrift/lib/js/thrift.js:404-419 | the same of a string |
| JsonExamples.KnownStruct | thrift/lib/js/thrift.js:379-402 | the same of a struct without fields |
| JsonExamples.KnownMap | thrift/lib/js/thrift.js:421-465 | the same of a map with one pair |
| JsonExamples.KnownList | thrift/lib/js/thrift.js:467-482 | the same of a list of two elements |
| JsonExamples.KnownSet | thrift/lib/js/thrift.js:484-490 | the same of a set without elements |
| Json.ParseNumeral | thrift/lib/js/thrift.js:632 | parseInt of a field id's name is the id |
| JsonWriter.Writer.WriteStructEnd | thrift/lib/js/thrift.js:384-402 | the struct's entry becomes its text, field by field in order |
| JsonWriter.Writer.WriteFieldEnd | thrift/lib/js/thrift.js:412-419 | the value and the field's entry are popped, and the struct below has the field |
| JsonWriter.Writer.WriteMapEnd | thrift/lib/js/thrift.js:432-465 | what is above the map's entry becomes its members, keys as strings, with the right size |
| JsonWriter.Writer.WriteListEnd | thrift/lib/js/thrift.js:472-482 | what is above the list's entry becomes its elements |
| JsonWriter.Writer.WriteString | thrift/lib/js/thrift.js:525-562 | the quoted and escaped string is pushed |
| JsonStructs.WriteValue | thrift/lib/js/thrift.js:379-562 | the code throws exactly if a map that is written has the key hasOwnProperty; else tpos is as before after any value and tstack has one entry more: the JSON text of the value's tree |
| JsonStructs.WriteStruct | thrift/compiler/cpp/src/generate/t_js_generator.cc:678-720 | the same of a struct; vars that are false in JavaScript are left out |
| JsonStructs.WriteMap | thrift/compiler/cpp/src/generate/t_js_generator.cc:1543-1630 | the same of a map, whose keys are the names of properties: a Boolean one is always written as 1 |
| JsonStructs.WriteList | thrift/compiler/cpp/src/generate/t_js_generator.cc:1543-1620 | the same of a list or set |
| JsonStructs.KeyIsQuoted | thrift/lib/js/thrift.js:458 | whatever its kind, a key is quoted exactly once |
| JsonReader.Reader.ReadStructBegin | thrift/lib/js/thrift.js:602-612 | in an array the next struct is taken off and pushed; else the stack is as it was |
| JsonReader.Reader.ReadStructEnd | thrift/lib/js/thrift.js:614-618 | behind an array the struct is popped |
| JsonReader.Reader.ReadFieldBegin | thrift/lib/js/thrift.js:620-665 | some member that is left is removed and its value pushed, with its id and type; STOP when there is none |
| JsonReader.Reader.ReadFieldEnd | thrift/lib/js/thrift.js:667-675 | the stack is cut back to the height that was remembered |
| JsonReader.Reader.ReadMapBegin | thrift/lib/js/thrift.js:677-690 | types and size are taken off, and the members replace the map's array; it throws exactly if there is no array |
| JsonReader.Reader.ReadListBegin | thrift/lib/js/thrift.js:696-707 | types and size are taken off in place, and the list is on the stack twice; it throws exactly if there is no array |
| JsonReader.Reader.ReadScalar | thrift/lib/js/thrift.js:741-771 | the next element, some key with its value pushed, or the entry itself, popped |
| JsonRoundTrip.ReadValue | thrift/lib/js/thrift.js:602-783 | from the tree of any readable value what arrives of it is read, in whatever order members come, up to the order of a map's pairs, or the code throws, exactly where it is said to; rpos is then as before and rstack at its height, but for what is left of the value itself |
| JsonRoundTrip.ReadStruct | thrift/compiler/cpp/src/generate/t_js_generator.cc:594-672 | the same of a struct |
| JsonRoundTrip.ReadMap | thrift/compiler/cpp/src/generate/t_js_generator.cc:1307-1416 | the same of a map, whose values can be anything that is readable |
| JsonRoundTrip.ReadList | thrift/compiler/cpp/src/generate/t_js_generator.cc:1307-1419 | the same of a list or set of scalars or structs |
| JsonRoundTrip.OtherMessage | thrift/lib/js/thrift.js:359-365 | a message whose name would need escaping is not read with that name, if it is read at all |
| JsonRoundTrip.HeardMessage | thrift/lib/js/thrift.js:359-365 | a message whose name is read, as itself or as another one, is read with that name exactly if its body is |
| JsonRoundTrip.HeardPlain | thrift/lib/js/thrift.js:359-365 | a name is read as itself exactly if it needs no escaping |
| JsonRoundTrip.HeardOther | thrift/lib/js/thrift.js:359-365 | a name that is read as another one |
| JsonRoundTrip.VarsRead | thrift/compiler/cpp/src/generate/t_js_generator.cc:690-700 | a scalar that is true in JavaScript is read as it was sent, and what is not as what a new struct has |
| JsonRoundTrip.Exchange | thrift/lib/js/thrift.js:359-377 | for every struct and every name, from the writer's calls through the text to the reader's: a message is sent exactly if no map that is written has the key hasOwnProperty; it is read, with the name that its name is read as, exactly if the text is one that can be read; what arrives is then what the rules say; and that is the struct itself exactly if its false vars are the initial ones of a new struct, no map has the key __proto__ and its false keys do no harm |
| StableIndex.LevelOf | thrift/contrib/fb303/TClientInfo.h:101-116 | every index is in the range of its level, and the level is exactly as large as that range |
| StableIndex.LevelsDouble | thrift/contrib/fb303/TClientInfo.h:49-93 | the first two levels have 1024 elements, and each later one twice as many as the one before |
| StableIndex.PlaceOfIndex | thrift/contrib/fb303/TClientInfo.h:101-116 | every place of every level is that of an index: with SamePlace, of exactly one |
| StableIndex.SamePlace | thrift/contrib/fb303/TClientInfo.h:101-116 | different indices have different places |
| StableIndex.LevelsBounded | thrift/contrib/fb303/TClientInfo.h:51-76 | indices below 2 to the 31 need no more than 22 of the 64 levels reserved |
| StableVectors.StableVector.Expand | thrift/contrib/fb303/TClientInfo.h:85-95 | the levels asked for are there; those that were there stay, and the others are new |
| StableVectors.StableVector.Which | thrift/contrib/fb303/TClientInfo.h:101-116 | level and position exist, and the size covers the index |
| StableVectors.StableVector.At | thrift/contrib/fb303/TClientInfo.h:125-130 | an index is the same element at every call, however the vector grows in between |
| StableVectors.StableVector.PlacesDiffer | thrift/contrib/fb303/TClientInfo.h:125-130 | different indices are different elements |
| StableVectors.StableVector.Size | thrift/contrib/fb303/TClientInfo.h:132-135 | for calls one after the other, the size is one more than the largest index accessed |
| StableThreads.StepInv | thrift/contrib/fb303/TClientInfo.h:85-130 | every step of every thread keeps the invariant |
| StableThreads.Safe | thrift/contrib/fb303/TClientInfo.h:73-130 | in every interleaving no level is accessed before it is there, each is allocated once, vectLvl_ + 1 never exceeds their number, and that never exceeds what is reserved |
| StableThreads.LevelsStay | thrift/contrib/fb303/TClientInfo.h:85-95 | a level that is there stays the same for the rest of the run |
| StableThreads.SameElement | thrift/contrib/fb303/TClientInfo.h:125-130 | two accesses in a run are of the same element exactly if they are of the same index |
| StableThreads.SizeLost | thrift/contrib/fb303/TClientInfo.h:102-104 | a step makes the size too small exactly if it writes less than is there, having tested before |
| StableThreads.SizeKept | thrift/contrib/fb303/TClientInfo.h:102-104 | a call whose test and update nothing comes between loses nothing |
| StableThreads.SizeOfRun | thrift/contrib/fb303/TClientInfo.h:102-104 | in any run the size is exact exactly if the largest index that was written was written last |
| StableThreads.LargestIs | thrift/contrib/fb303/TClientInfo.h:102-104 | the largest written index is one that was written, and none is larger |
| StableThreads.SizeTooSmall | thrift/contrib/fb303/TClientInfo.h:102-104 | two threads can leave the size at 6 after index 9 was accessed |
| Counters.StepInv | thrift/contrib/fb303/cpp/FacebookBase.cpp:49-119 | every step of every thread keeps the invariant |
| Counters.NoLostUpdate | thrift/contrib/fb303/cpp/FacebookBase.cpp:49-101 | in every interleaving each counter is its last set value plus all later increments, and the events are a legal sequence of calls, one for each call |
| Counters.WrapIs | thrift/contrib/fb303/cpp/FacebookBase.cpp:70-71 | 64-bit arithmetic: the result has 64 bits, is the same modulo 2 to the 64, and is the plain one if that fits |
| Counters.CounterIsSum | thrift/contrib/fb303/cpp/FacebookBase.cpp:49-101 | in every interleaving a counter is there exactly if some call has set or incremented it; it is its last set value plus the plain sum of all later amounts, modulo 2 to the 64, and exactly that if no sum on the way overflows |
| Counters.ReturnsOwnResult | thrift/contrib/fb303/cpp/FacebookBase.cpp:49-119 | every call returns the result of its own event, which is at some time between its beginning and its end |
| Counters.ListingHeld | thrift/contrib/fb303/cpp/FacebookBase.cpp:95-106 | every value that getCounters returns was held during the call |
| Counters.ListingKeys | thrift/contrib/fb303/cpp/FacebookBase.cpp:95-106 | getCounters returns just the counters that there are when it ends |
| Counters.LocksReleased | thrift/contrib/fb303/cpp/FacebookBase.cpp:49-119 | a thread in no call holds no lock |
| Counters.NoDeadlock | thrift/contrib/fb303/cpp/FacebookBase.cpp:49-119 | while a call has not ended some thread can go on, even if locks prefer writers |
| Counters.GoesOn | thrift/contrib/fb303/cpp/FacebookBase.cpp:49-119 | a thread that can go on does change the state |
| ServiceTracker.SumsUpdate | thrift/contrib/fb303/cpp/ServiceTracker.cpp:205-213 | counting a call changes the sums over all services by that call |
| ServiceTracker.Tracker.CountService | thrift/contrib/fb303/cpp/ServiceTracker.cpp:185-213 | the counts and sums agree again when the mutex is released, and of the services just the one that was called has one call more and its duration |
| ServiceTracker.Tracker.FinishService | thrift/contrib/fb303/cpp/ServiceTracker.cpp:166-225 | with the accounting kept, a checkpoint is reported exactly if the interval is over |
| ServiceTracker.ExportedIs | thrift/contrib/fb303/cpp/ServiceTracker.cpp:250-264 | exported are the number of calls of a service and its average duration rounded down, or zero if there were no calls |
| ServiceTracker.Tracker.ReportCheckpoint | thrift/contrib/fb303/cpp/ServiceTracker.cpp:239-272 | the checkpoint says the time and what was counted since the last one, which the lifetime count has grown by; the counts start again, and the time and every service are exported |
| Aggregator.RequestContext.ClientReturn | thrift/contrib/async-test/test-server.cpp:59-79 | a reply is gathered; the last one answers and deletes the context |
| Aggregator.RepliesBounded | thrift/contrib/async-test/test-server.cpp:43-57 | replies are of different leaves that were sent to, during the loop or after it |
| Aggregator.GetValues | thrift/contrib/async-test/test-server.cpp:43-79 | for any order of replies and failures, with at least one leaf the callback is called once, at the last reply, with the values in the order they came; the context is deleted once and never touched again |
| Doctext.CleanUp | thrift/compiler/cpp/src/main.cc:400-526 | what the loops make of the text, and whether the last assertion holds |
| Doctext.ReturnsGone | thrift/compiler/cpp/src/main.cc:400-405 | just the carriage returns are taken out |
| Doctext.CleanedTidy | thrift/compiler/cpp/src/main.cc:400-523 | in the new text there is no carriage return, and no line ends in white space unless it is nothing else |
| Doctext.ContentKept | thrift/compiler/cpp/src/main.cc:400-526 | the text without white space is kept, but for one star of every later line where all have one at the same column |
| Doctext.StarPattern | thrift/compiler/cpp/src/main.cc:436-472 | the loop finds stars at a column exactly if some line after the first is not blank and all that are not begin with a star there |
| Doctext.IndentKept | thrift/compiler/cpp/src/main.cc:483-504 | the lines that are not blank lose the same indentation, and one of them all it has |
| Doctext.CleanedLines | thrift/compiler/cpp/src/main.cc:506-523 | the lines of the new text are just those that the passes leave |
| Doctext.RelativeIndentKept | thrift/compiler/cpp/src/main.cc:400-523 | in the new text any two lines after the first, behind their stars if they all have one, are indented as before relative to one another |
| Doctext.OneNotIndented | thrift/compiler/cpp/src/main.cc:400-523 | and one of them is not indented |
| Doctext.AssertionFails | thrift/compiler/cpp/src/main.cc:514-523 | the new text is at most one character longer, and is longer exactly if there was nothing to do to it |
| Doctext.AssertionFailsOnce | thrift/compiler/cpp/src/main.cc:514-523 | a comment of one character is one |

## Left out

- Scanner: actions that read characters themselves (`yyinput`), `REJECT`, `yymore` and `yyless`, line numbers, interactive input, the buffer stack, a buffer that is not to be refilled, and the contents of the generated tables.
- LrParser.Parser.Parse: that a rejected input has no parse tree is stated for tables with items that pass their check (LrItems.TreeAccepted, LrParser.ParseInput); for others, that the textbook machine over the same tables rejects it.
- LrParser: error messages, semantic actions (a function computes a rule's value from those of its right-hand side), and the contents of the generated tables.
- LrParser.Relocate: each stack of the parser is an array of its own; that both move into one block of bytes is LrParser.RelocateStacks.
- LrParser.Parser.Grow: allocation succeeds.
- Md5: byte order and alignment of the machine; words are read and stored low-order byte first.
- FieldKeys.Parser.FieldIdentifier: a counter below the least int, which C++ leaves undefined, goes on at the top; an id that is too large for an int is cut to its lowest 32 bits, as compilers do.
- FieldKeys: the strict mode in which automatic keys are an error, names, types and warnings.
- Serialization: what the protocols send for a token, the byte counts returned, and the conversion of array keys by PHP; keys and members of sets are scalars, as PHP arrays want them.
- HBase: BatchMutation, TScan and the other classes of the same shape. Objects are values there, so that two vars holding the same object are not modelled.
- JsonRoundTrip.ReadValue: lists of lists or of maps, which the reader does not handle, null elements, and the field id -1, which stands for no field.
- JsonRoundTrip.Exchange: keys of maps that are NaN; what is read behind a name that has a quotation mark or a `u` escape in it or ends inside an escape sequence; the text is read as JSON, in which `__proto__` is a name like others, and not evaluated as JavaScript, which is the other way to read it.
- JsonWriter.Writer.WriteString: a null string, which no field or key can be.
- JsonReader: JSON that is not a message of this protocol, the `u` escapes of strings, and white space between the tokens of a text. Numbers are kept as their texts.
- StableIndex.LevelsBounded: indices from 2 to the 31 on, for which the shift in the code is not defined.
- Counters: each value is read and written in one step.
- ServiceTracker.Tracker.ReportCheckpoint: the time since the server started, and the other lines that are logged.
- ServiceTracker: thread checks, and trackers that share a handler.
- Aggregator: the calls on the event loop, and other handlers' contexts.
- Doctext: that the copy stays inside its memory when the assertion is compiled out.
- The business scripts, the transports, the other language bindings and the code generators are not part of this model.
