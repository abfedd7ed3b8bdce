# dtu: verified model

This project models the parts of dtu whose correctness is hardest to see by reading the code, and proves what
callers rely on. `dafny verify dfyconfig.toml` checks all of it.

| file | models |
|---|---|
| `Prelude.dfy`, `Numbers.dfy`, `Wire.dfy` | splitting and joining, integer and hex text, wire text as a sequence of plain and escaped characters |
| `Escape.dfy`, `ParcelString.dfy`, `Builders.dfy` | the escaping chain, the value tree and its printer, the two string builders |
| `AppReader.dfy`, `AppReading.dfy`, `AppInputs.dfy`, `WireTheorems.dfy`, `FlatValues.dfy`, `IntentMaps.dfy` | the application's reader of those strings (Kotlin), and when it reads back what was printed |
| `Worlds.dfy`, `ParcelWords.dfy`, `ParcelParser.dfy`, `ParcelGrammar.dfy`, `ParserResults.dfy`, `CommandLines.dfy`, `EndToEnd.dfy` | hash map order and number rounding, the command-line grammar of values, which values it expresses, and the way from words to the application |
| `ShellWords.dfy`, `WordGrammar.dfy` | `split`, `quote`, and sections 2.2.1 to 2.2.3 of the POSIX Shell Command Language (IEEE Std 1003.1) |
| `StreamSplit.dfy` | the two-pipe poll loop and the incremental splitter |
| `CommandTree.dfy`, `FindCompletion.dfy`, `CompletionLines.dfy` | the completion compiler, and the argument walker that uses what it generates |
| `DexScheduler.dfy` | the bounded queue of child processes |
| `PoolRegistry.dfy` | the double-checked registry of database thread pools, as steps of any number of threads |
| `Manifest.dfy` | resource references over a table that may be cyclic, and provider authorities |
| `Header.dfy` | the 12-byte wire header |

## How the model is set up

* What the system does from outside is a parameter over which everything is quantified: how `poll` and `read`
  deliver (`StreamSplit.Round`), which callback call fails, how children end and when `try_wait` sees it
  (`DexScheduler.Env`), which threads step when (`PoolRegistry.Event`), what a connect or migration does, the
  iteration order of a command's sub-commands, the files of a resource table.
* The parser takes a `Worlds.World`: how words are rounded to floating-point numbers and printed again, and for
  every bundle and map of the command line, by the place of its words, the order in which its hash map is
  iterated. The orders of two maps are unrelated. What the parser returns is in the orders of its world, so what is
  printed and sent is too; every statement about command lines is for all worlds. `Worlds.Same` relates values
  that differ in such orders only.
* Values of the wire format are trees of `ParcelStrings.Elem`. `Wire.Unit` is a plain character or a backslash with
  the character behind it; printed text is `Render` of such units, so "unescaped" and "the scanner is neutral"
  are statements about units.
* `AppReader.Reader` has two readers: `DeviceApp` is the Kotlin code as it is, `Reference` is the same reader with the
  list tag, decimal bytes, infinities and Rust's Unicode escapes that the printer uses.
* A panic or an exception is `None` or an error value, never a precondition.

## Where the code and its own words differ

The model follows the code.

* Lists are printed with the tag `_LST`; the application knows `LIST`.
* Bytes are printed in decimal and read as two hex digits, so no byte value comes back
  (`AppReading.BytesNeverReadBack`).
* Infinities are printed as `inf` and `-inf`; the application's number parser knows `Infinity` only and throws
  (`EndToEnd.InfinityDoesNotArrive`).
* A byte of two digits or more is read as another byte, so in an intent string it may be overwritten by a later
  value for its key; a byte of one digit makes the whole string fail (`IntentMaps.OverwrittenByte`).
* So no value arrives that holds a list, a byte or an infinity at any depth (`EndToEnd.UnknownDoesNotArrive`).
* Two bundles or maps with the same entries are one map key or two, depending on the orders in which their hash
  maps happen to be iterated (`EndToEnd.MergingDependsOnOrder`).
* Characters outside printable ASCII are printed as `\u{..}`; the application reads `\uXXXX`.
* The format notes of intent strings name `=` between key and value; both sides use `>`.
* `Display` panics on a message with an empty bundle, and `build` on an empty list.
* Nested containers that share a separator print alike (`WireTheorems.SharedSeparatorIsAmbiguous`). The exact
  condition for reading back is `AppReading.Readable`, which asks for each splitter whether a part of the printed
  text shows it its separator; `WireTheorems.Layered` is a condition on the shape of the tree that implies it.
* `split` honours a backslash inside single quotes and ends a token at every closing quote, so it undoes `quote`
  exactly on words without quote and backslash (`ShellWords.SplitUndoesQuote`); a POSIX shell reads every quoted word
  (`ShellWords.ShellReadsQuotes`).
* An error of a line callback stops the callbacks of both streams and is then dropped: the run still returns the
  exit status.
* A stray `end` stops `parse_parcel_string` without an error, and the rest of the words is ignored.
* `resolve_string` is not idempotent on values whose chain gets into a cycle of two or more texts, and only on those
  (`Manifest.IdempotentIff`): the first text is not recorded as seen.
* When a chain breaks at an entry that is not there, the whole value stays unresolved; when it breaks at a file that
  is not there, the last reference is the result (`Manifest.ResolvesToEnd`).

## Model

| member | source | states |
|---|---|---|
| Numbers.BytesToHex | dtu/src/utils/hex.rs:11-21 | the loop yields two lower-case digits for each byte, in order |
| Numbers.ParseIntOfShowInt | cli/src/parsers/parcel_string_parser.rs:188-200 | a printed integer parses as itself in every type that holds it |
| Numbers.ParseIntIff | cli/src/parsers/parcel_string_parser.rs:188-200 | exactly these texts parse as an integer: a sign that the type has or none, zeros, and the number as it is printed, if it fits |
| Numbers.DigitTable | dtu/src/utils/hex.rs:11-21 | the sixteen digits one by one, in both cases |
| ParcelStrings.FloatTextIff | dtu/src/app_server/parcel_string.rs:219-221 | a float prints as one of three words, or as a decimal number with a minus sign or without |
| Escape.EscapeIsSinglePass | dtu/src/app_server/parcel_string.rs:186-195 | `escape_default` followed by six whole-string replacements equals one pass over the characters |
| Escape.EscapeIsSafe | dtu/src/app_server/parcel_string.rs:186-195 | escaped text has no unescaped delimiter and no dangling backslash, for every string |
| Escape.UnescapeUndoesEscape | dtu/src/app_server/parcel_string.rs:186-195 | an unescaper inverts it on every string |
| ParcelStrings.UnitsQuiet | dtu/src/app_server/parcel_string.rs:212-296 | at no depth does a printed value expose a separator of the outermost level |
| Builders.ParcelString.Push | dtu/src/app_server/parcel_string.rs:180-183 | one value is added at the end |
| Builders.ParcelString.Clear | dtu/src/app_server/parcel_string.rs:115-117 | no value is left |
| Builders.ParcelString.BuildTo | dtu/src/app_server/parcel_string.rs:104-113 | the loop appends the values' texts joined by commas, or panics exactly on an empty list or an empty message bundle |
| Builders.BuildSplits | dtu/src/app_server/parcel_string.rs:98-113 | split at unescaped commas the string gives exactly one piece for each value, its text, at any nesting depth, and the scanner ends neutral |
| Builders.HexTextIsNotEscaped | dtu/src/app_server/parcel_string.rs:152-154 | why hex text must be hex: a comma in it adds a piece |
| Builders.IntentString.Push | dtu/src/app_server/intent_string.rs:25-28 | one pair is added at the end, repeated keys included |
| Builders.IntentString.BuildTo | dtu/src/app_server/intent_string.rs:15-23 | the loop appends the pairs' texts joined by commas, or panics exactly on an empty list or an empty message bundle |
| Builders.IntentReadsBack | dtu/src/app_server/intent_string.rs:15-23 | split at unescaped commas and each piece at its first unescaped `>`, every key and value text comes back in order |
| AppReader.SimpleEscapeSplitter | dtu/src/app/files/app/setup/ParcelString.kt:810-846 | the generator loop yields the pieces of the splitter's character automaton |
| AppReading.SplitHead | dtu/src/app/files/app/setup/ParcelString.kt:810-846 | on text of whole units the first piece ends at the first separator that is not escaped, and loses the backslash before escaped ones |
| AppReading.AppUnescapeText | dtu/src/app/files/app/setup/ParcelString.kt:709-773 | on escaped text, whatever separators have lost their backslash on the way, the application's unescaper gives back the text |
| AppReading.BytesNeverReadBack | dtu/src/app/files/app/setup/ParcelString.kt:579-586 | no printed byte value is read as that byte |
| AppReading.TagsAgree | dtu/src/app/files/app/setup/ParcelString.kt:777-796 | printer and application agree on the tag of every kind of value but lists |
| AppReading.Exact | dtu/src/app/files/app/setup/ParcelString.kt:691-707 | text cut from a printed value at any place a splitter may cut reads as that value if and only if nothing is cut off and the value is readable |
| AppReading.ExactElems | dtu/src/app/files/app/setup/ParcelString.kt:505-514 | the same for the elements of a container and its separator |
| AppReading.ExactPuts | dtu/src/app/files/app/setup/ParcelString.kt:394-454 | the same for bundle and intent entries |
| AppReading.ExactPairs | dtu/src/app/files/app/setup/ParcelString.kt:470-485 | the same for map pairs |
| AppInputs.ByteFromDigits | dtu/src/app/files/app/setup/ParcelString.kt:579-586 | the application reads a byte from its two hex digits, whatever follows |
| AppInputs.BytesFromDigits | dtu/src/app/files/app/setup/ParcelString.kt:645-654 | it reads bytes from hex text with `0x` in front or without |
| AppInputs.BoolFromText | dtu/src/app/files/app/setup/ParcelString.kt:682-686 | it reads `true` in any mixture of cases as true, and any other text as false |
| AppInputs.AppEscapes | dtu/src/app/files/app/setup/ParcelString.kt:733-761 | its own escapes: backspace, a byte shown as a character, and a code unit whose low byte is sign-extended |
| AppInputs.EmptyBundleText | dtu/src/app/files/app/setup/ParcelString.kt:362-380 | three numbers and a last `%`, as an empty bundle prints without overflow checks, are read as a message without data |
| AppInputs.PutKinds | dtu/src/app/files/app/setup/ParcelString.kt:404-449 | which kinds of value a bundle cannot hold |
| AppInputs.ListUnderItsTag | dtu/src/app/files/app/setup/ParcelString.kt:777-796 | under the tag that the application knows, a list reads back if and only if its elements do |
| WireTheorems.ParcelReadsBack | dtu/src/app/files/app/setup/ParcelString.kt:54-62 | a reader gets back exactly the values of a parcel string if and only if each of them is readable |
| WireTheorems.IntentReadsBackInApp | dtu/src/app/files/app/setup/ParcelString.kt:91-100 | the entries that go into the map of an intent string are exactly the ones printed if and only if each is readable |
| IntentMaps.ToMapHoldsLast | dtu/src/app/files/app/setup/ParcelString.kt:89-103 | the map has each key once and holds exactly the last value given for it |
| IntentMaps.IntentArrives | dtu/src/app/files/app/setup/ParcelString.kt:89-103 | the application holds the last value of each key if and only if that value is readable, every key is, and every overwritten value reads as something; without repeated keys it holds exactly the entries if and only if each is readable |
| IntentMaps.OverwrittenByte | dtu/src/app/files/app/setup/ParcelString.kt:579-586 | a byte and then `null` for the same key: the map holds the `null` if and only if the byte has two digits or more |
| WireTheorems.LayeredIsReadable | dtu/src/app_server/parcel_string.rs:212-296 | a tree in which no separator is used twice along a path is readable |
| FlatValues.FlatIsLayered | dtu/src/app_server/parcel_string.rs:212-296 | a container that holds only scalars the reader knows is such a tree, whatever separators other than its own are used around it |
| FlatValues.FlatIffReadable | dtu/src/app/files/app/setup/ParcelString.kt:691-707 | of the values that nest one level deep, exactly those are readable whose parts are: for the application no list, byte or infinity, no text outside printable ASCII, and in bundles only values it can put |
| FlatValues.FlatParcelReadsBack | dtu/src/app/files/app/setup/ParcelString.kt:54-62 | a parcel string of values of one level is read back if and only if each of them is such a value |
| FlatValues.FlatIntentReadsBack | dtu/src/app/files/app/setup/ParcelString.kt:91-100 | the same for intent strings, whose keys have to be readable too |
| WireTheorems.LayeredReadsBack | dtu/src/app_server/parcel_string.rs:212-296 | such a value is recovered from its printed text |
| WireTheorems.SameVal | dtu/src/app_server/parcel_string.rs:152-158 | two values are read as the same if and only if they are the same once every byte array is given by its bytes |
| WireTheorems.LayeredPrintsDiffer | dtu/src/app_server/parcel_string.rs:199-203 | on such values equal text means the same tree, once every byte array is given by its bytes |
| WireTheorems.SharedSeparatorIsAmbiguous | dtu/src/app_server/parcel_string.rs:269-281 | `[[a, b]]` and `[[a], b]` print alike |
| ParcelParser.ParseSingle | cli/src/parsers/parcel_string_parser.rs:53-59 | a successful parse of a non-empty word list consumes at least one word, so the grammar's recursion ends |
| ParcelParser.ParseSingleFrom | cli/src/parsers/parcel_string_parser.rs:53-59 | the parser over the shared iterator gives the grammar's result and leaves its rest |
| ParcelParser.ParseSingleStr | cli/src/parsers/parcel_string_parser.rs:61-218 | the same for the word that names the kind, every error included; numbers are as the rounding of the world has them |
| ParcelParser.ParseMessageFrom | cli/src/parsers/parcel_string_parser.rs:75-104 | the same for messages |
| ParcelParser.ParseEntriesFrom | cli/src/parsers/parcel_string_parser.rs:120-137 | the same for bundles, a repeated key overwriting the value |
| ParcelParser.ParseMapFrom | cli/src/parsers/parcel_string_parser.rs:105-119 | the same for maps, whose keys are compared by their printed text in the order each has in this world |
| ParcelParser.ParseListFrom | cli/src/parsers/parcel_string_parser.rs:138-148 | the same for lists |
| ParcelParser.ParseParcelString | cli/src/parsers/parcel_string_parser.rs:29-44 | the loop collects the values up to the end of the words or a stray `end` |
| ParcelParser.ParseIntentString | cli/src/parsers/parcel_string_parser.rs:7-27 | the loop collects key and value pairs |
| Worlds.SameAll | dtu/src/app_server/parcel_string.rs:232-268 | a condition on all values inside that does not look at orders survives reordering bundles and maps |
| Worlds.PrintingIsOrderBlind | dtu/src/app_server/parcel_string.rs:232-268 | whether a value can be printed, and safely, is such a condition |
| Worlds.SameSymmetric | dtu/src/app_server/parcel_string.rs:232-268 | being equal up to the order of bundles and maps goes both ways |
| Worlds.SameSize | dtu/src/app_server/parcel_string.rs:232-268 | values equal up to order hold equally many map entries, at all depths together |
| ParcelGrammar.ParsesLoosely | cli/src/parsers/parcel_string_parser.rs:53-218 | in every world, the words of a value that can be spelled but for its map keys parse, whatever follows, and leave what follows; if at every map the keys print differently in the orders this world gives them, the result is the value in those orders, and otherwise it holds fewer map entries |
| ParcelGrammar.ParsesWords | cli/src/parsers/parcel_string_parser.rs:53-218 | in every world, parsing the words of a value whose map keys print apart in every order, whatever follows, yields that value up to the order of its maps and leaves what follows; where maps keep insertion order it yields exactly the value |
| ParcelGrammar.WordsParseBack | cli/src/parsers/parcel_string_parser.rs:53-218 | in each world, the words of a value parse back to it up to the order of its maps if and only if it can be spelled and no two keys of one map print alike in the orders this world gives them |
| ParcelGrammar.WordsParseBackInOrder | cli/src/parsers/parcel_string_parser.rs:53-218 | where maps keep insertion order, they parse back to exactly the value if and only if it is expressible as it is |
| ParcelGrammar.ParserImage | cli/src/parsers/parcel_string_parser.rs:53-218 | for every rounding: the values, with their orders, that some command line yields in some world are exactly the expressible ones |
| ParserResults.HexArgument | cli/src/parsers/parcel_string_parser.rs:158-175 | `barr` takes exactly the texts of evenly many hex digits of either case, and gives lower-case text of the same length that stands for the same bytes |
| ParserResults.IntegerArgument | cli/src/parsers/parcel_string_parser.rs:188-200 | an integer argument gives that integer if and only if it denotes one of the type, and fails if and only if it denotes none |
| ParserResults.OtherArgument | cli/src/parsers/parcel_string_parser.rs:176-213 | what booleans, texts, descriptors and floats take, and how they fail |
| ParserResults.WithoutArgument | cli/src/parsers/parcel_string_parser.rs:65-74 | the words without argument; any other word at the end of the line wants one, and is unknown before one |
| ParserResults.BundleHoldsLast | cli/src/parsers/parcel_string_parser.rs:120-137 | a bundle whose keys may repeat holds each key once, with the last value given for it |
| ParserResults.BundleFails | cli/src/parsers/parcel_string_parser.rs:120-137 | a bundle without `end` fails, and so does a key without a value |
| ParserResults.MapHolds | cli/src/parsers/parcel_string_parser.rs:105-119 | a map holds for each key text its first tree with its last value, and ends at `end` or with the line |
| ParserResults.MapFails | cli/src/parsers/parcel_string_parser.rs:105-119 | a key without a value fails the map, one that cannot be printed is a panic |
| ParserResults.ListHolds | cli/src/parsers/parcel_string_parser.rs:138-148 | a list ends at `end` or with the line |
| CommandLines.LineParses | cli/src/parsers/parcel_string_parser.rs:29-44 | in every world the words of a list of values that can be spelled but for their map keys parse to the end of the line: if no keys merge to exactly the values in the orders of this world, and otherwise to ones with fewer map entries |
| CommandLines.LineParsesBack | cli/src/parsers/parcel_string_parser.rs:29-44 | in each world, a whole command line parses back to its values, up to the order of maps, if and only if each value can be spelled and no two keys of one map print alike in the orders of this world |
| CommandLines.StrayEndStops | cli/src/parsers/parcel_string_parser.rs:34-41 | a stray `end` ends the parcel string, what stands behind it is not read |
| CommandLines.IntentLineFails | cli/src/parsers/parcel_string_parser.rs:12-24 | a key of an intent string without a value fails it |
| CommandLines.IntentLineParsesBack | cli/src/parsers/parcel_string_parser.rs:7-27 | the same for intent strings, whose entries keep their order and may repeat keys |
| EndToEnd.SentTextSplits | cli/src/parsers/parcel_string_parser.rs:158-175 | whatever the words and the world, the string that is sent has exactly one piece for each value: the parser lets only hex digits into hex text |
| EndToEnd.SentValuesArrive | dtu/src/app/files/app/setup/ParcelString.kt:54-62 | in every world the values of the command line arrive if and only if each is readable |
| EndToEnd.SpelledValuesArrive | dtu/src/app/files/app/setup/ParcelString.kt:54-62 | values that can be spelled and whose keys do not merge are parsed from their own words, sent in the orders of the world, and arrive so if and only if each is readable |
| EndToEnd.ReorderedValuesArrive | dtu/src/app_server/parcel_string.rs:232-268 | the same for every reordering of the bundles and maps in them |
| EndToEnd.UnknownDoesNotArrive | dtu/src/app/files/app/setup/ParcelString.kt:777-796 | no command line arrives as it was that holds a list, a byte or an infinity, at any depth |
| EndToEnd.InfinityDoesNotArrive | dtu/src/app/files/app/setup/ParcelString.kt:238-245 | `f64 inf` and `f64 -inf` are sent and are not read |
| EndToEnd.SentIntentSplits | cli/src/parsers/parcel_string_parser.rs:7-27 | whatever the words and the world, every key and value text can be split out of the intent string, in order |
| EndToEnd.SentIntentArrives | dtu/src/app/files/app/setup/ParcelString.kt:89-103 | the application holds the last value given for each key if and only if that value is readable, every key is, and every overwritten value reads as something; without repeated keys it holds exactly the entries if and only if each is readable |
| EndToEnd.MergingDependsOnOrder | cli/src/parsers/parcel_string_parser.rs:105-119 | on one concrete command line two bundle keys become one if and only if their hash maps are iterated in the same order |
| ShellWords.Split | dtu/src/command.rs:52-117 | the loop over flags and pending word computes the word automaton |
| WordGrammar.LineSplits | dtu/src/command.rs:52-117 | words in, before and without quotes, escaped characters included, with any white space around them and some behind each word that no quote ends, split into exactly these words |
| WordGrammar.OpenFails | dtu/src/command.rs:52-117 | an open quote or a last backslash gives no result |
| WordGrammar.SplitIff | dtu/src/command.rs:52-117 | every line is one or the other: `split` returns a list if and only if the line spells it so, and nothing if and only if something is left open |
| WordGrammar.WhitespaceIs | dtu/src/command.rs:99-102 | white space is the Unicode property White_Space |
| ShellWords.Quote | dtu/src/command.rs:130-142 | the loop computes the quoted text |
| ShellWords.SplitOfQuote | dtu/src/command.rs:52-142 | for text without backslash and with k single quotes, splitting its quote gives 2k+1 words that concatenate to the text |
| ShellWords.SplitUndoesQuote | dtu/src/command.rs:52-142 | splitting space-joined quotes returns the list if and only if no word holds a single quote or a backslash |
| ShellWords.ShellReadsQuotes | dtu/src/command.rs:130-142 | a POSIX shell reads space-joined quotes as the original words, for all words |
| StreamSplit.LastAfter | dtu/src/command.rs:282-288 | the backwards search from the resume position finds the last delimiter |
| StreamSplit.CutIndex | dtu/src/command.rs:279-289 | the cut is the only index behind the last delimiter of the whole buffer, wherever the search resumed |
| StreamSplit.LinesOfText | dtu/src/command.rs:293-307 | the lines of a stream are the non-empty ones it is made of, and the rest behind the last delimiter |
| StreamSplit.SplitInParts | dtu/src/command.rs:291-310 | splitting a stream part by part, cut behind delimiters, gives the pieces of the whole |
| StreamSplit.Deliver | dtu/src/command.rs:293-307 | the callback gets the pieces of what is drained, up to the first failed call |
| StreamSplit.Feed | dtu/src/command.rs:273-311 | one call of the closure keeps: all that is drained is delivered, and no complete piece stays in the buffer |
| StreamSplit.Poll | dtu/src/command.rs:405-406 | with the slots right, each unfinished pipe is told its own readiness |
| StreamSplit.Turn | dtu/src/command.rs:419-441 | one stream's part of a turn takes the bytes that are there, loses none, and reports end of file only with every byte read |
| StreamSplit.ReadReady | dtu/src/command.rs:430-441 | a turn keeps: `nfds` counts the unfinished pipes, slot 0 watches stdout while it is unfinished, `errfd` is stderr's slot while it is |
| StreamSplit.RunSplit | dtu/src/command.rs:269-444 | for all contents, chunkings and interleavings: a callback gets no piece its stream does not have there; when the loop ends normally both pipes have ended, and if no call failed each callback got exactly the non-empty pieces of its whole stream; it fails if and only if, with a pipe still open, a poll fails or an open pipe that is ready cannot be read |
| CommandTree.WriteGenCmdValues | complete/build.rs:102-163 | the recursive writer appends exactly the functions and arms of the tree |
| CommandTree.RunFollowsTree | complete/build.rs:102-163 | the code for a part of the tree, inside any program with distinct names that holds it, follows the arguments as far as the tree goes |
| CommandTree.DispatchIsWalk | complete/build.rs:184-209 | with distinct names the dispatcher returns the completions of the node reached by the longest matching beginning of the arguments, for every argument list and iteration order |
| CommandTree.RootOffers | complete/build.rs:167-183 | at the root the dispatcher offers an entry for each command, with name and help, then five flags of its own |
| CommandTree.CommandOffers | complete/build.rs:117-161 | at any other command it offers the help flag, one flag for each option with its names, help and kind, and one entry for each sub-command, in order and nothing else |
| CommandTree.CommandOffersIff | complete/build.rs:117-161 | so these are the elements of its offer |
| CommandTree.FurthestIsUnique | complete/build.rs:102-163 | that beginning is unique |
| CommandTree.DistinctNamesIff | complete/build.rs:102-163 | the generated functions have distinct names if and only if no two paths to commands with sub-commands are joined to one name |
| CommandTree.NameIsJoin | complete/build.rs:90-100 | that name is the words of the path, their dashes replaced, joined by underscores |
| CommandTree.NamesCollide | complete/build.rs:90-100 | `a-b` and `a_b` beside each other, both with sub-commands, have one function name |
| FindCompletion.Scan | complete/src/command.rs:101-129 | the push-back loop yields as sub-commands the non-flags not directly behind a flag, and as flags the adjacent pairs, up to the first `--` |
| FindCompletion.LastPairWins | complete/src/command.rs:116-125 | a flag is in the map if and only if some occurrence has a value, and is bound to the value of the last such |
| FindCompletion.GetFlagIsLast | complete/src/command.rs:56-66 | a lookup answers the last value of the long name, and of the short one only when the long has none |
| FindCompletion.GetFlagIsNone | complete/src/command.rs:56-66 | it answers nothing if and only if neither name has a value |
| CompletionLines.LineIsRead | complete/src/command.rs:101-129 | on a line of sub-commands, flags with a value and flags before another flag or the end: the sub-commands in order, and by its name without the dashes the last value of each flag |
| CompletionLines.ReadsAsLine | complete/src/command.rs:101-129 | every list of arguments without `--` is such a line |
| FindCompletion.AnswerIs | complete/src/command.rs:131-150 | over the places of the offer: the first flag called like the last argument decides, listing the offer if it takes no argument and else answering its kind; an unknown flag is not completed, and any other word lists the offer |
| FindCompletion.CompleteFlag | complete/src/command.rs:131-150 | the first flag of the offer that matches the last argument decides, by its kind |
| FindCompletion.Find | complete/src/command.rs:89-153 | the whole answer, with `--` anywhere giving no completion |
| FindCompletion.FindInTree | complete/src/command.rs:131-152 | with the generated code: the answer, for a line that ends in a flag as for any other, is the one for the offer of the command the sub-command words lead to |
| DexScheduler.ApkFile.SetMaxParallel | dtu/src/decompile/apk.rs:33-38 | the bound stays at least one |
| DexScheduler.Children.WaitForChildren | dtu/src/decompile/apk.rs:222-257 | ended children leave the front of the queue, each counted once, at least one if there is one, up to the first that is still running; the answer is whether all of those succeeded |
| DexScheduler.Children.WaitForAll | dtu/src/decompile/apk.rs:211-217 | every queued child is waited for |
| DexScheduler.MakeRoom | dtu/src/decompile/apk.rs:194-200 | the inner loop ends with room for one more child and keeps the counts right |
| DexScheduler.DecompileDexFiles | dtu/src/decompile/apk.rs:187-219 | for every number of files, exit order and outcome: it ends, each child is waited for once and in order, at most `max_parallel` run at a time and as many when there is work, and the answer is true if and only if all succeed; it fails if and only if a spawn or wait does |
| PoolRegistry.PlayKeepsInv | dtu/src/db/common.rs:282-340 | every step of every thread keeps the lock, map and return invariants, and the map only grows |
| PoolRegistry.OnePoolPerUrl | dtu/src/db/common.rs:282-340 | in every run at most one pool is created for a URL, no pool serves two, and every successful call for it returns that one |
| PoolRegistry.FailuresAreCreations | dtu/src/db/common.rs:282-340 | in every run exactly the failed creations end without a pool |
| PoolRegistry.FoundIsReturned | dtu/src/db/common.rs:287-310 | a call that finds its URL, at the first check or the second, ends with exactly that pool and without the lock |
| PoolRegistry.RegisteredForGood | dtu/src/db/common.rs:282-340 | from the moment a URL is registered, every call for it that ends, ends with its pool, whatever the other threads do |
| PoolRegistry.EachCallReturnsOnce | dtu/src/db/common.rs:282-310 | in every run each call returns once, to its own thread and for its own URL, or is still under way |
| PoolRegistry.ReadersShare | dtu/src/db/common.rs:307-310 | two threads can read at the same time |
| PoolRegistry.LockExcludes | dtu/src/db/common.rs:291-310 | while one thread writes, every other one is outside the lock |
| PoolRegistry.SomeoneCanGoOn | dtu/src/db/common.rs:282-310 | while a call is under way, some call can take a step |
| PoolRegistry.FailureCanBeRetried | dtu/src/db/common.rs:312-340 | a failed connect or migration leaves the map as it was, and any idle thread can then create the pool |
| PoolRegistry.SecondCheckHits | dtu/src/db/common.rs:291-296 | some run reaches the second check with the pool already there |
| Manifest.SplitOnce | dtu/src/manifest.rs:112-115 | a reference is cut at its first slash |
| Manifest.Seen.Target | dtu/src/manifest.rs:334-341 | a reference is recorded, and refused when it has been seen |
| Manifest.ResolveEntry | dtu/src/manifest.rs:343-382 | the recursive resolver with its shared set computes the chase; it ends on every finite table, cyclic ones included |
| Manifest.Depth | dtu/src/manifest.rs:343-382 | the number of further lookups is at most that of the stored references not yet seen |
| Manifest.Resolve | dtu/src/manifest.rs:426-437 | at most as many nested resolves as there are distinct stored references, and one more |
| Manifest.ResolveStringOf | dtu/src/manifest.rs:393-398 | the text found, or the value itself |
| Manifest.ResolveBool | dtu/src/manifest.rs:386-391 | true or false if and only if the value resolves to that word |
| Manifest.EntryOf | dtu/src/manifest.rs:112-115 | for every kind: a reference leads to a text if and only if its file has that text under its name, and is final if and only if there is no such file |
| Manifest.NoEntryOf | dtu/src/manifest.rs:112-115 | a text without a slash, or without the at sign in front, leads nowhere |
| Manifest.BoolAtEnd | dtu/src/manifest.rs:386-391 | a boolean attribute is decided by the text at the end of its chain |
| Manifest.ResolvesToText | dtu/src/manifest.rs:343-398 | a chain that reaches a text that is no reference yields that text |
| Manifest.ResolvesToEnd | dtu/src/manifest.rs:343-398 | a chain that ends yields its last text, or the value itself when the end is an entry that is not there |
| Manifest.IdempotentIff | dtu/src/manifest.rs:334-398 | resolving twice is resolving once if and only if the chain gets into no cycle of two or more texts |
| Manifest.LoopNeverSettles | dtu/src/manifest.rs:334-398 | on a table of two texts that refer to each other, each resolves to the other |
| Manifest.CycleStepsOn | dtu/src/manifest.rs:334-382 | a text on a cycle resolves to the next text of the cycle |
| Manifest.Authorities | dtu/src/manifest.rs:691-714 | all three paths equal the resolved pieces joined with `;`, for every input and resolver that leaves plain text alone |
| Manifest.ResolversLeavePlain | dtu/src/manifest.rs:74-76 | both resolvers leave text alone that is no reference |
| Header.EncodeLength | dtu/src/app_server/server.rs:830-837 | the shifting loop writes the eight hex digits of the length |
| Header.EncodeHeader | dtu/src/app_server/server.rs:822-838 | all twelve bytes are filled: the command in big-endian order, then the digits |
| Header.HeaderRoundTrip | dtu/src/app_server/server.rs:760-780 | decoding an encoded header gives back command and length, for all 32-bit values |
| Header.LengthAcceptedIff | dtu/src/app_server/server.rs:767-780 | a length field is accepted if and only if it is eight hex digits, or a plus sign and seven |
| Header.PackInverts | dtu/src/app_server/server.rs:309-314 | the four bytes of a packed command are its characters, truncated to bytes |
| Header.StatusIff | dtu/src/app_server/server.rs:810-819 | exactly the words GOOD and FAIL are accepted |

## Left out

- Spawning processes, ADB, TCP reads and writes, file systems, SQLite, zip and templates: parameters of the model, or not part of it.
- XML tokenising in `dtu/src/manifest.rs`: a resource table maps kind and name to a text or to anything else; entries of the wrong kind inside a file are not distinguished from missing ones.
- `resolve_array` in `dtu/src/manifest.rs`: it falls through after a plain item and stops at the first closing tag, so there is no meaning to state.
- `run_cmd_streamed`: its buffer is never drained, so callbacks see growing prefixes.
- The Windows reader and the kill-child thread in `dtu/src/command.rs`.
- StreamSplit.RunSplit: pieces are bytes, the lossy UTF-8 decoding of each piece is not modelled; the order of calls between the two callbacks is not part of the result, only the order within each.
- StreamSplit.Turn: both streams share this method where the source writes the two halves out, and the variables of a stream are held in one record.
- Builders.ParcelString.BuildTo: panics are as with overflow checks, which the release profile does not turn on; without them the subtraction wraps, an empty list leaves the text unchanged, and a message with an empty bundle prints as `_MSG1%2%3%`, which the application reads as a message without data.
- AppReading.Exact: a floating-point number is its printed text, which both sides round to the same number; file descriptors and binders are their names.
- AppReader.ReadFloat: spellings of numbers that the printer never writes, such as exponents or `Infinity`, are not modelled.
- AppReader.UnescapeApp: strings are sequences of UTF-16 code units in Kotlin; characters outside the basic plane are not modelled in its `\u` escapes.
- ParcelGrammar.ParsesWords: how a word is rounded to a floating-point number is a parameter, of which only this is used: printed numbers parse as themselves; words that are not valid Unicode do not occur.
- CommandTree.WriteGenCmdValues: the writer emits Rust text; the model emits functions with a table and arms, so quoting of names and help texts inside the generated text is not covered.
- FindCompletion.Find: completion lists found at run time, such as services or files, are named by their kind only.
- DexScheduler.DecompileDexFiles: which directory entries count as dex files, and the command line of a child.
- PoolRegistry.OnePoolPerUrl: `cleanup_database`, poisoned locks and re-entrant use of a connection; building the one-thread pool itself is taken to succeed.
- Manifest.Resolve: the transformer is any function of the text, the file of a kind either exists or does not for the whole call.
- Header.HeaderRoundTrip: the JSON payload and the socket.
- Query caches, progress display, enumerations such as the prerequisites, and Python bindings: finite or plumbing, they would add only easy members.
