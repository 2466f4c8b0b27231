# IOTA Access device code: verified models

A Dafny 4.11 model of the parts of IOTA Access that hold their own algorithms: the INI configuration store, the
file store of policies, the CAN frame text forms, the NMEA scanner, the OBD-II daemon and its client, the Modbus
driver and the base64 decoder. `dafny verify dfyconfig.toml` checks everything.

Code that changes state is modelled by classes and methods that change state, each proved against a specification
function or predicate; what the code is for is then proved about that specification, for all inputs or all runs.

| files | what they model |
|---|---|
| `CStrings.dfy`, `Machine.dfy`, `Words.dfy` | C strings in buffers, `strncmp`, substring matches; machine numbers, and 16-bit words as numbers |
| `IniConfig.dfy`, `IniLines.dfy`, `IniRoundTrip.dfy`, `IniAnswers.dfy`, `IniShadowing.dfy` | the tokenizer that reads 16 bytes at a time, the lines and tokens of every file, the lookup and the value it copies out, the line a lookup answers from, and lookups that go wrong |
| `PapRecord.dfy`, `PapIndex.dfy`, `PapStore.dfy`, `PapPlugin.dfy` | a policy as labelled text, the `id\|id\|` index, runs of stores and flushes, and the plugin over a directory |
| `CanText.dfy`, `CanGrammar.dfy`, `CanFrames.dfy`, `CanLong.dfy`, `CanDigits.dfy`, `CanPrinted.dfy` | the compact frame text and its parser, the grammar of the accepted texts, the same on C buffers, the long aligned text, what each digit is worth in either case, and what stands in which column |
| `NmeaFixed.dfy`, `NmeaScan.dfy`, `NmeaDecimal.dfy`, `NmeaInt.dfy`, `NmeaScanner.dfy`, `NmeaWriter.dfy`, `NmeaSentence.dfy`, `NmeaCheck.dfy` | the fixed-point and the integer field on every run of characters, the scan as "split at commas, then parse", the cursor-moving scanner, values written as sentences and read back, checksums and rescaling |
| `ObdSockets.dfy`, `ObdDaemon.dfy`, `ObdCommands.dfy` | the shared-socket registry over every run of messages, its doubly linked list and wire format, and the supported-command set |
| `ModbusCrc.dfy`, `ModbusDriver.dfy` | the CRC, bit by bit, and the requests and replies around it |
| `Base64.dfy` | the decoder, against the encoding of section 4 of RFC 4648 |

Where the code falls short of what it is for, the model keeps the code; the exact condition is proved, and a failing
input is given:

- INI names are compared by prefix. In every file, an option that is among its entries is found if and only if no earlier
  name shadows it (`ExactIffUnshadowed`), and one that is not is reported missing if and only if no name answers in its
  place (`AbsentGroupIff`, `AbsentOptionIff`). With groups "a" and "ab", lookups in "ab" and in "ac", which is no group,
  read "a" (`ShadowedLookupIsWrong`).
- A blank line swallows the line behind it. A lookup answers from the line "o=" in the group of the line "[g]" if and only
  if blank lines come in pairs before both and no other line answers first (`AnswersFromLineIff`). In "[g]\n\no=v\n" option
  o is reported missing (`BlankLineHidesOption`); in "[g]\no=v\n\n" the last line answers for every option that is not
  there (`BlankLastLineAnswersAll`), as does every line without '=' (`NamelessAnswersAll`).
- An option that ends the file without a line feed is copied with whatever the data array holds behind it, and a NUL is
  written two past the size the caller gave (`OpenValueIsCopied`, for every such file; `ValueIsCopied` for the others).
- A stored policy reads back if and only if no field contains a later label or a NUL (`RoundTripIffClean`); the object
  "policy cost:" does not (`LabelAsObjectIsMisread`).
- Each successful store over a policy that has a file leaves one index entry that no flush clears
  (`OverwritesStayInIndex`); the index is the stored set if and only if there was none (`IndexIsStoredSetIff`). A policy
  stored twice and flushed once stays listed (`StoredTwiceStaysListed`).
- The scale of a fixed-point field has no overflow guard. Value and scale are right if and only if at most nine fraction
  digits are kept (`ScaleIsRightIff`, `ManyZerosBreakTheScale`); a decimal fails if and only if its whole part does not
  fit or a fraction digit past the 32nd does not (`DecimalFailsIff`, `LongFractionFails`). Once 32 digits are kept a
  second point is accepted and starts a new scale (`SecondPointIsAccepted`). What comes of every run of characters is
  determined, also past such points (`EveryRunIsRead`).
- An `i` field depends on its own run if and only if no number behind it is reached: a blank field takes the sign and
  digits behind the white space that follows it (`IntIsLocalIff`, `AlwaysLocalIffNotBlank`, `IntCrossesLines`).
- A date is accepted if and only if it is empty or starts with six digits, and a time likewise, with a fraction if a point
  follows; what stands behind is ignored (`DateIsRead` and `AcceptedDateIs`; `TimeIsRead`, `WholeTimeIsRead` and
  `AcceptedTimeIs`). "123456x" is a date (`DateTailIsIgnored`).
- Reprinting a parsed CAN text keeps the frame if and only if its id has no bits that the printer drops
  (`ReprintKeepsFrameIff`); "A0000000#" has some (`BothFlagsAreLost`).
- Supported commands: the array is one place longer than the list if and only if the vehicle supports mode 9 PID 3,
  which has no table entry (`CountIsListLength`, `OnePlaceTooMany`).
- Of the base64 texts that are accepted, the encodings are those with padding just where no byte is and no spare bit set
  (`IsCanonicalIff`); "QR==" and "=AAA" are accepted too (`SpareBitsAreAccepted`, `MisplacedPaddingIsAccepted`).

Where the code and its documentation disagree: `minmea.h` says that rescaling rounds towards zero; the code rounds half
away from zero, and that is what is proved.

## Model

| member | source | states |
|---|---|---|
| CStrings.StrNCmpIsPrefixTest | config_manager/implementations/ini/config_manager_implementation.c:118-134 | comparing a name with a window of the file by `strncmp` over the window's length accepts exactly the names that start with it |
| IniConfig.ConfigManager.constructor | config_manager/implementations/ini/config_manager_implementation.c:31-37 | the zeroed store is safe to look into and holds no tokens |
| IniConfig.ConfigManager.ReadChunk | config_manager/implementations/ini/config_manager_implementation.c:55-57 | a read puts at most 16 bytes of the file at their place in the data array and touches nothing else |
| IniConfig.ConfigManager.ReadChar | config_manager/implementations/ini/config_manager_implementation.c:58-98 | one character changes the token array in place exactly as the tokenizer's transition function says |
| IniConfig.ConfigManager.ReadChars | config_manager/implementations/ini/config_manager_implementation.c:58-99 | a chunk continues the one-pass scan from wherever the chunk starts |
| IniConfig.ConfigManager.ReadAll | config_manager/implementations/ini/config_manager_implementation.c:54-101 | reading by 16-byte chunks ends and gives the tokens, counts and data of one pass over the file, inside both arrays |
| IniConfig.ConfigManager.Init | config_manager/implementations/ini/config_manager_implementation.c:39-105 | a missing file changes nothing; any other file leaves a store that is safe to look into, with exactly the one-pass tokens |
| IniConfig.StepKeepsTokensOk | config_manager/implementations/ini/config_manager_implementation.c:59-98 | every character keeps each group's size equal to the number of started option tokens between it and the next group or the last started token, and every span inside the file |
| IniConfig.ScanKeepsInv | config_manager/implementations/ini/config_manager_implementation.c:54-101 | that invariant holds after every prefix of every file |
| IniConfig.ScanIsSafeStore | config_manager/implementations/ini/config_manager_implementation.c:115-134 | after any file, also one cut off in mid-line, the lookup loops only reach tokens that exist |
| IniConfig.ConfigManager.FindGroup | config_manager/implementations/ini/config_manager_implementation.c:115-125 | returns the first finished group whose name is a prefix match, or -1 when there is none |
| IniConfig.ConfigManager.FindOption | config_manager/implementations/ini/config_manager_implementation.c:127-136 | returns the first option of that group that matches, or -1 when there is none |
| IniConfig.FindsIsUnique | config_manager/implementations/ini/config_manager_implementation.c:115-136 | what a lookup finds is determined by the store and the two names |
| IniConfig.SnPrintf | config_manager/implementations/ini/config_manager_implementation.c:139-139 | the bounded copy writes at most n - 1 characters and a NUL, and nothing when n is 0 |
| IniConfig.ConfigManager.GetString | config_manager/implementations/ini/config_manager_implementation.c:107-143 | the two error codes leave the caller's buffer alone; otherwise it holds the value text and the extra NUL two past it |
| CStrings.StrNCmpStopsAtNul | config_manager/implementations/ini/config_manager_implementation.c:118-134 | a window with a NUL in it is compared in full, as a C string |
| IniLines.HeaderLine | config_manager/implementations/ini/config_manager_implementation.c:63-97 | a line that starts with `[` becomes one group token with size 0 that spans all but its first and last characters |
| IniLines.SettingLine | config_manager/implementations/ini/config_manager_implementation.c:69-97 | a line `name=value` becomes one option token that spans name and value, and the last group counts one more; further equals signs belong to the value, and a line without one has no name |
| IniLines.CommentLine | config_manager/implementations/ini/config_manager_implementation.c:59-86 | a `#` line adds no token and leaves no state behind but an equals-sign position that the next token overwrites |
| IniLines.DocIsScanned | config_manager/implementations/ini/config_manager_implementation.c:54-101 | whatever the lines and the unended text behind them, the tokens are the header and option lines in order, each group's size is the number of options before the next group, and an unended option is counted but not finished |
| IniLines.EveryFileIsDocument | config_manager/implementations/ini/config_manager_implementation.c:54-101 | every text is such lines with such an end, so nothing is left out |
| IniLines.LineIsSeenIff | config_manager/implementations/ini/config_manager_implementation.c:58-98 | the tokenizer takes a character for the start of a line if and only if one starts there and an even number of blank lines stands before it |
| IniRoundTrip.LoadedIsScanned | config_manager/implementations/ini/config_manager_implementation.c:54-101 | the same of a loaded file, which is then safe to look into |
| IniRoundTrip.LookupIsPrefixSearch | config_manager/implementations/ini/config_manager_implementation.c:115-136 | in every file the lookup is the search for the first name that is a prefix of the wanted one, or equal to it up to a NUL, in both loops |
| IniRoundTrip.ExactIffUnshadowed | config_manager/implementations/ini/config_manager_implementation.c:118-134 | in every file, an option that is among its entries is found if and only if no earlier group name answers in place of the group's and no earlier option name of the group in place of the option's |
| IniAnswers.AnswersFromLineIff | config_manager/implementations/ini/config_manager_implementation.c:54-136 | in every file, of a line `[g]` and a line `o=` behind it: the lookup of o in g uses these two if and only if the number of blank lines right before each is even, no seen group before answers to g, and between them are only options that do not answer to o |
| IniShadowing.AbsentGroupIff | config_manager/implementations/ini/config_manager_implementation.c:115-125 | in every file, a group that is not there is reported missing if and only if no group name answers in its place |
| IniShadowing.AbsentOptionIff | config_manager/implementations/ini/config_manager_implementation.c:115-136 | in every file, of an option missing in a group that is there: the lookup looks into that group if and only if no earlier one answers in its place, and reports the option missing if and only if no name in the group it looks into answers |
| IniShadowing.ShadowedLookupIsWrong | config_manager/implementations/ini/config_manager_implementation.c:115-136 | of groups "a" and "ab" with option "o" each, the lookups of "o" in "ab" and in the absent "ac" find the one in "a" and nothing else |
| IniShadowing.BlankLineHidesOption | config_manager/implementations/ini/config_manager_implementation.c:58-98 | an option set behind a blank line is reported missing |
| IniShadowing.NamelessAnswersAll | config_manager/implementations/ini/config_manager_implementation.c:115-136 | in every file, a group with a line without `=` never reports an option missing |
| IniShadowing.BlankLastLineAnswersAll | config_manager/implementations/ini/config_manager_implementation.c:58-98 | a blank last line answers for every option that is not set before it |
| IniRoundTrip.ValueIsCopied | config_manager/implementations/ini/config_manager_implementation.c:138-140 | of an option that a line feed ends the value is copied, cut to the size and at its first NUL |
| IniRoundTrip.OpenValueIsCopied | config_manager/implementations/ini/config_manager_implementation.c:138-140 | of one that ends the file the rest of the data array is copied as well and the second NUL lands two past the size; without a name nothing is copied |
| IniRoundTrip.RoundTrip | config_manager/implementations/ini/config_manager_implementation.c:39-143 | any file, loaded and looked up: the lookup finds that option and nothing else, and copies out its value, equals signs included |
| IniRoundTrip.LoadAndLookUp | config_manager/implementations/ini/config_manager_implementation.c:39-143 | the same through the real loops and arrays: status OK and the buffer holds the value |
| PapRecord.StrStr | plugins/pap/posix/pap_plugin_posix.c:194-195 | the search returns the first match before the buffer's first NUL, or none |
| PapRecord.MatchInText | plugins/pap/posix/pap_plugin_posix.c:117-130 | in a record a label can only match as the label of its own line or inside one field, never across a boundary |
| PapRecord.SearchFindsLabel | plugins/pap/posix/pap_plugin_posix.c:194-219 | when no earlier field has the label or a NUL in it, the first match is the right label |
| PapRecord.SearchMissesLabel | plugins/pap/posix/pap_plugin_posix.c:194-219 | when one has, the first match is not |
| PapRecord.SearchFindsNewline | plugins/pap/posix/pap_plugin_posix.c:195-214 | the search for the next line's label ends the field where it really ends |
| PapRecord.FileTextIs | plugins/pap/posix/pap_plugin_posix.c:117-130 | a policy's file is the seven labels, each followed by its own field: text up to its NUL, 128 characters of signature, 64 of the key |
| PapRecord.RoundTripIffClean | plugins/pap/posix/pap_plugin_posix.c:117-219 | all six fields come back exactly as they stand in that file if and only if no field before a label contains that label or a NUL |
| PapRecord.LabelAsObjectIsMisread | plugins/pap/posix/pap_plugin_posix.c:117-201 | a policy whose object is the text of the cost label does not read back |
| PapRecord.PolObjLenIs | plugins/pap/posix/pap_plugin_posix.c:322-363 | the reported length is that of the object and of every label and field behind it, whatever the fields hold |
| PapIndex.IndexChar | plugins/pap/posix/pap_plugin_posix.c:144-145 | the index holds each id's 64 digits and its bar at a multiple of 65 |
| PapIndex.MatchIsAligned | plugins/pap/posix/pap_plugin_posix.c:295-299 | an id can only match in the index where an entry for it starts |
| PapIndex.SearchFindsEntry | plugins/pap/posix/pap_plugin_posix.c:295-299 | the search finds the first entry for the id, and nothing if there is none |
| PapIndex.SpliceRemovesEntry | plugins/pap/posix/pap_plugin_posix.c:295-307 | cutting 65 characters at an entry gives the index without that entry |
| PapIndex.TokensOfIndex | plugins/pap/posix/pap_plugin_posix.c:497-521 | splitting the index at its bars gives the ids in order |
| PapStore.PathsDiffer | plugins/pap/posix/pap_plugin_posix.c:110-136 | policies of different ids, and the index, live in different files |
| PapStore.StepCounts | plugins/pap/posix/pap_plugin_posix.c:134-320 | a successful store adds one occurrence of its id to the index, a successful flush takes one away, no other id's count changes, and an id with a file always occurs |
| PapStore.IndexIsConserved | plugins/pap/posix/pap_plugin_posix.c:134-320 | over every run an id occurs successful stores minus successful flushes times, and at least once while its file exists |
| PapStore.OverwritesStayInIndex | plugins/pap/posix/pap_plugin_posix.c:134-320 | over every run an id occurs once if it has a file, and once more for each successful store made while it had one; no flush clears those |
| PapStore.IndexIsStoredSetIff | plugins/pap/posix/pap_plugin_posix.c:134-320 | the index lists each stored policy once and nothing else if and only if no store succeeded while its id had a file |
| PapStore.StoredTwiceStaysListed | plugins/pap/posix/pap_plugin_posix.c:134-320 | a policy stored twice and flushed once has no file and one index entry |
| PapStore.GuardedIndexIsStoredSet | plugins/pap/posix/pap_plugin_posix.c:134-320 | in that case the index has no duplicates and its members are the stored policies |
| PapStore.FileIsLastStore | plugins/pap/posix/pap_plugin_posix.c:104-274 | after every run an id has a file if and only if the last success on it was a store, and the file holds that store's record |
| PapStore.NoFileWithoutStore | plugins/pap/posix/pap_plugin_posix.c:104-274 | an id without any success has no file |
| PapPlugin.WriteRecord | plugins/pap/posix/pap_plugin_posix.c:117-130 | the chain of writes produces the seven labels, each followed by its own field |
| PapPlugin.AcquireAfterStore | plugins/pap/posix/pap_plugin_posix.c:86-224 | acquire returns each field under its own name as it was stored, and the object's size, if and only if the record is clean |
| PapPlugin.PlainRecordComesBack | plugins/pap/posix/pap_plugin_posix.c:86-224 | a record without NULs in its text fields and with 128 and 64 hex characters comes back as it is if and only if it is clean |
| PapPlugin.Splice | plugins/pap/posix/pap_plugin_posix.c:288-299 | the two copies into the new buffer leave out exactly the n bytes at p |
| PapPlugin.PapPlugin.Store | plugins/pap/posix/pap_plugin_posix.c:86-150 | writes the record's file under its id and appends the id and a bar to the index, or changes nothing for an empty object |
| PapPlugin.PapPlugin.CheckIfStored | plugins/pap/posix/pap_plugin_posix.c:226-251 | true exactly for the stored ids |
| PapPlugin.PapPlugin.Acquire | plugins/pap/posix/pap_plugin_posix.c:152-224 | fails exactly for ids that are not stored; otherwise returns, field by field, the record last stored under the id, and the object's size, if and only if it is clean |
| PapPlugin.PapPlugin.GetPolObjLen | plugins/pap/posix/pap_plugin_posix.c:322-363 | 0 for an id that is not stored, otherwise the length of the object last stored under it and of everything behind it in the file |
| PapPlugin.PapPlugin.Flush | plugins/pap/posix/pap_plugin_posix.c:253-320 | removes the file and exactly the first index entry of the id; the entry always exists |
| PapPlugin.PapPlugin.AcquireAll | plugins/pap/posix/pap_plugin_posix.c:472-527 | appends one list element for each index entry, in index order, behind what the list held |
| PapPlugin.Append | plugins/pap/posix/pap_plugin_posix.c:510-519 | the walk to the tail links one new element and keeps all others |
| PapPlugin.Run | plugins/pap/posix/pap_plugin_posix.c:86-320 | any run of stores and flushes leaves the directory the specification says, so the guarantees above hold in every reachable state |
| CanText.HexChar | plugins/pip/can/lib.c:43-51 | the digit printed for a value below 16 is read back as that value |
| CanText.Print | plugins/pip/can/lib.c:143-168 | the compact text has 4 to 32 characters, so it fits the 34-byte buffer |
| CanText.HexRoundTrip | plugins/pip/can/lib.c:150-156 | a value printed in w hex digits reads back as itself |
| CanText.BytesComeBack | plugins/pip/can/lib.c:114-126 | printed data bytes are read back, with or without dots |
| CanText.ParseAfterPrint | plugins/pip/can/lib.c:75-168 | parsing a printed frame succeeds and gives its normal form, whatever the separator |
| CanText.PrintIsCanonical | plugins/pip/can/lib.c:143-168 | two frames print alike if and only if they have the same normal form |
| CanText.NormalIsIdempotent | plugins/pip/can/lib.c:75-168 | a second trip through the text changes nothing |
| CanText.ReprintKeepsFrameIff | plugins/pip/can/lib.c:75-168 | an accepted text, reprinted and parsed again, gives the same frame if and only if its id is one the printer keeps, judged by the text alone |
| CanText.BothFlagsAreLost | plugins/pip/can/lib.c:75-168 | "A0000000#" is accepted and does not survive reprinting |
| CanText.SmallIdsAreReprintable | plugins/pip/can/lib.c:88-104 | every accepted id up to 7FF in three digits or 3FFFFFFF in eight is one |
| CanGrammar.AnySpellingIsRead | plugins/pip/can/lib.c:114-128 | data digits in either case with any legal dots are read to the same bytes, and what stands behind eight bytes is ignored |
| CanGrammar.ReadIsSpelled | plugins/pip/can/lib.c:114-128 | conversely, data that is read is spelled so, to the end of the text or to the eighth byte |
| CanGrammar.AcceptedIff | plugins/pip/can/lib.c:75-131 | a text is accepted if and only if it has three or eight hex digits, '#', and then an R or data spelled so |
| CanGrammar.AcceptedFrameIs | plugins/pip/can/lib.c:75-131 | and the frame it reads as has the id and the values spelled |
| CanDigits.DigitsAre | plugins/pip/can/lib.c:43-51 | the v-th of 0-9A-F and of 0-9a-f are both worth v, and every other character is no digit |
| CanDigits.CaseDoesNotMatter | plugins/pip/can/lib.c:75-131 | texts that differ in the case of letters only are parsed alike, the R of a remote request included |
| CanDigits.HexStringsAgree | plugins/pip/can/lib.c:53-73 | and so are hex strings, which are refused exactly if their length is 0, odd or above 16, or a character is no digit |
| CanDigits.IdIs | plugins/pip/can/lib.c:88-104 | eight digits write the whole id, and bit 31 is set unless bit 29 is; three write it as it is |
| CanDigits.RemoteFrameIs | plugins/pip/can/lib.c:109-112 | a remote request sets bit 30 and has no data |
| CanPrinted.PrintIs | plugins/pip/can/lib.c:143-168 | the compact text is the masked id in three or eight upper-case digits, '#', and an R or two upper-case digits a byte at their places, with dots between bytes exactly if they are asked for |
| CanFrames.Put | plugins/pip/can/lib.c:161-166 | printing at an offset keeps what was before it and ends in a NUL |
| CanFrames.SprintCanframe | plugins/pip/can/lib.c:143-168 | the buffer holds the compact text and its NUL, and is untouched behind it |
| CanFrames.ParseId | plugins/pip/can/lib.c:90-102 | the loop of shifted digits gives the number they write, or reports the first that is none |
| CanFrames.ParseData | plugins/pip/can/lib.c:114-128 | the data loop fills the first bytes as specified and leaves the others alone |
| CanFrames.ParseCanframe | plugins/pip/can/lib.c:75-131 | rejects exactly the texts the specification rejects, otherwise the frame holds what it says |
| CanFrames.Copy | plugins/pip/can/lib.c:75-168 | print into a buffer, parse into another frame: it arrives in normal form |
| CanFrames.HexString2CanData | plugins/pip/can/lib.c:53-73 | fails exactly for an empty, odd, overlong or non-hex argument; otherwise writes its bytes and keeps the rest |
| CanLong.HexDigitsAreRead | plugins/pip/can/lib.c:190-199 | the digits of `%X` write the value |
| CanLong.BitsAreRead | plugins/pip/can/lib.c:214-219 | the eight binary digits write the byte, highest bit first |
| CanLong.TailIsAligned | plugins/pip/can/lib.c:184-264 | at most 98 characters; the error mark ends, and the opening quote stands, in a column that depends on the class and the view only |
| CanLong.ColumnsAgree | plugins/pip/can/lib.c:184-264 | two frames of one class keep them in the same column, whatever their lengths |
| CanLong.ByteColumns | plugins/pip/can/lib.c:209-236 | each listed byte has its own columns: the delimiter and the digits or bits of the byte the view puts there |
| CanLong.SwappedViewMirrors | plugins/pip/can/lib.c:211-261 | the swapped view is as long, and lists the same bytes and the same characters in reverse |
| CanLong.SprintLongCanframe | plugins/pip/can/lib.c:184-264 | the buffer holds the long text and its NUL, within 99 characters |
| CanLong.SprintFields | plugins/pip/can/lib.c:209-236 | the loop up or down over the bytes lists them as specified |
| CanPrinted.HeadIs | plugins/pip/can/lib.c:190-202 | the id stands right-aligned in upper-case digits without leading zeros, then two spaces and the length in brackets |
| CanPrinted.RemoteTextIs | plugins/pip/can/lib.c:204-207 | a remote request ends with those words |
| CanPrinted.LongByteIs | plugins/pip/can/lib.c:209-236 | each byte has its delimiter and its eight bits or two upper-case digits in its columns, in the view's order |
| CanPrinted.ErrorTailIs | plugins/pip/can/lib.c:238-239 | an error frame ends with its mark, thirteen columns behind where eight bytes would end, with spaces before it |
| CanPrinted.QuotedTailIs | plugins/pip/can/lib.c:240-262 | the ASCII view ends with quotes around as many characters as bytes, spaces before them |
| CanPrinted.QuotedCharIs | plugins/pip/can/lib.c:240-262 | each the character its byte stands for if that is 32 to 126, and a dot otherwise |
| CanPrinted.PlainTailIs | plugins/pip/can/lib.c:209-240 | and without that view the text ends with its bytes |
| NmeaDecimal.EveryRunIsRead | plugins/pip/gps/minmea/minmea.c:140-192 | every run of characters is a decimal and a tail, and what comes of it is the verdict on these: value, scale or failure, through any number of further points |
| NmeaDecimal.AcceptedIsDecimal | plugins/pip/gps/minmea/minmea.c:140-192 | with at most nine fraction digits kept, a run is accepted if and only if it is blank, or a decimal whose whole part fits with nothing behind it unless a fraction digit did not fit; the result is the decimal's |
| NmeaDecimal.SpelledIsVerdict | plugins/pip/gps/minmea/minmea.c:140-192 | a decimal with the sign in front, or behind the point when there are no whole digits, gets that verdict whatever follows |
| NmeaDecimal.DecimalIsRead | plugins/pip/gps/minmea/minmea.c:140-192 | a decimal whose whole part fits is read as its value cut to the kept digits, with a scale of as many zeros, if these are at most nine |
| NmeaDecimal.DecimalFailsIff | plugins/pip/gps/minmea/minmea.c:154-163 | a decimal fails if and only if its whole part does not fit 32 bits, or a fraction digit past the 32nd kept one does not |
| NmeaDecimal.CutIsTruncation | plugins/pip/gps/minmea/minmea.c:153-165 | the cut value is the exact decimal truncated, off by less than 1/scale; one more digit would not fit 32 bits |
| NmeaDecimal.ScaleIsPowerIff | plugins/pip/gps/minmea/minmea.c:165-165 | the scale is the power of ten if and only if at most nine digits were kept |
| NmeaDecimal.ScaleIsZeroIff | plugins/pip/gps/minmea/minmea.c:165-165 | the 32-bit scale is zero if and only if 32 or more digits were kept |
| NmeaDecimal.ScaleIsRightIff | plugins/pip/gps/minmea/minmea.c:164-165 | value and scale are right if and only if at most nine fraction digits are kept |
| NmeaDecimal.ManyZerosBreakTheScale | plugins/pip/gps/minmea/minmea.c:164-165 | "0." and ten or more zeros give a wrong scale |
| NmeaDecimal.LongFractionFails | plugins/pip/gps/minmea/minmea.c:154-163 | "0.", 23 or more zeros and ten nines fail although the whole part is 0 |
| NmeaDecimal.SecondPointIsAccepted | plugins/pip/gps/minmea/minmea.c:166-167 | "0.", 32 or more zeros and ".5" read as 5/10 |
| NmeaDecimal.BlankIsZero | plugins/pip/gps/minmea/minmea.c:179-184 | an empty field or one of spaces gives value 0 and scale 0 |
| NmeaScan.FieldsAreCommaSeparated | plugins/pip/gps/minmea/minmea.c:82-94 | the k-th field the walk sees is the k-th comma-separated part of the sentence, and absent behind the last |
| NmeaScan.StopOf | plugins/pip/gps/minmea/minmea.c:96-296 | the field that stops a scan: every one before it exists or is optional, and parses; it does not |
| NmeaInt.IntIsLocalIff | plugins/pip/gps/minmea/minmea.c:194-204 | what an integer field gives depends on its own run if and only if it is not blank, or no sign and digits stand behind the white space after it, or they would not change the result; each case spelled out |
| NmeaInt.AlwaysLocalIffNotBlank | plugins/pip/gps/minmea/minmea.c:194-204 | its text decides it whatever stands behind it if and only if it is not blank |
| NmeaInt.IntCrossesLines | plugins/pip/gps/minmea/minmea.c:194-204 | any blank field before the line "5" reads as 5 |
| NmeaInt.IntSucceedsIff | plugins/pip/gps/minmea/minmea.c:194-204 | a field of its own is accepted if and only if it is empty, or white space, an optional sign and digits to its end |
| NmeaInt.IntIsRead | plugins/pip/gps/minmea/minmea.c:194-204 | white space, a sign and digits read as the number they write, clamped to 64 bits and cut to 32, so exactly if it fits 32; a field character behind them is an error |
| NmeaInt.LargeIntIsCut | plugins/pip/gps/minmea/minmea.c:194-204 | of a number of up to 63 bits the low 32 are kept; one beyond that reads as -1, or as 0 with a minus sign |
| NmeaScan.MicrosAreTruncated | plugins/pip/gps/minmea/minmea.c:270-279 | a fraction of a second is cut to six digits: exact if it has no more, otherwise truncated |
| NmeaScanner.ScanFixed | plugins/pip/gps/minmea/minmea.c:140-192 | the field cursor's loop computes the fixed-point specification of the field's run |
| NmeaScanner.ScanDate | plugins/pip/gps/minmea/minmea.c:229-250 | six leading digits, with anything behind them, or an empty field, from the field's run only |
| NmeaScanner.ScanMicros | plugins/pip/gps/minmea/minmea.c:270-281 | the loop over value and scale computes the cut fraction |
| NmeaScanner.ScanTime | plugins/pip/gps/minmea/minmea.c:252-288 | six leading digits, and a fraction if a point follows, with anything behind them, or an empty field, from the field's run only |
| NmeaScanner.ScanType | plugins/pip/gps/minmea/minmea.c:216-227 | a dollar sign and five field characters; the field is mandatory |
| NmeaScanner.ScanField | plugins/pip/gps/minmea/minmea.c:110-296 | every case computes its specification, whatever it does to its own cursor |
| NmeaScanner.NextFieldCursor | plugins/pip/gps/minmea/minmea.c:83-94 | the cursor moves to the field after the next comma, or there is none |
| NmeaScanner.Scan | plugins/pip/gps/minmea/minmea.c:76-306 | the scan succeeds if and only if every field before ';' exists and every field parses, and hands out the values of the fields before the one that stops it |
| NmeaWriter.WrittenFieldsAreSeen | plugins/pip/gps/minmea/minmea.c:82-94 | of a sentence written as fields with commas between them, the scanner's k-th field is the k-th field written, whatever checksum or line end follows |
| NmeaWriter.DateIsRead | plugins/pip/gps/minmea/minmea.c:229-250 | a date written as six digits is read as its day, month and year, whatever stands behind |
| NmeaWriter.AcceptedDateIs | plugins/pip/gps/minmea/minmea.c:229-250 | conversely, an accepted date is empty or written so |
| NmeaWriter.DateTailIsIgnored | plugins/pip/gps/minmea/minmea.c:229-250 | "123456x" reads as a date |
| NmeaWriter.TimeIsRead | plugins/pip/gps/minmea/minmea.c:252-288 | a time with a fraction of any length is read to the microsecond, truncated, whatever stands behind |
| NmeaWriter.WholeTimeIsRead | plugins/pip/gps/minmea/minmea.c:252-288 | without a point behind its six digits a time is read without a fraction |
| NmeaWriter.AcceptedTimeIs | plugins/pip/gps/minmea/minmea.c:252-288 | conversely, an accepted time is empty or written in one of these ways |
| NmeaSentence.ValueIsRead | plugins/pip/gps/minmea/minmea.c:110-294 | a field reads as the value that was written in it, for every type: letters N and E for 1, S and W for -1, decimals, numbers, dates and times, and empty fields as their defaults |
| NmeaSentence.DirectionIsAcceptedIff | plugins/pip/gps/minmea/minmea.c:119-139 | a direction is accepted if and only if it is empty or starts with one of the four letters |
| NmeaSentence.MissingIsDefault | plugins/pip/gps/minmea/minmea.c:110-294 | an optional field that is missing reads as NUL, 0, 0 at scale 0, the empty string, or -1 throughout |
| NmeaSentence.DirectivesToSemicolon | plugins/pip/gps/minmea/minmea.c:96-108 | fields asked for before ';' are mandatory and those behind it optional, each by its own character |
| NmeaSentence.ScanWritten | plugins/pip/gps/minmea/minmea.c:76-307 | values written as a sentence and scanned with the matching format come out as they were written, with defaults for the optional ones that are missing, whatever checksum or line end follows |
| NmeaSentence.ScanTooFew | plugins/pip/gps/minmea/minmea.c:76-307 | a mandatory field that is missing stops the scan behind the values before it |
| NmeaCheck.Checksum | plugins/pip/gps/minmea/minmea.c:27-37 | the exclusive or of the bytes up to the asterisk, with or without the dollar sign |
| NmeaCheck.Check | plugins/pip/gps/minmea/minmea.c:39-72 | accepts exactly the sentences within the length limit of the form dollar, printable body, asterisk, matching checksum, line end; without strict also those without a checksum |
| NmeaCheck.BodyEnds | plugins/pip/gps/minmea/minmea.c:48-49 | where the body ends is determined |
| NmeaCheck.ChecksumIsParity | plugins/pip/gps/minmea/minmea.c:27-37 | each of the eight bits of the checksum is set if and only if an odd number of the characters up to the first '*' have it set, with or without a dollar sign |
| NmeaCheck.CheckWritten | plugins/pip/gps/minmea/minmea.c:39-70 | '$', printable text, '*' and the two hex digits of that number in either case are accepted, with at most a line end and 83 characters |
| NmeaCheck.CheckedIsSentence | plugins/pip/gps/minmea/minmea.c:39-70 | and a sentence accepted by its checksum is one of these |
| NmeaCheck.BareIsUnchecked | plugins/pip/gps/minmea/minmea.c:39-70 | without a checksum '$', printable text and at most a line end are enough |
| NmeaCheck.UncheckedIsBare | plugins/pip/gps/minmea/minmea.c:39-70 | and needed |
| NmeaCheck.XorIsInjective | plugins/pip/gps/minmea/minmea.c:34-34 | a different byte gives a different exclusive or |
| NmeaCheck.OneWrongCharacterIsDetected | plugins/pip/gps/minmea/minmea.c:27-72 | one body character replaced by another printable one makes an accepted checksummed sentence rejected, strict or not |
| NmeaCheck.ScalingDownRoundsHalfAway | plugins/pip/gps/minmea/minmea.h:223-230 | scaling down gives the nearest value, ties away from zero |
| NmeaCheck.UpThenDownIsIdentity | plugins/pip/gps/minmea/minmea.h:223-230 | scaling up is exact and scaling back down returns the value |
| ObdSockets.Find | plugins/pip/obdii/ejv_obdii/OBDIIDaemon.c:54-64 | the first entry with all three parameters equal, or none |
| ObdSockets.StepKeepsOk | plugins/pip/obdii/ejv_obdii/OBDIIDaemon.c:66-221 | every request, whichever system call fails, keeps keys distinct, counts positive and one open socket per entry, bound to the entry's key |
| ObdSockets.StepCounts | plugins/pip/obdii/ejv_obdii/OBDIIDaemon.c:177-221 | a successful request changes its own key's count by one, and nothing changes any other key's |
| ObdSockets.GrantedSocketIsBound | plugins/pip/obdii/ejv_obdii/OBDIIDaemon.c:206-209 | the socket handed to a client is open and bound to what it asked for |
| ObdSockets.WireRoundTrip | plugins/pip/obdii/ejv_obdii/OBDIICommunication.c:97-109 | the daemon reads every request as the client meant it |
| ObdSockets.WireIs | plugins/pip/obdii/ejv_obdii/OBDIICommunication.c:97-109 | a request is the bytes 1, 0, then 0 for open or 1 for close, 0, and three words, lowest byte first |
| ObdSockets.DecodedIs | plugins/pip/obdii/ejv_obdii/OBDIIDaemon.c:177-252 | a message is understood if and only if it starts with 16 such bytes |
| ObdSockets.CloseUndoesItsOpen | plugins/pip/obdii/ejv_obdii/OBDIICommunication.c:92-134 | a client's close addresses the entry its open created or shared, and the pair leaves the registry as it was |
| ObdSockets.RunIsAccounted | plugins/pip/obdii/ejv_obdii/OBDIIDaemon.c:177-252 | over every run of messages, malformed ones included, the registry is sound and each count is successful opens minus successful closes |
| ObdSockets.CloseSucceedsIffCounted | plugins/pip/obdii/ejv_obdii/OBDIIDaemon.c:110-221 | a close succeeds if and only if opens outnumber closes, and a socket is shut exactly at the last one |
| ObdSockets.StepKeepsSocket | plugins/pip/obdii/ejv_obdii/OBDIIDaemon.c:177-252 | as long as a key is counted its socket stays, and an open is handed the key's socket |
| ObdSockets.GrantsAgree | plugins/pip/obdii/ejv_obdii/OBDIIDaemon.c:177-252 | over every run, while opens of a key outnumber its closes, every open of it is handed the same socket |
| ObdSockets.ReplyIs | plugins/pip/obdii/ejv_obdii/OBDIIDaemon.c:177-221 | over every run, a close is answered with success while opens outnumber closes and with no such socket otherwise; an open with the key's socket, a new one, or an open error if the system fails |
| ObdDaemon.Daemon.Matching | plugins/pip/obdii/ejv_obdii/OBDIIDaemon.c:54-64 | the walk over the list returns the first matching node, or null |
| ObdDaemon.Daemon.OpenConnection | plugins/pip/obdii/ejv_obdii/OBDIIDaemon.c:66-108 | a new bound socket in a new first node with count 1; on each failure nothing is left open and the list is unchanged |
| ObdDaemon.Daemon.PushFront | plugins/pip/obdii/ejv_obdii/OBDIIDaemon.c:95-100 | linking at the head keeps the links mutual and the list in order |
| ObdDaemon.Daemon.CloseConnection | plugins/pip/obdii/ejv_obdii/OBDIIDaemon.c:110-138 | one reference less; at zero the socket is closed and the node unlinked; null is ignored |
| ObdDaemon.Daemon.Unlink | plugins/pip/obdii/ejv_obdii/OBDIIDaemon.c:123-134 | exactly that node leaves the list, and the links around it close |
| ObdDaemon.Daemon.HandleSocketRequest | plugins/pip/obdii/ejv_obdii/OBDIIDaemon.c:177-221 | new state and reply are those of the registry's step; a short payload changes nothing and is not answered |
| ObdDaemon.Daemon.HandleMessage | plugins/pip/obdii/ejv_obdii/OBDIIDaemon.c:224-252 | messages that are too short, of another version or of another type change nothing; the others act on the key they carry |
| ObdDaemon.Serve | plugins/pip/obdii/ejv_obdii/OBDIIDaemon.c:288-303 | after any run of messages the linked list is well formed and every count is accounted for |
| ObdDaemon.Pack | plugins/pip/obdii/ejv_obdii/OBDIICommunication.c:20-27 | copies the bytes at the position, moves it past them, and touches nothing else |
| ObdDaemon.Marshal | plugins/pip/obdii/ejv_obdii/OBDIICommunication.c:97-109 | all 16 bytes are written and the daemon decodes the same kind and key from them |
| ObdCommands.ClearsOneBit | plugins/pip/obdii/ejv_obdii/OBDIICommunication.c:188-190 | `w & (w - 1)` has one bit less |
| ObdCommands.BitsSet | plugins/pip/obdii/ejv_obdii/OBDIICommunication.c:186-192 | the loop counts the bits that are set among all 32 |
| ObdCommands.TestBit | plugins/pip/obdii/ejv_obdii/OBDII.c:16-31 | masking with a shifted one is non-zero exactly when that bit is set |
| ObdCommands.ContainsIffAnswered | plugins/pip/obdii/ejv_obdii/OBDII.c:5-36 | a mode 1 command of the table is in the set exactly when its own reply bit is set and each earlier range announced the next |
| ObdCommands.CountIsListLength | plugins/pip/obdii/ejv_obdii/OBDIICommunication.c:243-251 | for all replies the bit counts give the length of the list, plus one exactly when bit 29 of the mode 9 reply is set |
| ObdCommands.OnePlaceTooMany | plugins/pip/obdii/ejv_obdii/OBDIICommunication.c:243-251 | with PID 3 of mode 9 alone supported the count is one more than the list's length |
| ObdCommands.FillFrom | plugins/pip/obdii/ejv_obdii/OBDIICommunication.c:258-279 | one pass writes the listed commands of a table in order and nothing behind them |
| ObdCommands.GetSupportedCommands | plugins/pip/obdii/ejv_obdii/OBDIICommunication.c:194-283 | never writes outside the allocated array; it holds the list, and its last place stays unwritten exactly when mode 9 PID 3 is supported |
| ObdCommands.Collect | plugins/pip/obdii/ejv_obdii/OBDIICommunication.c:195-240 | the branches keep the words of the specification, whose meaning is ContainsIffAnswered: each range only if the one before announced it, unimplemented PIDs masked out |
| ObdCommands.ListIsWhatVehicleAnswered | plugins/pip/obdii/ejv_obdii/OBDIICommunication.c:258-279 | a command is listed if and only if the replies support it; PID 0 of modes 1 and 9 and the DTC query always are |
| ObdCommands.ListIsOrdered | plugins/pip/obdii/ejv_obdii/OBDIICommunication.c:258-279 | no command is listed twice, modes come in order and PIDs ascend in each |
| ModbusCrc.ShiftXor | plugins/pip/modbus/modbus.c:166-172 | one step of the inner loop is linear |
| ModbusCrc.UnshiftUndoes | plugins/pip/modbus/modbus.c:166-172 | and loses no information |
| ModbusCrc.BytesAreBits | plugins/pip/modbus/modbus.c:160-175 | the nested loops compute the register that takes the message one bit at a time |
| ModbusCrc.BurstIsDetected | plugins/pip/modbus/modbus.c:160-175 | two messages of one length that differ only within sixteen consecutive bits have different CRCs |
| ModbusCrc.ResidueIsZeroIff | plugins/pip/modbus/modbus.c:81-84 | a message and two more bytes have CRC 0 if and only if these are the message's CRC, low byte first |
| ModbusCrc.StandardExample | plugins/pip/modbus/modbus.c:160-175 | the message 02 07, the worked example of section 6.2.2 of MODBUS over Serial Line V1.02, has CRC 1241 |
| ModbusDriver.CalculateCrc | plugins/pip/modbus/modbus.c:160-175 | the loops compute the CRC of the first len bytes |
| ModbusDriver.BuildRequest | plugins/pip/modbus/modbus.c:73-84 | the request holds the address, function code 3, register and quantity as quotient and remainder by 256, and the CRC of these, low byte first |
| ModbusDriver.ReadReply | plugins/pip/modbus/modbus.c:90-102 | the status is 0 if and only if the CRC of all before it follows, low byte first, and register i is 256 times its first byte plus its second |
| ModbusDriver.ReplyIsRead | plugins/pip/modbus/modbus.c:87-102 | a correct reply is accepted and its registers come out |
| ModbusDriver.ReadFromSlave | plugins/pip/modbus/modbus.c:87-102 | a reply built from registers, each its quotient and remainder by 256, with its CRC low byte first, is accepted and gives those registers |
| ModbusDriver.SpoiltReplyIsRefused | plugins/pip/modbus/modbus.c:93-102 | a correct reply hit by one burst of up to sixteen bits is refused, as long as its byte count survives |
| ModbusDriver.SilenceIsRefused | plugins/pip/modbus/modbus.c:87-102 | no reply at all is refused |
| ModbusDriver.AdjacentBytesAreABurst | plugins/pip/modbus/modbus.c:160-175 | errors confined to two adjacent bytes always change the CRC |
| Base64.CharOfValue | policy_loader/policy_loader.c:218-221 | the table inverts the alphabet, and has no value for the padding |
| Base64.AlphabetIs | policy_loader/policy_loader.c:218-221 | the characters of values 0 to 63 are A-Z, a-z, 0-9, + and /, in this order |
| Base64.Decode | policy_loader/policy_loader.c:216-241 | returns 0 before writing anything if a character is invalid; otherwise writes exactly the bytes whose characters are there, in bounds |
| Base64.DecodeGroup | policy_loader/policy_loader.c:229-238 | one round writes one to three bytes of its group and no others |
| Base64.BytesAre | policy_loader/policy_loader.c:229-238 | the bytes of a group are its characters' six bits each, eight at a time from the top, as far as they are present |
| Base64.DecodingInvertsEncoding | policy_loader/policy_loader.c:216-241 | for every byte string, decoding its encoding for its own length stays in bounds and gives the bytes back |
| Base64.IsCanonicalIff | policy_loader/policy_loader.c:216-241 | an accepted text is the encoding of what it leaves in the output if and only if it has padding just where there is no byte, and no spare bit set |
| Base64.SpareBitsAreAccepted | policy_loader/policy_loader.c:225-238 | "QR==" is accepted for one byte whose encoding is another text |
| Base64.MisplacedPaddingIsAccepted | policy_loader/policy_loader.c:225-238 | "=AAA" is accepted for three bytes and is the encoding of none |

## Left out

- The policy language, its compiler and the decision point: the code is in a library that is not part of this model.
- The network server, the policy updater, the data dumper, the wallet and its plugins, the portability layer, the
  dataset plugin, the second copy of the CAN library and the JSON writers: glue around other libraries, or easier
  relatives of what is modelled.
- The polling state machine and the JSON search of the policy loader; only its base64 decoder is modelled.
- I/O: files are sequences of characters, a directory is a map, and the operating system's answers (new handles, failing
  calls, received bytes, vehicle replies) are parameters. Logging is dropped.
- PapPlugin.PapPlugin.Store: does not model failing file opens or writes, so the index and the policy files always change together.
- PapPlugin.PapPlugin.Acquire: does not model the caller's buffers, nor searches that run past the end of a file's
  buffer, which has no NUL of its own; the buffer's end counts as one.
- PapPlugin.PapPlugin.AcquireAll: does not model the conversion of ids between 32 bytes and 64 hex digits; ids are their digits throughout;
  the tokenizer's read of the byte behind the index buffer, which has no NUL of its own, counts as a NUL.
- PapPlugin.AcquireAfterStore: the check of the two algorithm names after reading is not modelled.
- IniConfig.ConfigManager.Init: files longer than the data array are excluded, because the code would write past it.
- IniConfig.ConfigManager.GetString: a comparison that would read past the data array finds NULs there; the caller's
  buffer must hold the NUL that lands two past the copied length; the integer and float getters are not modelled.
- IniRoundTrip.LookupIsPrefixSearch: a wanted group name that starts with a line feed is left out for files with a header
  that is `[` alone, against which the code compares the rest of the file.
- IniRoundTrip.OpenValueIsCopied: sizes within 2048 of the largest `size_t` are left out.
- CanFrames.ParseCanframe: a string of four or more characters whose fourth is not '#' must be in a buffer of nine,
  because the code reads the ninth; after an error the frame's content is not specified.
- CanLong.SprintLongCanframe: the translation of error frames into words is not modelled.
- NmeaDecimal.EveryRunIsRead: multiplying the scale past 32 bits is undefined in C; the model wraps around, as
  two's complement hardware does, so everything beyond nine kept fraction digits is about that behaviour.
- NmeaCheck.ScalingDownRoundsHalfAway: integers do not overflow in the model of rescaling; the float and coordinate conversions are not modelled.
- ObdSockets.RunIsAccounted: reference counts do not overflow, and replies that cannot be sent are not modelled.
- ObdDaemon.Daemon.CloseConnection: freed nodes leave the list but stay allocated, as Dafny has no free.
- ObdCommands.GetSupportedCommands: names, response types and decoders of the commands are not modelled, nor are the decoders themselves.
- ModbusDriver.ReadReply: byte counts that would lead past the 100-byte buffer are excluded; register values are their 16 bits, without a sign.
- ModbusDriver.SpoiltReplyIsRefused: a burst that changes the byte count moves the CRC's place, and nothing is claimed for it.
- Base64.Decode: texts too short for outLen, and padding that would let it write behind outLen, are excluded, because the code would leave its arrays.
