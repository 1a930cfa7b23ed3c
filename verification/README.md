# Verified model of the SmartNIC control software

This project models five cores of the SmartNIC control software in Dafny and proves what they promise.

**P4 rule compiler.** `FormatString` parses a table's hardware format string in two passes. `MatchPack`
compiles the match fields of a user rule into one multi-precision key and mask (`FieldVector`, `Bits`)
and exports them as big-endian byte vectors (`Gmp`); `ParamPack` does the same for action parameters,
and `RulePack` is the whole `snp4_rule_pack`, down to what becomes of every buffer (`Packs`).
`PrefixMask` shows the prefix-mask validator exact. `MatchMeaning` is the main result: over all packets,
the exported bytes match what the user wrote if and only if every field is *honoured*, a condition on
encoding and field type that a caller can check. `MatchRules` says which written masks each field type
accepts and which status the others get, `FieldLetters` what each text in a format string says.

**Statistics filter engine.** `BitArrays` is the multi-word bit array, proved to be a set of positions.
`StringMatch` and `MetricFilter` are the recursive matchers; every filter tree, evaluated with early
exits and reused scratch arrays, ends with exactly its denoted set of element indices. `StringLaws` and
`FilterLaws` say what that set is in a client's terms: strings by how they are put together, slices by
the indices counted, attributes by what they can tell apart.

**Statistics store.** `StatsStore` is one update or clear of a metric; `CounterRuns` follows counters
over every sequence of updates, clears, enables and disables, `LevelRuns` gauges and flags. `ZoneStore`
and `StatsDomain` are blocks, zones and the linked list of zones with their value counts, as classes:
attaching, detaching, flattened reads of the whole domain and its tear-down. `ZoneLifetime` is the
reference-counting protocol over every interleaving of owners and walkers, up to a tear-down that
touches only live zones; the two tear-downs share `TearDown` and are shown to end alike. `ZoneWalks`
shows that every walk comes by the whole list.

**Card management.** `Mailbox` is the retrying mailbox handshake over every interleaving of clients and
device, and `MailboxPosts` tells from what happened on the registers how a post ends: exactly when it
fails, and that on a device that keeps up it succeeds at the first doorbell. `CardInfo` parses the
response to the card information request (section "CMS_OP_CARD_INFO_REQ (0x04)" of AMD PG348), and
`CardFields` says which field decides each part of it. `ModuleMem` reads and writes module memory that
is paged as section 6 of SFF-8636 lays down.

**Queue spreading.** `QueueSpread` fills the hash-to-queue tables and is proved to weigh the queues
asked for equally.

## How the model is built

- Loops that update variables are methods with loops; bit arrays, metrics, blocks, zones, the domain,
  packs, queue registers and module memory are classes or arrays updated in place. Protocols with
  several threads are state machines over their atomic steps.
- GMP integers are naturals: keys, masks and parameters are non-negative. `mpz_sizeinbase(0, 2)` is 1
  and `mpz_export` of 0 writes nothing, as GMP documents.
- 16-bit, 32-bit and 64-bit counters wrap or truncate explicitly where the code relies on them: the
  field count and widths, the `%u` conversion, stored metric values and last readings, zone reference
  counts, and the 8-bit counters of the module read loop.
- The regular-expression library (`regex_match` and the token split) is a parameter. Hardware
  readings, the device's answers and failing accesses are parameters too.
- A zone is reclaimed by the put that finds the count at 0, before its decrement, as in the code. So
  an owner's release leaves the zone on the list, and the tear-down, which drops one reference more
  per zone than it takes, reclaims it.

## Where the code does not do what one might expect

- A range written for a field that is not a range field, a mask or prefix written for a range field,
  an ignored range field, and an exact key on an unused field are accepted and compiled, but (outside
  the all-ones corner case) do not match what was written. `MatchMeaning.Honoured` is the exact
  condition.
- A rule that fails on a whole packed vector (key, mask or parameters too big for the table or action)
  has its buffers freed twice: once where the error is found, and again when the result is cleared
  (`RulePack.Pack`, with an input in `RulePack.KeyTooBigOccurs`). `RulePack.FreedTwiceExact` gives
  the exact condition on a table and action under which no rule ends that way.
- When a table's response is narrower than an action's parameters, the padding before the parameters
  wraps around and they are written outside their vector (`RulePack.ParamsOutsideOccur` has an input).
  `ParamPack.RoomExact`, `ParamPack.InsideExact` and `RulePack.OutsideExact` give the exact condition
  on a description under which no rule does this.
- A format string of 65536 or more fields is miscounted (`FormatString.FieldCountExact`).
- A field width above 65535 in a format string is taken modulo 65536, and a negative one is accepted
  (`FieldLetters.DigitsDecide`).
- An action whose parameter widths add up to 65536 or more bits is compiled with the wrong bit count
  (`ParamPack.WidthSumExact`); a sum of exactly 65536 counts as no parameters
  (`ParamPack.SumWrapsToNothing`).
- A free-running counter narrower than 64 bits loses events when it wraps between two readings
  (`CounterRuns.NarrowCounterExact`).
- A module read without a count asks for 128 bytes from any offset. From an offset above 128 it
  re-reads the upper page from its start (`ModuleMem.RangeExact`).
- A queue request that is rejected for its size has already overwritten the table's base queue
  (`QueueSpread.SetQueues`).
- Tearing a domain down while an owner still holds a zone takes that owner's reference and leaves the
  zone allocated (`StatsDomain.Domain.Free`).

## Model

| member | source | states |
|---|---|---|
| Gmp.Scan1 | libsnp4/src/snp4_table.c:139 | the scan for the lowest one bit returns the position of a one with only zeros below |
| Gmp.Scan0 | libsnp4/src/snp4_table.c:140 | the scan for a zero returns the first zero at or above the start position |
| Gmp.SizeFits | libsnp4/src/snp4_table.c:174-185 | the digit-count comparison is exactly "the field has bits and the number is below 2^bits"; 0 has one digit |
| Gmp.ExportRightAligned | libsnp4/src/snp4_table.c:256-257 | exporting at the computed padding offset into a zeroed buffer leaves bytes that, read big-endian, are the number; covers 0, for which nothing is written |
| Gmp.FromExport | libsnp4/src/snp4_table.c:257 | reading the big-endian export back gives the number |
| Gmp.FromBytesInjective | libsnp4/src/snp4_table.c:257 | two equally long byte vectors that stand for the same number are equal |
| PrefixMask.ScanTestExact | libsnp4/src/snp4_table.c:135-146 | for masks of any width, the scan1/scan0 test accepts exactly those whose bits inside the field are a prefix mask |
| PrefixMask.ValidatorExact | libsnp4/src/snp4_table.c:135-146 | scan test and width test together accept exactly the masks (2^p - 1) << (bits - p), 0 <= p <= bits, that the prefix branch builds |
| PrefixMask.MaskedByPrefix | libsnp4/src/snp4_table.c:49-54 | comparing under a prefix mask is comparing the top p bits |
| FieldVector.JoinNext | libsnp4/src/snp4_table.c:226-234 | one shift-and-or turn appends the next field below those already packed |
| FieldVector.FieldsOfJoin | libsnp4/src/snp4_table.c:213-235 | slicing a packed number by the widths gives back every field |
| FieldVector.JoinOfFields | libsnp4/src/snp4_table.c:213-235 | packing the slices of any number below 2^total gives the number back |
| FieldVector.JoinInjective | libsnp4/src/snp4_table.c:213-235 | fitting field vectors with one packed number are equal |
| FieldVector.FieldAt | libsnp4/src/snp4_table.c:226-235 | field j lies directly above all the fields after it |
| FieldVector.MaskedJoin | libsnp4/src/snp4_table.c:226-235 | masked comparison of whole packed keys is the conjunction of the masked field comparisons |
| MatchPack.UserEncoding | libsnp4/src/snp4_table.c:32-72 | key and mask of each of the five user encodings, with the too-long prefix and the unset format as errors |
| MatchPack.ValidateMask | libsnp4/src/snp4_table.c:117-171 | the mask rules of each field type: 0/-1, -1, prefix form, upper >= lower, any, 0 |
| MatchPack.PackPartialKeyMask | libsnp4/src/snp4_table.c:10-196 | for every match and field: the first error in the order of the code, or the key and mask the encoding and the type default stand for |
| MatchRules.AcceptedMasks | libsnp4/src/snp4_table.c:117-193 | for each field type, exactly which written keys and masks are accepted: bit field 0 or all ones, constant all ones, prefix the leading bits, range lower <= upper inside the field, ternary any that fits, unused 0 |
| MatchRules.RejectedMasks | libsnp4/src/snp4_table.c:117-171 | for each field type, exactly which masks get that type's status; for a prefix field those with a zero above a one inside the field |
| MatchRules.RejectedSizes | libsnp4/src/snp4_table.c:174-185 | behind the mask test: a key that does not fit is reported before a mask that does not fit |
| MatchRules.VerdictsOfMask | libsnp4/src/snp4_table.c:117-196 | no other status comes from a key and mask |
| MatchRules.OtherEncodings | libsnp4/src/snp4_table.c:32-115 | an exact key, a range and a wildcard are answered like the key and mask they stand for; a too-long prefix and an unset match are refused |
| MatchRules.PrefixEncoding | libsnp4/src/snp4_table.c:43-55 | a prefix of p bits is answered like a mask of the p leading bits |
| MatchPack.FieldsVerdictStops | libsnp4/src/snp4_table.c:213-219 | the first failing field decides the result whatever follows |
| MatchPack.FieldsVerdictOk | libsnp4/src/snp4_table.c:213-219 | the field loop succeeds exactly when every field is acceptable on its own |
| MatchPack.PackFields | libsnp4/src/snp4_table.c:213-235 | the field loop returns the first field error or the packed key and mask of all fields |
| MatchPack.ExportPart | libsnp4/src/snp4_table.c:249-257 | the size test before an export passes exactly for numbers below 2^key_bits; the buffer then holds the number |
| MatchPack.PackMatches | libsnp4/src/snp4_table.c:198-286 | key and mask buffers of (key_bits + 7) / 8 bytes that stand for the packed fields, or the exact error; a failed size test frees both buffers and leaves the fields pointing at them |
| MatchPack.WideEnoughKey | libsnp4/src/snp4_table.c:249-265 | a table key at least as wide as its fields accepts a rule exactly when it accepts every field |
| MatchPack.EveryKeyIsPacked | libsnp4/src/snp4_table.c:213-235 | every number of the fields' total width is the packed key of an acceptable match list, whatever the field types |
| MatchPack.KeysFitExact | libsnp4/src/snp4_table.c:249-265 | no match list ends in an error on the whole key or mask if and only if the key covers the fields, or some field has no type or no width so that no list gets that far |
| MatchPack.SlicesAreTheFields | libsnp4/src/snp4_table.c:226-267 | slicing the exported key and mask by the field widths gives back every field key and mask |
| MatchMeaning.IntervalIsMaskedOnlyAtOnes | libsnp4/src/snp4_table.c:90-94 | reading a key and mask pair as a range and as a masked value agree on all field values only when both are all ones |
| MatchMeaning.FieldMeaning | sn-stack/README.STACK.INSTALL.md:570-573 | an accepted field matches, for every field value, exactly what the user wrote if and only if the encoding is honoured for that field type |
| MatchMeaning.RuleMeaning | sn-stack/README.STACK.INSTALL.md:567-573 | over all packets an accepted rule means what the user wrote if and only if every field is honoured |
| MatchMeaning.WholeKeyMatch | libsnp4/src/snp4_table.c:226-234 | without range fields the whole-key test (P & mask) == (key & mask) is the conjunction of the field tests |
| MatchMeaning.CompiledRuleMatchesUserRule | sn-stack/README.STACK.INSTALL.md:567-573 | without range fields: the exported bytes match exactly the packets whose every field satisfies what the user wrote, for all packets, if and only if every field is honoured |
| MatchMeaning.RangeOnTernaryIsNotARange | libsnp4/src/snp4_table.c:57-61 | counterexample: range 1->3 on a two-bit ternary field is accepted and does not match 2 |
| ParamPack.PackPartialParam | libsnp4/src/snp4_table.c:288-309 | one parameter: format and width errors, or its value |
| ParamPack.ParamStatuses | libsnp4/src/snp4_table.c:291-309 | both ways of writing a number are accepted exactly when it fits the width; only an unset parameter has no format |
| ParamPack.PackAll | libsnp4/src/snp4_table.c:328-344 | the parameter loop returns the first parameter error or the packed parameters |
| ParamPack.PackParams | libsnp4/src/snp4_table.c:311-376 | a vector of the table's length holding the packed parameters, the one-byte vector of an action without parameters, or the exact error; a failed size test frees the vector and leaves the field pointing at it. Requires that the export stays inside the vector |
| ParamPack.RoomIsEnough | libsnp4/src/snp4_table.c:347-362 | it does when the table response has room for the action's parameters |
| ParamPack.EveryNumberIsPacked | libsnp4/src/snp4_table.c:328-344 | every number of the parameters' total width is what some accepted parameter list packs to |
| ParamPack.InsideExact | libsnp4/src/snp4_table.c:347-362 | for every table and action width: the export stays inside the vector for all parameter lists if and only if the vector takes the largest number an accepted list packs to, or no list is packed at all |
| ParamPack.RoomExact | libsnp4/src/snp4_table.c:347-362 | with the width sum as the action's bit count: the export stays inside the vector for all parameter lists if and only if the table response takes at least as many bytes as the parameters |
| ParamPack.ParamsFitExact | libsnp4/src/snp4_table.c:354-360 | no parameter list ends in the error on the whole vector if and only if the action has no parameter bits, its bit count covers the parameter widths, or some parameter has no width |
| ParamPack.WidthSumExact | libsnp4/src/snp4_info_hw.c:149-159 | the 16-bit sum kept as the action's bit count takes every list of fitting parameters if and only if the sum of the widths is below 65536 |
| ParamPack.SumWrapsToNothing | libsnp4/src/snp4_table.c:314-320 | counterexample: with a width sum of 65536 even unset parameters are answered with success and an empty vector |
| Packs.Pack.Clear | libsnp4/src/snp4_table.c:453-467 | every buffer still pointed at is freed once more, and forgotten |
| ParamPack.ParamsNeverTooBig | libsnp4/src/snp4_table.c:354-360 | when the action's bit count is the sum of its parameter widths, the too-big error cannot occur and packing succeeds exactly when each parameter fits |
| ParamPack.ParamsRoundTrip | libsnp4/src/snp4_table.c:340-362 | the low bits slice back into the parameters and all higher bits are zero |
| ParamPack.ParamsInjective | libsnp4/src/snp4_table.c:340-362 | two parameter lists give the same bytes exactly when their values are the same |
| RulePack.GetTableByName | libsnp4/src/snp4_info_util.c:10-27 | the first table of that name, or none |
| RulePack.GetActionByName | libsnp4/src/snp4_info_util.c:29-46 | the first action of that name, or none |
| RulePack.OutcomeOrder | libsnp4/src/snp4_table.c:479-531 | what decides the outcome, in order: the first table of the name, in it the first action of the name, the number of fields, the number of parameters, the fields, the parameters |
| RulePack.ParamsFillResponse | libsnp4/src/snp4_table.c:523-525 | the parameters of a compiled rule take up the bits of the table's response beside the action id, in whole bytes |
| RulePack.PackFound | libsnp4/src/snp4_table.c:500-539 | sizes, fields and parameters against a table and action: every error in order, the three byte vectors on success, and what becomes of every buffer allocated |
| RulePack.Pack | libsnp4/src/snp4_table.c:469-539 | the outcome for every pipeline and every rule whose parameters stay inside their vector when it compiles, errors in order; on success the result holds the three byte vectors and nothing was freed; on failure it is empty and every buffer has been freed, some more than once if and only if the error is one found on a whole packed vector |
| RulePack.ResponseRoomIsEnough | libsnp4/src/snp4_table.c:523-525 | parameters stay inside their vector for every rule when each table response has room for every action's parameters |
| RulePack.OutsideExact | libsnp4/src/snp4_table.c:523-525 | for a table whose key covers its fields: no rule that compiles writes its parameters beyond their vector if and only if the vector takes the largest number the action's parameters pack to, or the action packs none |
| RulePack.ParamsOutsideOccur | libsnp4/src/snp4_table.c:361-362 | counterexample: a table with an 8-bit response and an action with a 9-bit parameter accept a rule whose export does not fit the vector |
| RulePack.KeyTooBigOccurs | libsnp4/src/snp4_table.c:250-255 | counterexample: two one-bit fields in a table with a one-bit key end in such an error, so its buffers are freed twice |
| RulePack.FreedTwiceExact | libsnp4/src/snp4_table.c:500-531 | no rule for a table and action ends with buffers freed twice if and only if the key covers the fields and the bit count the parameters, up to descriptions under which the size tests are never reached |
| RulePack.ConsistentOutcome | libsnp4/src/snp4_table.c:500-531 | against a consistent table a rule compiles exactly when counts agree and every field and parameter is acceptable; the errors found on whole vectors, and with them buffers freed twice, cannot occur |
| FormatString.PiecesCount | libsnp4/src/snp4_info_hw.c:196-210 | the separator count of pass 1 plus one is the number of pieces strsep takes off |
| FormatString.StrSep | libsnp4/src/snp4_info_hw.c:233 | strsep takes off the first piece and leaves a cursor on the rest, or none |
| FormatString.CountFields | libsnp4/src/snp4_info_hw.c:196-210 | pass 1 arrives at the separator count plus one, modulo 65536 |
| FormatString.ParseFields | libsnp4/src/snp4_info_hw.c:230-287 | pass 2 stores the fields in reverse, finds a priority field exactly if there is one, and never runs out of pieces |
| FieldLetters.CharacterClasses | libsnp4/src/snp4_info_hw.c:242 | digits are 0 to 9; the blanks the scanner skips are space, tab, line feed, vertical tab, form feed and carriage return |
| FieldLetters.LetterDecides | libsnp4/src/snp4_info_hw.c:241-286 | type and priority of a field by its letter, for any leading blanks, sign, digits and trailing text; any other letter is an invalid field |
| FieldLetters.DigitsDecide | libsnp4/src/snp4_info_hw.c:242-250 | its width: the decimal number modulo 2^16, counted down from 2^16 after a minus sign, 65535 when it exceeds 64 bits |
| FieldLetters.FirstDigit | libsnp4/src/snp4_info_hw.c:242 | digits count by place, the first one most |
| FieldLetters.NoField | libsnp4/src/snp4_info_hw.c:242-248 | a text without digits, or that ends with them, is an invalid field |
| FormatString.GetMatches | libsnp4/src/snp4_info_hw.c:194-290 | both passes: too many fields leaves the array alone; otherwise the reversed fields, nothing behind them, and priority_required iff some field is p, r or t |
| FormatString.TextParses | libsnp4/src/snp4_info_hw.c:241-286 | the text of any well-formed field scans back to that field and contains no separator |
| FormatString.ParserUndoesPrinter | libsnp4/src/snp4_info_hw.c:196-287 | parsing the rendering of any well-formed list of 1 to 65535 fields gives the list back |
| FormatString.FieldCountExact | libsnp4/src/snp4_info_hw.c:200-209 | the 16-bit field counter is right if and only if there are fewer than 65536 fields |
| FormatString.FieldCountWraps | libsnp4/src/snp4_info_hw.c:200-209 | counterexample: 65535 separators count as no field at all |
| FormatString.BitPlacement | libsnp4/src/snp4_info_hw.c:224-231 | packing a reversed field list puts field i of the list, in key and mask, at the sum of the widths of fields 0 to i-1 |
| FormatString.CompileKey | libsnp4/src/snp4_info_hw.c:194-290 | end to end from the format string through the array the parser fills: with fewer than 65536 fields every field of an accepted rule is where the string puts it |
| FormatString.GetParams | libsnp4/src/snp4_info_hw.c:141-162 | parameter widths in order and their sum, both truncated to 16 bits, or the too-many error |
| FormatString.SumExact | libsnp4/src/snp4_info_hw.c:149-159 | the 16-bit sum is the sum of the widths exactly below 65536 |
| BitArrays.SamePositions | sn-cfg/src/agent/stats.cpp:85-103 | two well-formed word lists with the same set of positions are the same words |
| BitArrays.FullWordsUnique | sn-cfg/src/agent/stats.cpp:85-93 | only the word list of set_all has every position |
| BitArrays.BitArray.constructor | sn-cfg/src/agent/stats.cpp:23-37 | a new array of nbits bits holds no position |
| BitArrays.BitArray.Copy | sn-cfg/src/agent/stats.cpp:40-44 | the copy holds the same positions in its own words |
| BitArrays.BitArray.IsBitSet | sn-cfg/src/agent/stats.cpp:71-79 | membership; false beyond the size |
| BitArrays.BitArray.CountAllSet | sn-cfg/src/agent/stats.cpp:56-65 | the size of the set |
| BitArrays.BitArray.CountAllCleared | sn-cfg/src/agent/stats.cpp:67-69 | set and cleared counts add up to nbits |
| BitArrays.BitArray.IsAllSet | sn-cfg/src/agent/stats.cpp:85-93 | true exactly when every position below nbits is set |
| BitArrays.BitArray.IsAllCleared | sn-cfg/src/agent/stats.cpp:95-103 | true exactly for the empty set |
| BitArrays.BitArray.SetBit | sn-cfg/src/agent/stats.cpp:105-111 | adds one position, nothing beyond the size |
| BitArrays.BitArray.SetAll | sn-cfg/src/agent/stats.cpp:113-118 | every position below nbits, no bit above |
| BitArrays.BitArray.ClearBit | sn-cfg/src/agent/stats.cpp:120-126 | removes one position |
| BitArrays.BitArray.ClearAll | sn-cfg/src/agent/stats.cpp:128-132 | the empty set |
| BitArrays.BitArray.NegateBit | sn-cfg/src/agent/stats.cpp:134-140 | flips one position |
| BitArrays.BitArray.NegateAll | sn-cfg/src/agent/stats.cpp:142-147 | the complement below nbits |
| BitArrays.BitArray.AssignBit | sn-cfg/src/agent/stats.cpp:149-155 | adds or removes one position |
| BitArrays.BitArray.AssignAll | sn-cfg/src/agent/stats.cpp:157-163 | everything or nothing |
| BitArrays.BitArray.AndWith | sn-cfg/src/agent/stats.cpp:165-171 | intersection with an array of the same size, itself included |
| BitArrays.BitArray.OrWith | sn-cfg/src/agent/stats.cpp:173-179 | union with an array of the same size, itself included |
| StringMatch.MatchPart | sn-cfg/src/agent/stats.cpp:231-300 | the part matcher, with its early exits, equals the exists/forall meaning at every nesting level and terminates |
| StringMatch.MatchSplit | sn-cfg/src/agent/stats.cpp:303-324 | split-any holds iff some part matches, split-all iff there is a part and all match |
| StringMatch.MatchString | sn-cfg/src/agent/stats.cpp:327-378 | all methods: exact, prefix, suffix, substring, regular expression, split, unset as wildcard |
| StringLaws.EndsOfString | sn-cfg/src/agent/stats.cpp:331-352 | exact, prefix and suffix by how the string is put together |
| StringLaws.InsideString | sn-cfg/src/agent/stats.cpp:354-361 | a substring match holds exactly for strings that contain it |
| StringLaws.TokenValues | sn-cfg/src/agent/stats.cpp:303-324 | split with any: some token is the value; split with all: there is a token and every one is the value |
| StringLaws.TokenIndices | sn-cfg/src/agent/stats.cpp:237-243 | index parts select the token at that index, counted from 0 |
| StringLaws.Joined | sn-cfg/src/agent/stats.cpp:255-299 | any, all and negated part sets of two members; empty sets and unset terms accept |
| StringMatch.PartDeMorgan | sn-cfg/src/agent/stats.cpp:265-297 | a negated non-empty any-set is the all-set of the negated members |
| MetricFilter.SetSlice | sn-cfg/src/agent/stats.cpp:392-432 | one slice adds exactly its indices, negative ends counted from the back, steps below 1 taken as 1 |
| MetricFilter.MatchIndices | sn-cfg/src/agent/stats.cpp:381-433 | the union of the slices, or singleton matching |
| FilterLaws.SliceForward | sn-cfg/src/agent/stats.cpp:429-431 | both ends inside the array: n is selected if and only if it is the start plus a multiple of the step and not behind the end |
| FilterLaws.EndFromBack | sn-cfg/src/agent/stats.cpp:405-411 | a negative end counts from the back: it selects what that end plus the size selects |
| FilterLaws.StartFromBack | sn-cfg/src/agent/stats.cpp:393-399 | the same for a negative start |
| FilterLaws.EndsBeyond | sn-cfg/src/agent/stats.cpp:396-415 | a start before the array is index 0, an end behind it the last index |
| FilterLaws.EmptySlices | sn-cfg/src/agent/stats.cpp:401-419 | a start behind the array, an end before it, or an end before the start selects nothing |
| FilterLaws.StepZero | sn-cfg/src/agent/stats.cpp:424-427 | a step of 0 is a step of 1 |
| FilterLaws.WholeAndLast | sn-cfg/src/agent/stats.cpp:392-431 | 0 to -1 is every element, -1 to -1 the last one |
| FilterLaws.SlicesUnite | sn-cfg/src/agent/stats.cpp:392-432 | several slices select the union, none selects nothing of an array |
| FilterLaws.Singleton | sn-cfg/src/agent/stats.cpp:385-389 | a metric that is no array is selected by the empty list of slices only |
| MetricFilter.MatchLabel | sn-cfg/src/agent/stats.cpp:436-462 | exactly the elements with a label that satisfies key and value |
| MetricFilter.MatchAttribute | sn-cfg/src/agent/stats.cpp:465-513 | on a cleared array, exactly the elements that have the attribute |
| FilterLaws.ScopeByName | sn-cfg/src/agent/stats.cpp:469-511 | each attribute looks at its own part of the scope; unset attributes and terms accept |
| FilterLaws.SeesOnlyItsPart | sn-cfg/src/agent/stats.cpp:469-511 | metrics that differ in one part of the scope are told apart by no other attribute |
| FilterLaws.LabelByName | sn-cfg/src/agent/stats.cpp:435-461 | a label match finds a label with both parts, a missing part matches any |
| MetricFilter.DenotedNegated | sn-cfg/src/agent/stats.cpp:571-573 | a negated filter denotes the complement |
| MetricFilter.DenotedAny | sn-cfg/src/agent/stats.cpp:525-543 | an any-set denotes the union of its members, everything if it has none |
| MetricFilter.DenotedAll | sn-cfg/src/agent/stats.cpp:545-563 | an all-set denotes the intersection of its members, everything if it has none |
| MetricFilter.UnionSaturates | sn-cfg/src/agent/stats.cpp:537-539 | once all indices are set, the members skipped by the early exit change nothing |
| MetricFilter.IntersectionVanishes | sn-cfg/src/agent/stats.cpp:557-559 | once no index is left, the members skipped by the early exit change nothing |
| MetricFilter.ApplyMetricFilter | sn-cfg/src/agent/stats.cpp:516-574 | started on an all-clear array, every filter tree ends with exactly its denoted index set |
| MetricFilter.ApplyAny | sn-cfg/src/agent/stats.cpp:525-543 | the any loop with one reused scratch array, all-clear at every recursive call, yields the union |
| MetricFilter.ApplyAll | sn-cfg/src/agent/stats.cpp:545-563 | the all loop with one reused scratch array, all-clear at every recursive call, yields the intersection |
| MetricFilter.ApplyFilters | sn-cfg/src/agent/stats.cpp:577-595 | non-zero restriction and metric filter together select exactly the elements that satisfy both |
| MetricFilter.GetMetric | sn-cfg/src/agent/stats.cpp:620-659 | a read reports exactly the selected elements, each once, in index order, with its value |
| FilterLaws.ReportedValues | sn-cfg/src/agent/stats.cpp:577-584 | with the non-zero restriction no 0 is reported and, without a filter, every other value is; without either, everything is |
| StatsStore.Metric.constructor | libopennic/src/stats.c:364-366 | every element starts with value and last reading at init_value |
| StatsStore.Metric.SeenAsItself | sn-cfg/src/agent/stats.cpp:668-711 | filters see a metric under its own domain, zone, block, name, type and labels |
| StatsStore.Metric.Update | libopennic/src/stats.c:574-676 | one pass resets exactly the elements the clear filter selects (never those of a NEVER_CLEAR metric) and gives every other element its ordinary reading, the filter seeing the values from before the pass |
| StatsStore.Metric.ClearWithFilters | sn-cfg/src/agent/stats.cpp:721-756 | a clear with filter F resets exactly what a read with F (non_zero off) at that moment selects, minus NEVER_CLEAR metrics |
| StatsStore.FilterIgnoresValues | sn-cfg/src/agent/stats.cpp:465-513 | no filter looks at stored values |
| StatsStore.SelectionIgnoresValues | sn-cfg/src/agent/stats.cpp:577-595 | so reads at different times select the same elements as the clear |
| CounterRuns.ClearEstablishes | libopennic/src/stats.c:619-633 | a clear establishes the counting invariant from any state |
| CounterRuns.StepKeepsCounts | libopennic/src/stats.c:607-633 | update, clear, enable, disable and hardware events keep it, for clear-on-read and free-running counters of any modulus |
| CounterRuns.RunKeepsCounts | libopennic/src/stats.c:869-892 | over whole runs |
| CounterRuns.AfterReadingCounts | libopennic/src/stats.c:619-633 | after a clear, any events and an update that takes effect: the stored value as a function of the hardware events seen |
| CounterRuns.CountsEveryEvent | libopennic/src/stats.c:869-892 | clear-on-read and free-running 64-bit counters show init_value plus all events between the last clear's and the last update's reading, modulo 2^64, however the zone was switched meanwhile |
| CounterRuns.NarrowCounterExact | libopennic/src/stats.c:622-631 | a narrower free-running counter is right if and only if it wrapped a multiple of 2^64 / modulus times between the two readings |
| CounterRuns.NarrowCounterLosesAWrap | libopennic/src/stats.c:622-631 | counterexample: a 32-bit counter that wraps once shows 0 |
| CounterRuns.StepKeepsSinceStart | libopennic/src/stats.c:607-633 | every event short of an effective clear keeps what a counter shows since its construction |
| CounterRuns.RunSinceStart | libopennic/src/stats.c:607-633 | over every run from the constructed state in which no clear takes effect, NEVER_CLEAR metrics included: a free-running counter shows its last reading, a clear-on-read one shows init_value plus the events read, modulo 2^64 |
| LevelRuns.ShowsLastReading | libopennic/src/stats.c:635-650 | over every run a gauge shows the last value that reached it, a flag whether that was not 0, and either init_value if that was a clear that may reset it |
| LevelRuns.ShowsStart | libopennic/src/stats.c:600-650 | events that do not reach a metric, such as updates of a disabled zone, change nothing of it |
| ZoneStore.FillStep | libopennic/src/stats.c:859-863 | one turn of a filling loop: list k is written behind the lists before it, as far as there is room |
| ZoneStore.FillEnd | libopennic/src/stats.c:859-863 | stopping after the last list or when there is no more room leaves the same buffer |
| ZoneStore.MetricGetValues | libopennic/src/stats.c:396-412 | the first min(n, elements) values in element order, nothing else written |
| ZoneStore.Block.GetValues | libopennic/src/stats.c:537-548 | the first min(n, total) values in metric and element order |
| ZoneStore.Zone.GetValues | libopennic/src/stats.c:855-866 | the first min(n, total) values in block, metric and element order |
| ZoneStore.SpliceIsSlices | libopennic/src/stats.c:855-866 | writing a piece into the buffer leaves what is before and after it |
| ZoneStore.TotalIsLength | libopennic/src/stats.c:220-222 | the counted number of elements of a block is the length of its flattened values |
| ZoneStore.BlocksTotalIsLength | libopennic/src/stats.c:415-422 | the counted number of elements of a zone is the length of its flattened values |
| ZoneStore.Zone.BlockAttach | libopennic/src/stats.c:415-422 | attaching counts every metric into the block and the block into the zone |
| ZoneStore.Zone.BlockDetach | libopennic/src/stats.c:436-456 | detaching undoes it |
| ZoneStore.Zone.AttachBlocks | libopennic/src/stats.c:728-730 | afterwards zone and block counts are the element sums |
| ZoneStore.Zone.DetachBlocks | libopennic/src/stats.c:739-741 | afterwards nothing is counted |
| StatsDomain.ZonesTotalIsLength | libopennic/src/stats.c:732 | zone counts add up to the length of the zones' flattened values |
| StatsDomain.Domain.FindLink | libopennic/src/stats.c:744-748 | the walk along the links ends at the one that holds the given zone, or at the last one |
| StatsDomain.Domain.LinkLast | libopennic/src/stats.c:714-726 | the zone is linked behind all others, the rest of the list unchanged |
| StatsDomain.Domain.Unlink | libopennic/src/stats.c:743-756 | the zone is taken out from wherever it is on the list, the rest unchanged |
| StatsDomain.Domain.Attach | libopennic/src/stats.c:714-734 | the list grows by the zone; domain, zone and block counts stay the element sums |
| StatsDomain.Domain.Detach | libopennic/src/stats.c:737-760 | the list loses the zone; domain, zone and block counts stay the element sums |
| StatsDomain.Domain.Reclaim | libopennic/src/stats.c:737-771 | the zone leaves the list, its blocks are uncounted, its memory is gone; every other zone stays attached |
| StatsDomain.Domain.Put | libopennic/src/stats.c:783-791 | the put that finds 0 detaches and reclaims the zone; any other takes one reference off this zone only |
| StatsDomain.Domain.TakeNext | libopennic/src/stats.c:916-922 | the locked part of a step: the zone after the given one, or the first, gains one reference |
| StatsDomain.Domain.GetNextZone | libopennic/src/stats.c:913-928 | the next zone gains the reference the current one loses; all other counts unchanged |
| StatsDomain.Domain.ReadZones | libopennic/src/stats.c:983-997 | the read loop over the linked zones: each zone's values behind those of the zones before it as far as there is room, every reference given back whether it stops early or not |
| StatsDomain.Domain.CountIsLength | libopennic/src/stats.c:974-981 | the domain's nvalues is the number of values on its zones |
| StatsDomain.Domain.GetValues | libopennic/src/stats.c:983-997 | a flattened read delivers the first min(room, nvalues) values in zone, block, metric and element order, writes nothing else, and leaves every reference count as before |
| TearDown.DealWith | libopennic/src/stats.c:934-937 | what dealing with one more zone of a tear-down does to the list and its counts |
| StatsDomain.Domain.StepDown | libopennic/src/stats.c:934 | a step of the tear-down: a reference on the next zone, and the zone behind reclaimed if its owner has released, else one reference less |
| StatsDomain.Domain.Free | libopennic/src/stats.c:931-945 | tear-down on the linked list: the zones without an owner's reference are reclaimed, each once and in list order; the others stay in order with one reference less |
| ZoneLifetime.InvIsSafe | libopennic/src/stats.c:774-829 | no enabled action dereferences a reclaimed zone |
| ZoneLifetime.StepKeepsInv | libopennic/src/stats.c:774-829 | every atomic action keeps: count = owner reference + walker references, every referenced zone is on the list, nothing reclaimed |
| ZoneLifetime.RunKeepsInv | libopennic/src/stats.c:913-945 | the same over every interleaving of owners and walkers |
| ZoneLifetime.ZonesSurviveEveryRun | libopennic/src/stats.c:783-791 | no zone is reclaimed while the domain lives, and once all walkers are idle (after full or early-exit walks) each count is its owner's reference again |
| ZoneWalks.WalksSeeEveryZone | libopennic/src/stats.c:913-928 | in every run: a walker has come by the zones at the front of the list, each once and in order, and a walk told there is no next zone has come by the whole list |
| ZoneLifetime.NextTurn | libopennic/src/stats.c:934-937 | a turn of the tear-down loop touches only live zones and drops exactly one reference of the zone stepped off |
| ZoneLifetime.DomainFree | libopennic/src/stats.c:931-945 | tear-down reclaims exactly the zones whose owner has released, each once and in list order, and touches only live zones |
| ZoneLifetime.SameTearDown | libopennic/src/stats.c:931-945 | the tear-down of the linked list and the one of the reference-count protocol end alike: same list, same counts along it, same zones reclaimed in the same order |
| ZoneLifetime.GetNextZone | libopennic/src/stats.c:913-928 | the step of a walk: for a caller that holds a reference, the next zone gains the reference the current one loses and no other count changes |
| ZoneLifetime.TearDownReclaimsAll | libopennic/src/stats.c:931-945 | after any run that ends with all owners released and all walkers idle, tear-down reclaims the whole list |
| Mailbox.StepKeepsInv | libopennic/src/cms.c:385-455 | every access of a client and every move of the device keeps the handshake invariant |
| Mailbox.RunKeepsInv | libopennic/src/cms.c:385-455 | over every interleaving |
| Mailbox.RequestsOnlyWhileIdle | libopennic/src/cms.c:403-413 | request words are written and the doorbell rung only by the holder of the lock and only while the device is idle; at most five attempts |
| Mailbox.SuccessIsOwnAnswer | libopennic/src/cms.c:633-650 | a client that returns success copied the words of the answer to its own, last and completely written request, which ended without an error flag |
| Mailbox.EveryExchangeIsOneRequest | libopennic/src/cms.c:403-413 | the device's exchanges are the doorbells one for one and in order, each on the complete request |
| Mailbox.EveryAccessCounts | libopennic/src/cms.c:391-450 | every access of a post lowers a bound on those still to come, whatever the device does |
| Mailbox.SpendsAccesses | libopennic/src/cms.c:391-450 | while a client holds the lock, its accesses so far and those it can still make never exceed the bound, over every interleaving |
| Mailbox.PostIsBounded | libopennic/src/cms.c:391-450 | in every run, a post of r request words that copies w response words makes fewer than 5 * (r + 67) + w + 2 accesses |
| MailboxPosts.PostOutcome | libopennic/src/cms.c:391-452 | a post fails if and only if it ran out of polls waiting for the mailbox or for the errors to clear, or made five attempts that each timed out or saw an error flag; it rings once per failed attempt and once for the answer |
| MailboxPosts.GoodPostSucceeds | libopennic/src/cms.c:391-452 | on a device that answers in time and without error flags a post returns success on its first doorbell, with the words of the answer to its request |
| MailboxPosts.GoodPostEnds | libopennic/src/cms.c:391-452 | and does so within r + w + 67 accesses for r request and w response words |
| CardInfo.ParseField | libopennic/src/cms.c:500-596 | one field: the information updated as its key and length say, and the bytes it takes up |
| CardInfo.FieldAt | libopennic/src/cms.c:599-622 | field k sits right behind the encoding of the fields before it |
| CardInfo.Parse | libopennic/src/cms.c:599-622 | on the encoding of any list of well-formed fields the loop visits exactly those fields, ends exactly at the payload length and yields their fold |
| CardInfo.ValidIffPresent | libopennic/src/cms.c:548-589 | a MAC or cage is marked valid iff a field with that key and the required length is present |
| CardInfo.LastCageWins | libopennic/src/cms.c:575-589 | the last field for a cage decides its type |
| CardInfo.LastNameWins | libopennic/src/cms.c:511-513 | the last name field decides the name |
| CardFields.Texts | libopennic/src/cms.c:504-518 | serial number, revision, name and controller version are the positions of the last fields with keys 0x21, 0x26, 0x27, 0x28, or none |
| CardFields.Settings | libopennic/src/cms.c:520-546 | fan presence and configuration mode are the last one-byte fields 0x2a and 0x2b; the power is that of the last field 0x29 with a known code |
| CardFields.AddressBlock | libopennic/src/cms.c:563-571 | number of addresses and base address come from the last 8-byte field 0x4b |
| CardFields.Numbered | libopennic/src/cms.c:548-589 | each legacy address and each cage type comes from the last field with its key and length, and exactly those present are valid |
| CardInfo.NameText | libopennic/src/cms.c:511-513 | the text at the stored position is the zero-terminated text of the last name field |
| ModuleMem.Module.PageRead | libopennic/src/cms.c:746-798 | one page-sized read delivers the lower half or the selected upper half, or fails |
| ModuleMem.Module.ByteRead | libopennic/src/cms.c:835-873 | one byte of the 256 visible ones, or fails |
| ModuleMem.Module.ByteWrite | libopennic/src/cms.c:903-940 | changes one visible byte of the page, no byte of another upper page, or fails |
| ModuleMem.CountersStep | sn-cfg/src/agent/module.cpp:856-860 | the three 8-bit counters advance as intended, also where they wrap at 256 |
| ModuleMem.ReadPages | sn-cfg/src/agent/module.cpp:841-861 | the loop ends after one or two page reads with exactly the requested bytes, or fails iff one of those reads fails |
| ModuleMem.GetMem | sn-cfg/src/agent/module.cpp:787-881 | all request errors; otherwise the bytes requested, with the number of accesses, or failure iff an access fails |
| ModuleMem.RangeExact | sn-cfg/src/agent/module.cpp:803-811 | the bytes delivered are those at offset, offset + 1, ... if and only if a count was given or the offset is at most 128 |
| ModuleMem.DefaultCountWraps | sn-cfg/src/agent/module.cpp:803-805 | counterexample: the default count at offset 200 ends with the byte at 199 |
| ModuleMem.SetMem | sn-cfg/src/agent/module.cpp:960-1011 | all request errors; otherwise exactly the range of the page is overwritten, or failure iff a write fails |
| ModuleMem.SetThenGet | sn-cfg/src/agent/module.cpp:1005-1011 | setting then getting a non-empty range succeeds exactly when the range is valid and none of the accesses fails; it returns the data, every other byte of this and every other upper page unchanged |
| QueueSpread.SetQueues | libopennic/src/qdma.c:87-142 | entry q names queue q mod k; a request for more queues than entries fails after overwriting the table base queue only |
| QueueSpread.SpreadIsEven | sn-stack/README.STACK.INSTALL.md:445 | the table for n queues: every entry is below n, queues come in turn from 0, and each occurs the floor or ceiling of entries per queue; none asked for leaves every entry at 0 |
| QueueSpread.CountOfSpread | libopennic/src/qdma.c:102-105 | a queue below k has floor(N/k) entries, plus one if the last round reaches it |
| QueueSpread.Balanced | sn-stack/README.STACK.INSTALL.md:445 | equal weights for every table size: all entries below k, any two queues differ by at most one entry, and no queue is left out when k <= N |

## Left out

- MatchPack.PackMatches: allocation failure is not modelled; frees are counted, what a second free does is not.
- RulePack.Pack: requires that a rule that compiles does not write its parameters beyond the vector allocated for them. RulePack.OutsideExact says which descriptions ensure it; what memory holds after such a write is not modelled.
- RulePack.PackFound: the same for a table and action already found.
- ParamPack.PackParams: the same for one parameter list.
- FormatString.GetMatches: memory for the duplicated string is taken as available; the numeric conversion is that of the C library's `sscanf` in the C locale.
- BitArrays.BitArray.constructor: requires at least one bit, which metric allocation guarantees; the inline single word is a one-element array.
- MetricFilter.SetSlice: slice arithmetic is unbounded; overflow of the source's integer types is not modelled.
- MetricFilter.GetMetric: labels, names and timestamps of the response are not modelled, and an unknown metric type is not representable.
- StatsStore.Metric.Update: floating-point values, Prometheus gauges, latch, read, release and conversion hooks are not modelled; readings are parameters, so reading torn two-register counters is outside.
- ZoneLifetime.StepKeepsInv: assumes fewer than 2^31 - 1 walkers at a time, so that the 32-bit count does not wrap.
- StatsDomain.Domain.Attach: value and reference counts are naturals; the link from a zone to its domain, the two separate critical sections of attach, and updates in between are not modelled here, the interleavings of references are in ZoneLifetime.
- StatsDomain.Domain.Free: stopping the update thread before it is taken as done.
- StatsDomain.Domain.GetValues: single-threaded; other walkers and updates of elements during the read are not captured here.
- Mailbox.StepKeepsInv: poll timeouts are bounded numbers of observations; the delay after a QSFP failure, log output and the reset functions, which precede all clients, are not modelled.
- Mailbox.SuccessIsOwnAnswer: covers clients that copy the first words of the mailbox; unpacking the copied words into structures is not modelled.
- CardInfo.Parse: payloads that are not the encoding of well-formed fields are not modelled; the legacy MAC text is kept as its position, its conversion by `ether_aton_r` is not modelled.
- ModuleMem.GetMem: one present module; device and module ranges, presence checks and message building are not modelled. Page size mismatch and allocation failure of a page read count as its failure.
- QueueSpread.SetQueues: the bit widths of the register fields and the memory barriers are not modelled.
- The gRPC services, batch dispatch, configuration files, command-line parsing and Python clients are input, output and plumbing.
- The closed table driver behind `libsnp4/src/snp4_api.c` and its lookup are not part of this model.
- Sensor scaling, module header layouts, switch, flow-control and port registers would only add easy members.
