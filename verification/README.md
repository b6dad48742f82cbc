# Verified model of gorm's query builder, batch writer and DM driver

This project models the hard core of two code bases that live in one repository: the
GORM query builder and batch writer, and the native DM database driver under `dm/`.
Each module is one component; `dafny verify dfyconfig.toml` checks all of them.

| component | modules | main results |
|---|---|---|
| Decimal numbers | `DecimalNumber`, `DecimalCodec`, `DecimalOrder` | exact values, exact and bounded round trips, byte order is number order, and never reversed by cut digits |
| WHERE builder and bind values | `SqlReading`, `BindVars`, `QuestionMarks`, `BindingLinks`, `WhereClause`, `WhereMeaning`, `ClauseBinding`, `QuerySql`, `QueryBinding`, `GormScope`, `ScanPlan` | the text means the conditions; in every dialect, exactly when each placeholder meets its own value |
| Cancellation watcher | `Watcher` | one inductive invariant over all interleavings; a cancelled call closes the connection, a finished one cannot; `finish` always returns |
| Read/write load balancer | `RwCounter`, `RwShare` | share bound and every host's own account over every run |
| Dates and times | `Calendar`, `DateTimeCodec`, `Zones`, `DateTimeText` | exact drift of the carry chain, zone changes that keep the instant, pack/unpack and print/parse round trips |
| Intervals | `IntervalYM`, `IntervalDT` | print/parse, conversions with rounding and carries, wire round trips |
| Byte queue and large objects | `ByteQueue`, `OffRowUpload`, `RowBatches` | a FIFO of bytes; an object is sent exactly; every row runs once |
| Result-set cursor | `Cursor` | rows once each in order, then end-of-file for ever |
| Batch insert | `BatchCreate`, `BatchInsert` | exactly-once, limits, all-or-nothing |
| Endpoint failover | `Endpoints` | only acceptable connections, preference order, even starts |

`Options`, `Sequences`, `Division`, `Bits`, `Bytes`, `Text`, `Scale`, `LittleEndian` and
`IntervalScale` hold what several components share: optional values, Go's division and bit
operations, bytes, `strconv` and `strings`, powers of ten over the reals, integers in byte
order, and the scale word of intervals.

Code that changes state is modelled by classes, arrays and loops, and proved against
functions on values; the theorems are about those functions. Server replies,
random start positions, contexts, the order in which Go visits a map and the interleaving
of goroutines are inputs. Text that
is SQL is modelled as tokens, so that precedence and parentheses have a meaning; text
that is printed and parsed is modelled character by character.

Where the code does not do what it is plainly meant to do, the model follows the code.
The property is then stated with the exact condition under which it holds, next to an
input that violates it:

- positional placeholders when or and not conditions both carry values
  (`WhereMeaning.PlaceholderOrder`, `QueryBinding.PreparedRenumbered`);
- a nested expression after a value, in dialects whose placeholder is `?`
  (`QuestionMarks.QuestionExactly`, `ClauseBinding.WhereExactly`,
  `QueryBinding.PreparedExactly`, `ClauseBinding.NestedConditionMisplaced`), and inside a
  sub-query (`QuestionMarks.SkippedExactly`);
- minute arithmetic that steps back into a month of another length
  (`Calendar.BackwardExactIff`, `Calendar.BackwardInvalid`), and so zone changes on the way
  to a column and back (`Zones.ShiftedInstant`, `Zones.ShiftedWrong`,
  `Zones.LocalRoundTrip`); and February after adding months (`Calendar.AddMonthValid`);
- the zone of DATETIME2_TZ, written at byte 8 and read at byte 9
  (`DateTimeCodec.OverlapRoundTrip`);
- the fraction of a day-time interval whose second scale is reduced
  (`IntervalDT.ReducedSeconds`, `IntervalDT.LostFraction`), and the field check of SECOND
  intervals (`IntervalDT.CheckScaleMeans`);
- year-month intervals with fields of both signs (`IntervalYM.PrintParse`) and unknown
  target kinds (`IntervalYM.UnknownKindLosesLength`);
- a cursor whose fetch fails (`Cursor.RunDelivers`, `Cursor.FailedFetchSkips`).

## Model

| member | source | states |
|---|---|---|
| `DecimalNumber.NewDecimalInt` | dm/o.go:228-263 | an integer is accepted exactly when it is zero or its digits fit the precision and the 40-digit limit; the result is the specified decimal |
| `DecimalNumber.FromIntDenotes` | dm/o.go:228-263 | that decimal is canonical (even digit count, even weight, non-zero first and last pair), denotes exactly the integer, and stays within 40 digits if the integer does |
| `DecimalNumber.KeptPrecision` | dm/o.go:217-227 | the column's precision and scale are kept; scale 0x81 stands for the nearest number of decimal digits and one more |
| `DecimalNumber.NewDecimalFromBigInt` | dm/o.go:57-59 | a big integer becomes a canonical decimal denoting it, or the too-long error exactly beyond 40 digits |
| `DecimalNumber.RemovePoint` | dm/o.go:276-294 | taking the point and leading zeros out of decimal text keeps its value |
| `DecimalNumber.NewDecimalText` | dm/o.go:265-316 | plain decimal text of either sign becomes a canonical decimal denoting exactly its value |
| `DecimalNumber.StripTrailingZeros` | dm/o.go:242-251 | the loop drops exactly the trailing zeros, all but one digit at most |
| `DecimalNumber.NormalisedDenotes` | dm/o.go:242-262 | stripping and padding to an even digit count and even weight keeps the value |
| `DecimalNumber.NormalisedCanonical` | dm/o.go:242-262 | the first and the last digit pair of the result are not zero |
| `DecimalNumber.ToStringDenotes` | dm/o.go:129-158 | the printed text, with its point and sign, denotes the same number |
| `DecimalNumber.ToBigIntTruncates` | dm/o.go:61-87 | conversion to an integer truncates the value toward zero, for every well-formed decimal |
| `DecimalNumber.IntRoundTrip` | dm/o.go:61-87 | an integer made into a decimal and converted back is the same integer |
| `DecimalCodec.EncodeDecimal` | dm/o.go:318-381 | the byte buffer built by the loop is exactly the encoding: biased exponent, complemented negative pairs, terminator, at most 21 bytes, or the too-long error |
| `DecimalCodec.PositiveBytes` | dm/o.go:318-381 | byte by byte for a positive number: 0xC1 plus the exponent, then at most 20 digit pairs plus one each; it encodes exactly for exponents -64 to 62 |
| `DecimalCodec.NegativeBytes` | dm/o.go:318-381 | for a negative one: 0x3E minus the exponent, then at most 19 pairs each taken from 101, and 0x66; it encodes exactly for exponents -64 to 61 |
| `DecimalCodec.NegationBytes` | dm/o.go:350-372 | a number and its negation: first bytes add to 0xFF, digit bytes to 0x66, and the negative ends in 0x66; zero is 0x80 |
| `DecimalCodec.DecodeDigits` | dm/o.go:409-425 | the decoding loop stops at the first byte that is no digit pair and returns the digits before it |
| `DecimalCodec.DecodeDecimal` | dm/o.go:383-430 | the decoder returns sign, weight and digits of the bytes, and an error for empty or over-long input |
| `DecimalCodec.DecodeRefuses` | dm/o.go:383-398 | only empty input and more than 21 bytes are refused; one byte alone, or a first byte 0x80, is zero |
| `DecimalCodec.DecodeEncode` | dm/o.go:318-430 | encoding succeeds exactly when the exponent fits, never exceeds 21 bytes, and decoding gives the decimal with its kept leading pairs |
| `DecimalCodec.ExactRoundTrip` | dm/o.go:318-430 | up to 40 digits (38 if negative) a canonical decimal in range is recovered exactly |
| `DecimalCodec.TruncationError` | dm/o.go:340-346 | beyond that, the decoded value is truncated toward zero by less than one unit of the last kept digit pair |
| `DecimalCodec.EncodeDecode` | dm/o.go:318-430 | every string of bytes of the wire's form (0x80; or above it pairs 1 to 100; or 0x01 to 0x7E, pairs 2 to 101 and 0x66) decodes to a decimal whose encoding is that string |
| `DecimalOrder.EncodingOrder` | dm/o.go:318-381 | for all canonical decimals that fit, comparing the bytes lexicographically is comparing the numbers |
| `DecimalOrder.EncodingMonotone` | dm/o.go:318-381 | with any number of digits the encoding never reverses two numbers: smaller bytes mean a smaller number, and a number that is no greater has bytes that are no greater |
| `DecimalOrder.SameSignOrder` | dm/o.go:350-372 | with one sign the bytes follow the magnitude, reversed by complement and terminator for negatives, prefixes included |
| `DecimalOrder.MagnitudeOrder` | dm/o.go:322-339 | magnitudes of canonical decimals compare by exponent, then by digit pairs |
| `DecimalOrder.FractionOrder` | dm/o.go:356-370 | lists of digit pairs without trailing zeros compare lexicographically as the fractions they spell |
| `DecimalOrder.CanonicalUnique` | dm/o.go:217-316 | equal value means equal sign, weight and digits: the canonical form is unique |
| `DecimalOrder.EncodingDomain` | dm/o.go:322-334 | encoding fails exactly outside the range of magnitudes the exponent byte can hold |
| `DecimalOrder.ReadBack` | dm/o.go:217-316 | reading any plain text that denotes a canonical decimal gives back that very decimal |
| `DecimalOrder.PrintedPlain` | dm/o.go:129-158 | the printed text is the plain text of a number if and only if it does not begin with the point, and else a zero in front makes it so without changing its value |
| `DecimalOrder.ReadPrinted` | dm/o.go:129-316 | every canonical decimal printed, and its text read as big.Float would write it exactly, is the same decimal |
| `SqlReading.ReadOrJoin` | scope.go:788-796 | texts joined by OR, read with SQL precedence, mean the disjunction |
| `SqlReading.ReadAndJoin` | scope.go:788-803 | texts joined by AND, each without a top-level OR, mean the conjunction |
| `SqlReading.ReadGroup` | scope.go:798-806 | a parenthesised text means what it means on its own |
| `SqlReading.ReadNotGroup` | scope.go:598-602 | NOT before parentheses negates the text in three-valued logic |
| `BindVars.AddedFaithful` | scope.go:267-293 | for any tree of nested expressions whose counts match, the text has one placeholder per collected value, in order, and with the values in place it is the tree written out |
| `BindVars.SplicedIsFill` | scope.go:269-284 | replacing the first mark again and again is filling all marks at once, when no replacement contains a mark |
| `BindVars.FillFaithful` | scope.go:692-703 | filling the marks of a condition with faithful texts is faithful |
| `BindVars.AddedCount` | scope.go:267-293 | exactly one value is collected for every value in the tree |
| `BindVars.CountsMatchExactly` | scope.go:267-293 | over arguments that are well matched themselves, placeholders and values agree in number with no mark left if and only if every mark has an argument and the arguments left over carry no values |
| `QuestionMarks.TemplateExactly` | scope.go:267-293 | with '?' as the placeholder and expression arguments that begin with a word, the text is the template filled with its arguments' texts if and only if no expression follows an argument that holds a '?' |
| `QuestionMarks.PlainLast` | scope.go:267-293 | over plain values and expressions whose text holds no mark, if and only if no expression follows a plain value |
| `QuestionMarks.AskedAlike` | scope.go:267-293 | in any well-matched tree the text has as many '?' as values, wherever they stand |
| `QuestionMarks.CollectsInOrder` | scope.go:267-293 | in every dialect and mode the values are collected from left to right |
| `QuestionMarks.QuestionOrdered` | scope.go:267-293 | a tree in which no expression follows an argument with values says, with the values put in the places of the '?' in order, exactly what it says written out |
| `QuestionMarks.QuestionExactly` | scope.go:267-293 | where expression arguments begin with a word, only those trees do |
| `QuestionMarks.NestedExpressionMisplaced` | scope.go:267-293 | a concrete tree that comes out wrong |
| `QuestionMarks.SkippedExactly` | main.go:217-235 | text collected with bind variables skipped, as a sub-query is, keeps its template and says what it should if and only if no argument is itself an expression |
| `WhereClause.ConditionFaithful` | scope.go:568-706 | with numbered placeholders, every matched condition, in positive or negative form, is faithful to what it says |
| `WhereClause.ConditionsFaithful` | scope.go:770-786 | so is every list of conditions, with empty texts skipped |
| `WhereClause.PrimaryFaithful` | scope.go:758-768 | the soft-delete and primary-key filters are faithful and their values come first |
| `WhereMeaning.WhereDenotes` | scope.go:751-807 | with numbered placeholders and the values in place, the WHERE text is the filters, wheres, nots and ors written out |
| `WhereMeaning.PlaceholderOrder` | scope.go:751-807 | the clause numbers each value once; printed and collected order of the numbers agree if and only if the or or the not conditions carry no values |
| `WhereMeaning.ConditionMeaning` | scope.go:568-706 | a condition read as SQL is a conjunct whose truth is that of the comparisons it stands for, spelled out with their operators and negated as the source negates them |
| `WhereMeaning.StructTruth` | scope.go:623-637 | a struct condition is true when every field that is neither ignored, blank nor a relation equals its value |
| `WhereMeaning.AddsText` | scope.go:568-607 | a condition adds nothing to the clause exactly if it is an empty text, map or struct, or the exclusion of an empty key list |
| `WhereMeaning.ArgumentSpelled` | scope.go:643-690 | how a slice and a slice of slices are written, and that one without any value takes no part in filling the marks |
| `WhereMeaning.SaysSelects` | scope.go:751-807 | the clause with its values, read as SQL, selects a row if and only if, in a scoped search of a model with a deletion column, that column IS NULL holds, and the keys match, and all wheres and negated nots or some or are true |
| `BindingLinks.TreeLinked` | scope.go:267-293 | in every dialect a tree collects the same values; with '?' its text has the shape of the numbered one, is that text without its numbers if the tree fits the dialect, and, where expressions begin with a word, only then |
| `BindingLinks.RightIsErased` | scope.go:267-293 | a tree with every argument at its own '?' is the numbered text without its numbers |
| `ClauseBinding.ConditionReads` | scope.go:568-706 | a condition of any kind says what it should in every dialect its trees fit, with one '?' for each value |
| `ClauseBinding.WhereMarks` | scope.go:751-807 | with '?' as the placeholder every clause has exactly one for each value it collects |
| `ClauseBinding.WhereShown` | scope.go:751-807 | for trees that fit the dialect, the clause is the numbered one as the dialect shows it, with the same values |
| `ClauseBinding.WhereReads` | scope.go:751-807 | then the clause with its values is the filters, wheres, nots and ors written out: always with numbers, with '?' and with bind variables skipped if the or or the not conditions carry no values |
| `ClauseBinding.WhereExactly` | scope.go:751-807 | with '?', expressions that begin with a word and distinct values, that holds if and only if no expression follows a value in an argument list and the or or the not conditions carry no values |
| `ClauseBinding.FillErased` | scope.go:751-807 | the i-th '?' given the i-th value says what the numbers say if and only if each number stands for the value at its place |
| `ClauseBinding.NestedConditionMisplaced` | scope.go:568-706 | a condition without or and not that comes out wrong with '?': a concrete input |
| `ClauseBinding.WhereSelects` | scope.go:751-807 | in every dialect, under those conditions, the clause selects exactly the rows that are not soft-deleted unless the search is unscoped, match the keys, and satisfy all wheres and negated nots or some or |
| `ClauseBinding.OrCannotEscape` | scope.go:790-806 | no or condition can select a row whose deletion column is not NULL in a scoped search, or one that fails a key |
| `ClauseBinding.UnscopedFinds` | scope.go:755-761 | an unscoped search has the clause and values of one without a deletion column |
| `QuerySql.PreparedDenotes` | scope.go:883-894 | with numbered placeholders, the whole SELECT statement or raw query with its values in place is the query written out |
| `QuerySql.PreparedPlaceholders` | scope.go:883-894 | the statement has exactly as many numbers as values, one for each; they are printed in order iff ors or nots carry no values |
| `QuerySql.StatementSpelled` | scope.go:358-372 | SELECT, FROM, joins, WHERE, GROUP BY, HAVING and ORDER BY in that order, each keyword only with something behind it |
| `QuerySql.HavingSelects` | scope.go:852-869 | HAVING keeps a group if and only if every having condition that adds something is true |
| `QuerySql.JoinsSpelled` | scope.go:872-881 | a join's text stands as it was given, with its arguments and without the parentheses of a condition |
| `QuerySql.SelectElement` | scope.go:717-733 | an element of the select list is its value, or a slice's values with commas |
| `QuerySql.OrderElement` | scope.go:824-836 | an order is its column, or its expression with the arguments in it |
| `QueryBinding.PreparedMarks` | scope.go:883-894 | with '?' the statement has exactly one for each value it collects |
| `QueryBinding.PreparedShown` | scope.go:883-894 | for trees that fit the dialect, the statement is the numbered one as the dialect shows it, with the same values |
| `QueryBinding.PreparedReads` | scope.go:883-894 | then the statement with its values is the query written out, in every dialect |
| `QueryBinding.PreparedExactly` | scope.go:883-894 | with '?', expressions that begin with a word and distinct values, that holds if and only if no expression follows a value in an argument list and ors or nots carry no values |
| `QueryBinding.PreparedRenumbered` | scope.go:369-372 | where every number is replaced by '?' in the end, the values meet their places if ors or nots carry none, and distinct values only then |
| `QueryBinding.RawStatement` | scope.go:358-366 | a raw query is its own text with its arguments in place, the parentheses put around it taken off again |
| `QueryBinding.SubQuerySays` | main.go:217-235 | a sub-query built from plain values with placeholders in order is a well-matched expression that says what its query says and fits every dialect |
| `QuerySql.WhereDenotesLater` | scope.go:358-372 | values collected after the clause do not change what it says |
| `GormScope.Scope.AddToVars` | scope.go:267-293 | appends the values to SQLVars and returns the text of the specification, for numbered placeholders, for '?' and with bind variables skipped |
| `GormScope.Scope.AddEach` | scope.go:670-675 | the elements of a list argument are added one by one |
| `GormScope.Scope.Replacements` | scope.go:643-690 | one replacement per condition argument; an empty list becomes NULL, a slice of slices its tuples, and one without any value no replacement |
| `GormScope.Scope.AddRows` | scope.go:654-669 | the tuples of a slice of slices, empty ones left out |
| `GormScope.Scope.StructCondition` | scope.go:623-637 | a struct condition becomes one test for every field that is not ignored, blank or a relation |
| `GormScope.Scope.Substitute` | scope.go:692-703 | the buffer loop fills marks from left to right |
| `GormScope.Scope.FillCondition` | scope.go:643-703 | a condition's text with its arguments' texts in it |
| `GormScope.Scope.MapCondition` | scope.go:609-622 | a map condition becomes one test per entry, with NULL tests for nil |
| `GormScope.Scope.BuildCondition` | scope.go:568-706 | one condition of any kind, positive or negated |
| `GormScope.Scope.BuildConditions` | scope.go:770-786 | the loops over wheres, ors and nots, skipping empty texts |
| `GormScope.Scope.PrimaryConditions` | scope.go:758-768 | soft-delete and primary-key filters |
| `GormScope.Scope.WhereSQL` | scope.go:751-807 | the clause and the collected values are those of the specification |
| `GormScope.Scope.OrderSQL` | scope.go:819-837 | order texts and their values |
| `GormScope.Scope.SpliceOrder` | scope.go:826-833 | an order expression is spliced even when bind variables are skipped |
| `GormScope.Scope.PrepareQuerySQL` | scope.go:883-894 | the SELECT statement or raw query and all its values, in every dialect |
| `GormScope.Scope.SelectReplacements` | scope.go:708-733 | one replacement per argument of the select list, slices listed |
| `ScanPlan.SelectField` | scope.go:508-518 | the field a column maps to: the first normal match from an offset, else the last match |
| `ScanPlan.PickMeaning` | scope.go:508-518 | that choice described by what matches and what does not |
| `ScanPlan.BuildScanPlan` | scope.go:495-521 | the plan array follows the choice, each repeated column starting behind its previous field |
| `ScanPlan.PlanIsInjective` | scope.go:495-521 | planned fields carry their column's name and no field is planned twice |
| `ScanPlan.NothingSkipped` | scope.go:495-521 | each column gets the first normal field of its name that no earlier column of that name was given or passed, failing that the last such field, and none exactly when there is none |
| `Watcher.InvStep` | dm/m.go:765-829 | every enabled step of caller, watcher or anyone else keeps the invariant |
| `Watcher.InvRuns` | dm/m.go:765-829 | so does every interleaving of any length |
| `Watcher.Safety` | dm/m.go:498-511 | in every reachable state at most one context is outstanding, the send never blocks, and the close channel is closed at most once, exactly when the connection is marked closed |
| `Watcher.OnlyLiveWatchCloses` | dm/m.go:765-805 | the watcher only closes for a watch that is not finished and whose context is cancelled |
| `Watcher.LateCancelIsHarmless` | dm/m.go:771-829 | once finish has handed over and nothing new is watched, no later cancellation closes the connection |
| `Watcher.LiveContextIsWatched` | dm/m.go:807-829 | announcing a live context while nothing is watched sets watching and puts exactly that context on the way to the watcher |
| `Watcher.CancelCloses` | dm/m.go:782-829 | cancelling it during the call can always lead to the close, which is put down to that watch |
| `Watcher.CancelDuringCall` | dm/m.go:782-829 | so can the run in which the context is sent, cancelled, taken and acted on, step by step |
| `Watcher.CancelledWatchCloses` | dm/m.go:765-805 | from every state with a cancelled watch outstanding the watcher's own steps close the connection |
| `Watcher.LiveCallLeavesNothing` | dm/m.go:771-829 | a call whose context stays live ends as it began, but for one more finished watch |
| `Watcher.NothingToWatch` | dm/m.go:814-825 | a context that is already cancelled, or cannot be, changes nothing |
| `Watcher.SecondWatchCloses` | dm/m.go:808-812 | announcing during a watch closes the connection instead and watches nothing new |
| `Watcher.CloseReachesAll` | dm/m.go:498-511 | an open connection can be closed by the caller and by anyone else, and the channel with it |
| `Watcher.ClosedLetsGo` | dm/m.go:776-805 | once the channel is closed the watcher can leave and finish can return |
| `Watcher.FinishProgress` | dm/m.go:771-780 | finish is never stuck: it can hand over, see the close, or some other step brings it nearer |
| `Watcher.FinishNotStarved` | dm/m.go:771-805 | no step of another goroutine takes finish further away |
| `Watcher.FinishReturns` | dm/m.go:771-780 | from every reachable wait in finish there is a run to its return without the caller's help |
| `RwCounter.RWCounter.constructor` | dm/zw.go:46-52 | a new counter has the increments of its percentage and standby count |
| `RwCounter.RWCounter.ResetCounter` | dm/zw.go:54-74 | increments reduced by their common divisor, full credit, zero totals |
| `RwCounter.RWCounter.AdjustNtrx` | dm/zw.go:135-165 | credits are refilled exactly when none is left |
| `RwCounter.RWCounter.IncreasePrimaryNtrx` | dm/zw.go:167-173 | one transaction on the primary takes one of its credits |
| `RwCounter.RWCounter.GetStandbyId` | dm/zw.go:183-197 | hosts get places in order of appearance, while places remain |
| `RwCounter.RWCounter.GetStandbyFlag` | dm/zw.go:199-206 | the credit of a host's place |
| `RwCounter.RWCounter.IncreaseStandbyNtrx` | dm/zw.go:208-232 | one transaction on a standby takes one credit of its place |
| `RwCounter.RWCounter.CountPrimary` | dm/zw.go:97-105 | a primary request is refilled and counted |
| `RwCounter.RWCounter.Count` | dm/zw.go:107-133 | one request is sent and counted as the value specification says, for each destination |
| `RwCounter.GcdDivides` | dm/zw.go:60-64 | the divisor divides both shares |
| `RwCounter.GcdGreatest` | dm/util/zzs.go:36-48 | and every common divisor of both divides it |
| `RwCounter.ResetConsistent` | dm/zw.go:54-74 | a reset keeps the counter consistent exactly when the known hosts fit the new standby count |
| `RwShare.RunAccounted` | dm/zw.go:107-232 | in every run of requests, credit left plus transactions served equals increment times refills, for primary and standbys |
| `RwShare.RunHosts` | dm/zw.go:107-232 | every run keeps each host's own account: what is left at its place and what it served make up what was handed out there |
| `RwShare.FreshRunHosts` | dm/zw.go:46-232 | from a new counter: hosts have different places, credit left plus transactions served is one share per refill for the primary and for every host, and a place without a host holds all of it |
| `RwShare.SiteChosen` | dm/zw.go:107-133 | any site means the primary exactly when there is no standby share, or its credit after a due refill exceeds the host's and the standbys' together |
| `RwShare.RangeRun` | dm/zw.go:107-133 | in every ANYSITE run the primary credit stays between 0 and its increment |
| `RwShare.ShareBound` | dm/zw.go:54-133 | with standbys, primaryServed*(p+s) <= p*(total+s) after every run, hence at most the configured percentage of total plus one refill |
| `RwShare.Shares` | dm/zw.go:54-74 | the increments stand in exactly the configured ratio |
| `RwShare.LowestTerms` | dm/zw.go:54-74 | and are in lowest terms |
| `RwShare.ExactCycles` | dm/zw.go:107-133 | with one standby every full cycle of p+s requests sends exactly p to the primary |
| `IntervalYM.ToString` | dm/r.go:83-152 | the text built by the padding loops |
| `IntervalYM.PrintedSpelled` | dm/r.go:83-152 | the text of each kind: sign, quoted fields padded to the lead scale and to two months, unit and lead scale |
| `IntervalYM.ScaleFitsMeans` | dm/r.go:297-318 | the field check: the leading field below ten to the lead scale, and at most eleven months behind years |
| `IntervalYM.ParsedPrinted` | dm/r.go:83-415 | parsing the printed text of any well-formed interval gives kind, scales and both fields with the printed sign |
| `IntervalYM.PrintParse` | dm/r.go:83-415 | printing and parsing is the identity if and only if the fields agree in sign |
| `IntervalYM.ConvertKeepsLength` | dm/r.go:445-475 | conversion to YEAR TO MONTH or MONTH keeps total months exactly and normalises carries; to YEAR it is off by at most six months |
| `IntervalYM.TargetFields` | dm/r.go:445-452 | the target's kind and lead scale are the second byte and the high half of the first byte of its scale word |
| `IntervalYM.RoundingIsSymmetric` | dm/r.go:453-460 | half a year rounds away from zero, in both directions |
| `IntervalYM.ConvertFails` | dm/r.go:461-475 | the error is returned exactly when the leading field has more digits than the target's lead scale |
| `IntervalYM.UnknownKindLosesLength` | dm/r.go:451-483 | an unknown target kind is not refused: it yields an empty interval |
| `IntervalYM.SameLengthConverts` | dm/r.go:445-475 | an interval of equal length converts to a YEAR TO MONTH one if and only if that one is carried; so to MONTH and back is the identity on carried intervals |
| `IntervalYM.EncodeDecode` | dm/r.go:52-69 | decoding the encoded interval, converted or not, gives it back if and only if its fields fit 32 bits |
| `IntervalYM.WireBytes` | dm/r.go:417-443 | the 12 bytes: years, months, then the scale word with lead scale and kind |
| `IntervalDT.IncrementHour` | dm/q.go:1419-1426 | one hour longer, carried into the days if the kind has them |
| `IntervalDT.IncrementMinute` | dm/q.go:1428-1435 | one minute longer, all carries made |
| `IntervalDT.IncrementSecond` | dm/q.go:1437-1444 | one second longer, all carries made |
| `IntervalDT.ConvertMSecond` | dm/q.go:1394-1412 | the fraction cut to the target scale: rounded, except that the branch that does not round up leaves the kept digits unscaled |
| `IntervalDT.Origin` | dm/q.go:1240-1288 | every kind is spread over days, hours, minutes, seconds without changing its length |
| `IntervalDT.ConvertTo` | dm/q.go:1231-1392 | the result is carried, has the target length, and is refused exactly when its leading field is too wide |
| `IntervalDT.CarriedUnique` | dm/q.go:1231-1392 | kind and length determine the fields, so the contract above fixes the result |
| `IntervalDT.CarriedMeans` | dm/q.go:1290-1392 | for each of the ten kind codes, which fields it has and how large those behind the first may be |
| `IntervalDT.LengthMeans` | dm/q.go:1240-1288 | the length counts each field in microseconds |
| `IntervalDT.WithinHalfUnit` | dm/q.go:1290-1367 | to a kind without seconds the length becomes the nearest whole day, hour or minute, halves going up |
| `IntervalDT.ExactSeconds` | dm/q.go:1308-1377 | to a kind with seconds it is exact when no digit of the second scale is lost |
| `IntervalDT.ReducedSeconds` | dm/q.go:1394-1412 | when digits are lost the result is within half of the last kept digit if and only if the fraction rounds up or keeps no digit |
| `IntervalDT.CutMeans` | dm/q.go:1394-1412 | the fraction branch by branch: rounded up, gone if no digit of it is kept, or else the kept digits as microseconds |
| `IntervalDT.LostFraction` | dm/q.go:1394-1412 | 0.12 s cut to one digit becomes 0.000001 s: a concrete input |
| `IntervalDT.CheckScaleMeans` | dm/q.go:633-729 | the field check is that the leading field fits, except for SECOND intervals, whose seconds it never looks at |
| `IntervalDT.Encode` | dm/q.go:1194-1229 | the bytes of the interval or of its conversion, or an error exactly when the check or the conversion fails |
| `IntervalDT.EncodeDecode` | dm/q.go:84-151 | unpacking the packed interval is the identity if and only if the fields fit 32 bits and it is not a negative zero |
| `IntervalDT.PackedBytes` | dm/q.go:1211-1228 | the 24 bytes: five signed fields, then the scale word with both scales and the kind |
| `Calendar.AddMonth` | dm/h.go:864-880 | exactly n months later; the day is cut to the new month's length in the old year |
| `Calendar.AddMonthValid` | dm/h.go:871-874 | the date stays valid except when a day after the 28th lands in February of a common year coming from a leap year |
| `Calendar.AddDay` | dm/h.go:882-897 | the loop divides by the length of the month it started in: quotient months, remainder days |
| `Calendar.AddHour` | dm/h.go:899-910 | hours with whole days carried, for any n |
| `Calendar.AddMinute` | dm/h.go:912-923 | minutes with whole hours carried, for any n |
| `Calendar.TransformTZ` | dm/h.go:606-615 | a zone change adds the difference in minutes, if both zones are known and differ |
| `Calendar.MinutesDrift` | dm/h.go:882-923 | for every n the absolute minute advances by n plus the drift of using one month length throughout |
| `Calendar.FirstOfJanuary` | dm/h.go:839-857 | the day count of the first of January of any year is 365 a year and the Gregorian leap days, in closed form |
| `Calendar.MonthStarts` | dm/h.go:839-857 | when each month of any year begins |
| `Calendar.Centuries` | dm/h.go:839-857 | 146097 days in every 400 years; 1970 begins 719528 days after year 0 |
| `Calendar.MinutesExactIff` | dm/h.go:882-923 | the arithmetic is exact if and only if that drift is zero |
| `Calendar.ForwardExact` | dm/h.go:882-923 | for 0 to 27 days forward it is exact and the date stays valid |
| `Calendar.BackwardExactIff` | dm/h.go:882-923 | for up to 27 days back it is exact if and only if the date stays in its month or enters one of equal length, and then the result is a valid date |
| `Calendar.BackwardInvalid` | dm/h.go:882-897 | one minute before 1 March is 31 February: a concrete input |
| `DateTimeCodec.PutDate` | dm/h.go:654-665 | the three date bytes are year, month and day in 15, 4 and 5 bits, for negative years too |
| `DateTimeCodec.PutTime` | dm/h.go:764-776 | the time bytes are hour, minute, second and fraction in 5, 6, 6 and 20 or 30 bits |
| `DateTimeCodec.Encode` | dm/h.go:617-795 | zone shifts, the year-range error, and the packed layout of each column type |
| `DateTimeCodec.GetDate` | dm/h.go:99-108 | the date fields read from the bytes, with the sign of the year restored |
| `DateTimeCodec.GetTime` | dm/h.go:109-121 | the time fields read from the bytes |
| `DateTimeCodec.Decode` | dm/h.go:78-202 | the fields of a value of any length, its type told by the length |
| `DateTimeCodec.RoundTrip` | dm/h.go:78-202 | DATE, TIME, TIME_TZ, DATETIME, DATETIME2 and DATETIME_TZ give back every field they keep, years -4712 to 9999 |
| `DateTimeCodec.OverlapRoundTrip` | dm/h.go:738-763 | DATETIME2_TZ, whose zone is written one byte before it is read, does so if and only if the zone is zero and the fraction fits in 23 bits |
| `DateTimeCodec.NoShift` | dm/h.go:606-624 | without a zone difference the fields packed are the caller's |
| `DateTimeCodec.DatePartBytes` | dm/h.go:654-665 | the three bytes of a date, bit field by bit field |
| `DateTimeCodec.TimePartBytes` | dm/h.go:764-776 | the five or six bytes of a time of day |
| `DateTimeCodec.WireBytes` | dm/h.go:652-795 | which of them each type code sends, and where the zone goes |
| `Zones.ZoneChange` | dm/h.go:606-615 | changing the zone keeps the instant, and the date valid, if and only if it goes forward, stays in its month, or enters December or July |
| `Zones.ShiftedInstant` | dm/h.go:617-625 | what encode packs stands for the caller's instant, told in the local zone or for a local column in the server's, if and only if each shift on the way does so |
| `Zones.ShiftedWrong` | dm/h.go:617-625 | 23:00 of 30 April is packed as 31 April: a concrete input |
| `Zones.DecodeColumn` | dm/h.go:64-76 | a value is unpacked, and one of a local column shifted from the server's zone to the local one |
| `Zones.LocalRoundTrip` | dm/h.go:64-76 | a value written to a local column and read back stands for the same instant if and only if all three shifts are exact |
| `DateTimeText.FormatYearIs` | dm/h.go:263-285 | years are printed with sign and at least four digits |
| `DateTimeText.ToDTFromString` | dm/h.go:353-604 | the array is filled with the parsed fields, or left alone on any error |
| `DateTimeText.FractionText` | dm/h.go:295-321 | the printed fraction is the leading digits of nine |
| `DateTimeText.ZoneTextRead` | dm/h.go:323-332 | every zone in (-780, 840] is printed so that it is read back |
| `DateTimeText.TimeTextRead` | dm/h.go:478-540 | every valid time of day is read back with its fraction cut to the printed scale |
| `DateTimeText.PrintParse` | dm/h.go:226-604 | printing and parsing gives back every valid value of all seven types, negative years and zones included, the fraction cut to the scale |
| `DateTimeText.DateSpelled` | dm/h.go:226-293 | four digits of year, two of month and day, with dashes, and a minus before year 0 |
| `DateTimeText.TimeSpelled` | dm/h.go:226-321 | two digits of hour, minute and second with colons, and the first digits of the fraction |
| `DateTimeText.ZoneSpelled` | dm/h.go:323-332 | sign, hours and minutes of the zone |
| `DateTimeText.TypesSpelled` | dm/h.go:226-261 | which of them each type code prints |
| `ByteQueue.Queue.Append` | dm/d.go:72-83 | bytes are appended to the content; nothing is queued for no bytes |
| `ByteQueue.Queue.AddChunk` | dm/d.go:113-123 | a chunk is queued unless it is empty; size counts its bytes |
| `ByteQueue.Queue.Pop` | dm/d.go:125-133 | the next chunk becomes the head |
| `ByteQueue.Queue.Drain` | dm/d.go:29-41 | up to n bytes leave the front in order and nothing else changes |
| `ByteQueue.Queue.MoveAll` | dm/d.go:101-111 | the other queue's content is appended and it is left empty |
| `ByteQueue.Queue.EmptyContent` | dm/d.go:18-27 | a queue without content has no chunk, so its head is nil |
| `ByteQueue.Chunk.Take` | dm/d.go:175-183 | bytes are taken from the front of one chunk |
| `OffRowUpload.Binder.ReadObject` | dm/zr.go:86-104 | one read of a bytes or blob object queues the next bytes, 16000 unless the object ends, and notes the end |
| `OffRowUpload.Binder.Read` | dm/zr.go:55-104 | what was buffered comes first, then the object; nothing is lost or repeated |
| `OffRowUpload.Upload` | dm/a.go:797-818 | the loop ends; every message has 16000 bytes but the last, which is not empty, and their concatenation is exactly the object, or a prefix when the server refuses |
| `RowBatches.PlainRun` | dm/a.go:408-427 | the longest run of rows without off-row values |
| `RowBatches.Union` | dm/zb.go:257-266 | update counts of one call go to its rows |
| `RowBatches.SumPositive` | dm/a.go:450-454 | the total counts only positive results |
| `RowBatches.TotalFollows` | dm/a.go:450-454 | the total follows each row's count, of which only what is above zero tells |
| `RowBatches.Execute` | dm/a.go:400-456 | every row is executed exactly once, in order, off-row rows alone; counts belong to their rows; an error stops at the failing call |
| `RowBatches.RowCount` | dm/zb.go:257-266 | the count of the k-th row of the n-th call is that call's own count if it had one row, else the reply's k-th row count, or zero without any |
| `Cursor.InnerRows.FetchData` | dm/t.go:465-480 | a page replaces the held one; no page leaves it |
| `Cursor.InnerRows.Next` | dm/t.go:257-295 | one step of the cursor as the value specification says |
| `Cursor.StepValid` | dm/t.go:257-295 | every step keeps datasOffset equal to currentPos - datasStartPos on a held row |
| `Cursor.RunDelivers` | dm/t.go:257-295 | any number of calls delivers the remaining rows once each in order and then end-of-file for ever, if and only if no fetch fails |
| `Cursor.FreshRun` | dm/t.go:398-431 | a new cursor delivers rows 0 to total-1 so, whatever the page sizes |
| `Cursor.HeldRow` | dm/t.go:271-295 | a row of the page held needs no server; any other comes from a page that starts with it |
| `Cursor.FailedFetchSkips` | dm/t.go:271-283 | a failed fetch reports the end and skips a row: a concrete step |
| `BatchCreate.PrepareRow` | batch_create.go:195-314 | the columns of a row are the plain list, whatever columns were expected |
| `BatchCreate.RowColumns` | batch_create.go:277-305 | a row has exactly the columns its fields write: a normal field its own unless it is blank and has a default or is a key, or a save leaves the key alone; a belongs-to relation its parent's keys |
| `BatchCreate.FieldOrder` | batch_create.go:277-305 | in the order of the fields |
| `BatchCreate.FieldColumns` | batch_create.go:277-305 | each once |
| `BatchCreate.KeyIsLast` | batch_create.go:277-280 | the key kept with a row is its last primary field |
| `BatchCreate.RowBuilder.AppendColumn` | batch_create.go:263-275 | the shared prefix and the own list together hold the columns appended so far |
| `BatchCreate.MaxCreateBatchRows` | batch_create.go:520-549 | at least one row, at most the requested ones, within the bind-variable limit, and no fewer than the limit allows |
| `BatchCreate.KnownLimits` | batch_create.go:520-549 | the limit of each dialect by name: 32766, 65535 or 2100 values, met as closely as whole rows allow; none for others |
| `BatchCreate.SameBatchColumns` | batch_create.go:551-560 | true exactly for equal column lists |
| `BatchCreate.NextGroup` | batch_create.go:157-168 | a group has identical columns, is within the limits, and ends only where columns change or it is full |
| `BatchCreate.GroupWithinLimit` | batch_create.go:158-164 | rows times columns stays within the dialect's limit unless there is one row |
| `BatchInsert.PrepareRows` | batch_create.go:137-153 | one row for every non-nil element, in order, or an error for a broken one |
| `BatchInsert.RunBatch` | batch_create.go:137-179 | the statements of one chunk form a good plan of its rows |
| `BatchInsert.RunChunks` | batch_create.go:110-125 | the chunks together cover the slice |
| `BatchInsert.CreateInBatches` | batch_create.go:57-135 | every non-nil element is in exactly one statement, in order, none with more rows than the batch size or 500; own transactions commit all or nothing |
| `BatchInsert.AssignBatchPrimaryKeys` | batch_create.go:483-518 | blank keys get consecutive identities when the report covers all rows; otherwise nothing changes |
| `BatchInsert.AssignSingleBatchPrimaryKey` | batch_create.go:466-481 | for dialects that insert row by row, the one row's blank key takes the reported identity, and a failing report is an error |
| `BatchInsert.WriteBack` | batch_create.go:440-451 | which of the two is used; a save writes no keys |
| `BatchInsert.NothingAssigned` | batch_create.go:440-518 | no key is touched by a save, for another dialect, or when the report does not cover all rows or puts the first at or below zero |
| `BatchInsert.IdentitiesAssigned` | batch_create.go:440-518 | for records of one type in one statement, the keys assigned from what the driver reports are the identities of the rows: the i-th consecutive number for a blank key, the given key otherwise |
| `BatchInsert.OwnIdentities` | batch_create.go:440-518 | so after a plain create of one statement every record holds the key of its own row |
| `BatchInsert.BlankTogether` | batch_create.go:157-168 | rows of one statement are all with or all without a blank key, default values or not |
| `Endpoints.ScoreOrder` | dm/x.go:75-135 | by mode code, whatever the status, each login mode ranks the modes as it documents, and the *_ONLY modes give any other mode a negative score |
| `Endpoints.StatusOrder` | dm/x.go:75-135 | within a mode OPEN scores above MOUNT above SUSPEND above anything else; unreachable below all, never tried above |
| `Endpoints.AcceptedExactly` | dm/z.go:33-65 | by mode and status codes, what is accepted before and in the last round |
| `Endpoints.Ep.RefreshStatus` | dm/x.go:137-153 | the endpoint's status and score are those of the last attempt |
| `Endpoints.ConnectTo` | dm/x.go:155-165 | an attempt succeeds exactly when the server answers, and the endpoint is scored by it |
| `Endpoints.CheckServerMode` | dm/z.go:33-65 | accepted exactly when DSC, status and *_ONLY demands hold and the mode is preferred or it is the last round; rejection with error closes |
| `Endpoints.SortDBList` | dm/z.go:23-31 | a permutation, highest score first after the first round |
| `Endpoints.Traverse` | dm/y.go:100-148 | endpoints are tried in order; the first accepted connection is kept and every other one is closed |
| `Endpoints.Group.GetEPSelector` | dm/y.go:75-90 | the group's own list, or a rotation starting one further than before |
| `Endpoints.Group.Connect` | dm/y.go:51-73 | only a connection meeting all demands is returned, every other one is closed, a mode not asked for first only in the last round, and failure means every endpoint failed in each of switchTimes + 1 rounds (switchTimes for a single endpoint) |
| `Endpoints.HigherScoresFailed` | dm/y.go:51-73 | after the first round every endpoint scored higher has failed in the same round |
| `Endpoints.StartsDiffer` | dm/y.go:82-88 | the start positions after n successive selections are n different ones |
| `Endpoints.Selections` | dm/y.go:75-90 | k successive selections start with the endpoints of the list in turn, n of them with all n |
| `LittleEndian.Int32RoundTrip` | dm/e.go:38-48 | a 32-bit integer written low byte first is read back |
| `LittleEndian.Int16RoundTrip` | dm/e.go:31-36 | a 16-bit integer written low byte first is read back |
| `LittleEndian.LowByteFirst` | dm/e.go:31-48 | byte i of a 16- or 32-bit integer counts 256 to the i-th, modulo its width |

## Left out

- Sockets, TLS, ciphers, compression, login and message bodies: a server is an oracle that answers requests.
- Wall clock, random start positions and locks: inputs, or atomic steps.
- `big.Float` internals and conversions from floating point: the decimal text is the input, so `NewDecimalFromString` starts after its text has been produced.
- DecimalOrder.ReadPrinted: reading starts at the text big.Float prints; that big.Float holds the number exactly, which its 64 bits do not for every 40 digits, is not part of the claim.
- The `Valid` flags of decimals and intervals, and scanning from and into driver values.
- SQL text is a list of tokens: quoting, keyword spelling and the text inside raw fragments are words, and the parentheses of an IN list belong to its words.
- Errors recorded on a scope; values that are scanners or valuers stand for what they yield.
- QuestionMarks.QuestionExactly: where an expression argument begins with '?' itself, only the sufficient half is stated (`QuestionMarks.QuestionOrdered`), because two misplaced texts can then spell the right one; the same goes for `ClauseBinding.WhereExactly` and `QueryBinding.PreparedExactly`.
- QueryBinding.PreparedReads: with bind variables skipped the condition is only shown to suffice for whole statements; that it is needed is shown for one expression (`QuestionMarks.SkippedExactly`).
- QuerySql.PreparedDenotes: LIMIT, OFFSET and the query option are one fixed word at the end of the statement.
- RwCounter.RWCounter.AdjustNtrx: rescaling of the counters at the int64 maximum is not modelled; the requires keeps runs below it, and calls are sequential.
- RwCounter.RWCounter.Count: for the same reason its requires, like that of `CountPrimary`, keeps the total below the int64 maximum.
- Reconnecting, which clears the closed flag of a connection, and the close done inside a failed login.
- ByteQueue.Queue.Append: the bytes queued are those at the time of the call; sharing a chunk's array with the caller is not captured.
- OffRowUpload.Upload: blobs of 2^31 bytes and more, whose position is a 32-bit integer, are outside the model, as are clob and reader binders.
- The result-set cache, local result sets and columns that are cursors themselves.
- Batch hooks, time stamps, associations, upsert and insert options: a prepared field says whether it contributes a column; a failing commit is not modelled.
- Endpoints.SortDBList: the model sorts by insertion; only a sorted permutation is promised, because the source's sort is not stable.
- Lead scales above 15 of year-month intervals, which their four bits cannot hold and for which a power of ten may overflow.
- The kinds of errors in date, time and interval parsing: every error, and every recovered panic, is one missing result.
- Zones.DecodeColumn: values of compressed columns, which have a format of their own, are not read.
- Zones.LocalRoundTrip: zones that differ by more than nine days, which are not zones.
- Text of day-time intervals, whose fraction goes through floating point, and the Oracle format patterns.
- Reflection, struct tags, migrations, preloading, dialect type tables and callback ordering.
