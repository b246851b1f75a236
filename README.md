# Uptime SLA calculator — a verified Dafny model

This project models the uptime SLA library of `sla-calculator/sla_calculator.go`. The library takes
a window `[startTime, endTime]` and a series of timestamped cumulative uptime counter readings. It
computes four availability figures and a per-sample up/down/open state series:

- connectivity (SNMP) availability;
- uptime availability;
- SLA 1 (device state together with connectivity);
- SLA 2 (SLA 1 plus exception overrides for justified down-time).

Each public calculation runs the same pipeline:

1. validate the arguments;
2. reconstruct the intervals: each one gets its wall-clock span and the uptime it counted;
3. adjust the counts according to the policy;
4. append an uncounted trailing interval when the window ends after the last sample;
5. sum both columns.

Modules, one per part of the library:

- `Validation` (validation.dfy): the error causes, `Result`, and the argument check `CheckArguments`.
- `Spread` (spread.dfy): spread reconstruction (`TransformToSpreadedUptime`). A first pass turns
  readings into spans and counted deltas. The nested backward loop then pushes each interval's
  excess over its span into the interval before it. As in the source, it *overwrites* that interval's
  count.
- `Readings` (readings.dfy): where the `open` flag clears, and where the trailing run of
  non-positive readings (the "open end") starts.
- `Availability` (availability.dfy): the four accumulators and the shared summing step.
- `StateSeries` (states.dfy): the up/down/open classifier.
- `Sums` (sums.dfy): the sum over a sequence and its lemmas.

Every public operation is an imperative method with the source's loops. Go slices are modelled as
local `seq` variables that the loops reassign element by element. Each method is proved equal to a
specification function. The properties are proved about those functions, either as their `ensures`
clauses or as lemmas. Each accumulator returns the pair `Ratio(counted, elapsed)`: the numerator and
denominator of the final floating-point division.

Four behaviours of the library are easy to misread:

- The redistribution overwrites `countedVals[j-1]` instead of adding to it. So the total counted
  uptime can shrink, not only be reshaped: `Spread.SpreadOverwritesEarlierCount` shows an input where
  it does.
- After the first positive reading, SLA 1 zeroes a non-positive reading only when its spread count
  is positive. Otherwise that reading counts its full span.
- In SLA 2, an exception sample never clears the `open` flag. Because of this, SLA 2 can come out
  *below* SLA 1 when an exception covers the first positive reading
  (`Availability.ExceptionOnFirstPositiveKeepsOpen`). With exceptions only on non-positive
  readings, SLA 2 is never below SLA 1 (`Availability.ExceptionsNeverLowerSla1`).
- Appending a sample at the window end that repeats the last reading can *raise* SLA 1. The
  trailing gap after the last sample counts nothing, but a positive reading counts its whole span.
  So when the last reading is positive and the window ends after it, the repeat adds the whole gap
  to the numerator (`Availability.Sla1RepeatedReadingAtEnd`). One reading of 5 at time 10 in the
  window [0, 20] gives 10/20, and the same reading repeated at 20 gives 20/20
  (`Availability.Sla1TrailingPositiveSampleRaises`). After a non-positive last reading the repeat
  changes nothing.

## Model

| member | source | states |
|---|---|---|
| `Validation.ArgumentsError` | sla-calculator/sla_calculator.go:21-55 | no error exactly when both times are non-negative, timestamps are non-empty, start ≤ first timestamp, end ≥ last timestamp, values (and exceptions when given) match the timestamp count, and timestamps never decrease; `NegativeTime` exactly when a time is negative; `UnorderedTimestamps` only when some timestamp is below its predecessor |
| `Validation.CheckArguments` | sla-calculator/sla_calculator.go:21-55 | the early-return checks and the neighbour scan return exactly `ArgumentsError` |
| `Validation.ValidArgumentsAppend` | sla-calculator/sla_calculator.go:21-55 | appending a sample at the window end that repeats the last reading keeps the arguments valid exactly when they were valid |
| `Validation.NonDecreasingAppend` | sla-calculator/sla_calculator.go:45-52 | a further timestamp keeps the series ordered exactly when the series was ordered and the new timestamp is not before the last |
| `Spread.Deltas` | sla-calculator/sla_calculator.go:101-117 | one span per sample; on ordered input (start ≤ first timestamp, no decrease) every span is non-negative |
| `Spread.FirstPass` | sla-calculator/sla_calculator.go:101-123 | one count per sample; every count after the first is non-negative and positive exactly when the counter increased; on ordered input the first count lies in [0, its span] |
| `Spread.PushBack` | sla-calculator/sla_calculator.go:127-136 | the inner backward walk (overwrite of the previous count, clamp at index 0) keeps the length |
| `Spread.Redistribute` | sla-calculator/sla_calculator.go:125-138 | the outer scan of the redistribution keeps the length |
| `Spread.SpreadCounts` | sla-calculator/sla_calculator.go:100-140 | one reconstructed count per sample |
| `Spread.DeltasTelescope` | sla-calculator/sla_calculator.go:101-117 | the spans sum to last timestamp − start time |
| `Spread.PushBackBounds` | sla-calculator/sla_calculator.go:127-136 | one backward walk keeps counts non-negative, leaves every interval up to the start index within its span, does not touch later intervals, and never raises the total |
| `Spread.RedistributeBounds` | sla-calculator/sla_calculator.go:125-138 | after the whole redistribution every count lies in [0, its span] and the total is no larger than before |
| `Spread.RedistributeWithoutExcess` | sla-calculator/sla_calculator.go:125-138 | when no count exceeds its span the redistribution changes nothing |
| `Spread.SpreadBounds` | sla-calculator/sla_calculator.go:100-140 | on ordered input, 0 ≤ counted[i] ≤ delta[i] for every sample, and the total never exceeds the first pass's total |
| `Spread.SpreadWithoutExcess` | sla-calculator/sla_calculator.go:125-138 | if the first pass left no count over its span, the spread counts equal the first-pass counts |
| `Spread.SpreadOverwritesEarlierCount` | sla-calculator/sla_calculator.go:134-135 | for readings 2 then 15 over two 10-unit intervals the first pass counts [2, 13] and the result is [3, 10]: the excess overwrites, it does not add |
| `Spread.PushBackAppend` | sla-calculator/sla_calculator.go:127-136 | a backward walk started before a trailing interval returns the walk on the earlier intervals with the trailing count untouched |
| `Spread.RedistributeAppend` | sla-calculator/sla_calculator.go:125-138 | a trailing interval whose count does not exceed its span keeps its count, and the earlier intervals are redistributed as without it |
| `Spread.SpreadRepeatedReading` | sla-calculator/sla_calculator.go:100-140 | a further sample repeating the last reading adds one span of (its time − last timestamp) that counts nothing; earlier spans and counts are unchanged |
| `Spread.TransformToSpreadedUptime` | sla-calculator/sla_calculator.go:100-140 | the append loop and the nested in-place redistribution return exactly `Deltas` and `SpreadCounts`; on ordered input 0 ≤ counted[i] ≤ deltas[i] |
| `Readings.FirstPositive` | sla-calculator/sla_calculator.go:173-177 | the index where the SLA 1 `open` flag clears: every earlier reading is non-positive and the reading there is positive |
| `Readings.FirstCountable` | sla-calculator/sla_calculator.go:216-224 | the index where the SLA 2 `open` flag clears: every earlier sample is an exception or non-positive; the one there is a positive non-exception reading |
| `Readings.TrailStart` | sla-calculator/sla_calculator.go:189-194 | the start of the maximal trailing run of non-positive readings: sample i lies in the open end exactly when i ≥ this index; every positive reading lies before it |
| `Readings.FirstPositiveAppend` | sla-calculator/sla_calculator.go:173-177 | a further reading leaves the first positive reading where it was, or at or after the old end when there was none |
| `Readings.TrailStartAppend` | sla-calculator/sla_calculator.go:189-194 | a further positive reading empties the open end; a non-positive one leaves its start unchanged |
| `Readings.FirstCountableWithoutExceptions` | sla-calculator/sla_calculator.go:216-224 | with no exceptions the SLA 2 flag clears where SLA 1's does |
| `Availability.Finish` | sla-calculator/sla_calculator.go:88-97 | the trailing interval adds nothing to the numerator; the denominator gains end − last timestamp when that is positive |
| `Availability.FinishWithinWindow` | sla-calculator/sla_calculator.go:88-97 | with counts in [0, span] on validated input: 0 ≤ numerator ≤ denominator = end − start (the spans telescope) |
| `Availability.PresenceCounts` | sla-calculator/sla_calculator.go:69-87 | an interval counts its full span when its reading is positive, and nothing otherwise |
| `Availability.SnmpAvailability` | sla-calculator/sla_calculator.go:64-98 | an error exactly when the arguments are invalid; otherwise 0 ≤ numerator ≤ denominator = end − start |
| `Availability.UptimeAvailability` | sla-calculator/sla_calculator.go:145-161 | an error exactly when the arguments are invalid; otherwise 0 ≤ numerator ≤ denominator = end − start, and the numerator never exceeds the first pass's total |
| `Availability.OpenForward` | sla-calculator/sla_calculator.go:173-187 | every interval counts nothing or its full span; nothing before the first positive reading counts; every positive reading counts its full span |
| `Availability.CloseOpenEnd` | sla-calculator/sla_calculator.go:188-194 | a sample in the open end counts nothing; every other sample keeps its count |
| `Availability.Sla1Counts` | sla-calculator/sla_calculator.go:172-194 | after both SLA 1 passes every interval counts nothing or its full span, and nothing before the first positive reading counts |
| `Availability.Sla1Rules` | sla-calculator/sla_calculator.go:173-194 | a positive reading counts its full span; the open end counts nothing; in between, a non-positive reading counts nothing if its spread count is positive and its full span otherwise |
| `Availability.Sla1Availability` | sla-calculator/sla_calculator.go:167-205 | an error exactly when the arguments are invalid; otherwise 0 ≤ numerator ≤ denominator = end − start |
| `Availability.OpenForwardAppend` | sla-calculator/sla_calculator.go:173-187 | a further sample leaves the forward-pass counts of the earlier samples unchanged |
| `Availability.CloseOpenEndRepeatedReading` | sla-calculator/sla_calculator.go:188-194 | over a series extended by a repeat of its last reading, the backward pass keeps every earlier result; the new sample keeps its count after a positive reading and counts nothing after a non-positive one |
| `Availability.Sla1CountsRepeatedReading` | sla-calculator/sla_calculator.go:172-194 | a further interval (count 0) repeating the last reading leaves earlier SLA 1 counts unchanged and counts its full span after a positive reading, nothing after a non-positive one |
| `Availability.Sla1SpreadRepeatedReading` | sla-calculator/sla_calculator.go:100-194 | the same for the whole reconstruction: a repeat of the last reading at time e adds one span e − last timestamp, counted in full after a positive reading and not at all otherwise |
| `Availability.FinishAppend` | sla-calculator/sla_calculator.go:88-97 | an interval that closes the trailing gap keeps the denominator and adds its count to the numerator |
| `Availability.Sla1RepeatedReadingAtEnd` | sla-calculator/sla_calculator.go:167-205 | appending a repeat of the last reading at the window end keeps validity and the denominator; the numerator is unchanged after a non-positive last reading and grows by end − last timestamp after a positive one |
| `Availability.Sla1TrailingPositiveSampleRaises` | sla-calculator/sla_calculator.go:173-197 | one reading of 5 at time 10 in [0, 20] gives 10/20; repeating it at 20 gives 20/20 |
| `Availability.ExceptionForward` | sla-calculator/sla_calculator.go:216-234 | every interval counts nothing or its full span; an exception sample counts its full span; a positive non-exception reading counts its full span |
| `Availability.CloseOpenEndExcept` | sla-calculator/sla_calculator.go:235-247 | a non-exception sample in the open end counts nothing; every other sample keeps its count |
| `Availability.Sla2Counts` | sla-calculator/sla_calculator.go:215-247 | every interval counts nothing or its full span; an exception sample always counts its full span, open end included; a non-exception sample before the first positive non-exception reading counts nothing |
| `Availability.Sla2Rules` | sla-calculator/sla_calculator.go:216-247 | for non-exception samples: a positive reading counts its full span, the open end counts nothing, and in between a non-positive reading counts nothing if its spread count is positive and its full span otherwise |
| `Availability.Sla2Availability` | sla-calculator/sla_calculator.go:210-258 | an error exactly when the arguments (exceptions included) are invalid; otherwise 0 ≤ numerator ≤ denominator = end − start |
| `Availability.Sla2CountsWithoutExceptions` | sla-calculator/sla_calculator.go:216-247 | with every exception false, the two SLA 2 passes give exactly the SLA 1 counts |
| `Availability.Sla2WithoutExceptions` | sla-calculator/sla_calculator.go:210-258 | with every exception false, SLA 2 yields the same result as SLA 1, error or numerator and denominator |
| `Availability.ExceptionCountsDominate` | sla-calculator/sla_calculator.go:216-247 | with exceptions only on non-positive readings, SLA 2 counts at least what SLA 1 counts, interval by interval and in total |
| `Availability.ExceptionsNeverLowerSla1` | sla-calculator/sla_calculator.go:167-258 | with exceptions only on non-positive readings, SLA 2 fails exactly when SLA 1 does, has the same denominator, and a numerator at least as large |
| `Availability.ExceptionOnFirstPositiveCounts` | sla-calculator/sla_calculator.go:216-247 | the counts for readings 5, 0, 7 with the first sample an exception: [10, 10, 10] under SLA 1 and [10, 0, 10] under SLA 2 |
| `Availability.ExceptionOnFirstPositiveKeepsOpen` | sla-calculator/sla_calculator.go:216-228 | an exception on the first positive reading leaves `open` set: SLA 2 gives 20/30 where SLA 1 gives 30/30 |
| `Availability.SumIntervals` | sla-calculator/sla_calculator.go:92-96 | the running-sum loop returns the sums of both columns |
| `Availability.CalculateSNMPAvailability` | sla-calculator/sla_calculator.go:64-98 | returns exactly `SnmpAvailability` |
| `Availability.CalculateUptimeAvailability` | sla-calculator/sla_calculator.go:145-161 | returns exactly `UptimeAvailability` |
| `Availability.OpenForwardPass` | sla-calculator/sla_calculator.go:173-187 | the loop with the `open` flag returns exactly `OpenForward` |
| `Availability.CloseOpenEndPass` | sla-calculator/sla_calculator.go:188-194 | the backward loop returns exactly `CloseOpenEnd` |
| `Availability.ExceptionForwardPass` | sla-calculator/sla_calculator.go:216-234 | the loop with exceptions and the `open` flag returns exactly `ExceptionForward` |
| `Availability.CloseOpenEndExceptPass` | sla-calculator/sla_calculator.go:235-247 | the backward loop that skips exceptions returns exactly `CloseOpenEndExcept` |
| `Availability.CalculateSLA1Availability` | sla-calculator/sla_calculator.go:167-205 | returns exactly `Sla1Availability` |
| `Availability.CalculateSLA2Availability` | sla-calculator/sla_calculator.go:210-258 | returns exactly `Sla2Availability` |
| `StateSeries.State.Name` | sla-calculator/sla_calculator.go:10-15 | the label text of each state: "down" for `Down`, "up" for `Up`, "open" for `Open`, each text naming exactly one state |
| `StateSeries.Labels` | sla-calculator/sla_calculator.go:267-275 | no label is open; a label is up exactly when the spread count is positive |
| `StateSeries.MarkOpenEnd` | sla-calculator/sla_calculator.go:276-281 | a sample in the open end is labelled open; every other label is kept |
| `StateSeries.UptimeStates` | sla-calculator/sla_calculator.go:261-283 | an error exactly when the arguments are invalid; otherwise one label per sample and no trailing entry; a sample is open exactly when every reading from it on is non-positive; otherwise it is up exactly when its spread count is positive; nothing is open when the last reading is positive |
| `StateSeries.GetUptimeStateSeriesData` | sla-calculator/sla_calculator.go:261-283 | returns exactly `UptimeStates` |

## Left out

- The final `float64` division: accumulators return the integer pair instead. When start and end are
  equal, the source divides 0 by 0 and gets NaN; the model gives no value for that quotient.
- int64 overflow in sums and differences: the model uses unbounded integers.
- Error message text: errors are modelled as one `ArgError` cause per check.
- The float `0` returned next to an error: an error result carries only its cause.
- `DefaultFloatValue` is never used by the library.
- `NewUptimeSLACalculator` and the receiver struct hold no state, so the operations are module-level methods.
- The unused `endTime` parameter of `transformToSpreadedUptime` is dropped.
- Calling SLA 2 with a nil exception slice passes validation and then indexes out of range. The
  model takes the exceptions as a sequence, which is never nil, so that panic is not modelled.
  A length mismatch is still the modelled error path.
- Go slice aliasing: the slices are local to each call and are modelled as values.
- `_example/example_001.go` is glue (sample data and logging) and is not part of this model.
