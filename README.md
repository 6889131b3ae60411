# Traffic-light duration repair and intersection grouping, in Dafny

This project models two maintenance tools of the traffic-light detector backend.

**The duration debugging tool** (`debug_durations.py`) has two parts.
- `fix_unreasonable_durations` walks each light's state records in timestamp order. A record is rewritten when its dwell gap to its predecessor lies outside [5, 300] seconds. The predecessor may itself have been rewritten earlier in the pass. The rewritten record is placed 30 s after a RED predecessor and 15 s after any other.
- When the pass rewrote anything for a light, it recomputes that light's mean RED->GREEN and GREEN->RED durations. Transitions come from a self-join: two records of the light with differing RED/GREEN states and no record strictly between them in time. Only durations in [5, 300] count. Each mean is stored, assuming a unique key on (light, previous state, next state), as the single row of that key.
- `analyze_traffic_patterns` uses the same join and filter. For each transition type it reports the count, mean, minimum and maximum.

**The intersection tool** (`manage_intersections.py`) has two parts.
- `validate_light_ids` checks the requested IDs against the light table.
- `create_intersection_group` does the following:
  - it reads a name;
  - it builds the group id from the name, with spaces made underscores, plus a `%Y%m%d%H%M` stamp of the local time;
  - it re-prompts until a comma-separated answer parses and validates;
  - it stops with an uncaught OverflowError when a parsed ID does not fit SQLite's 64-bit INTEGER;
  - it sets `intersection_id` on exactly the selected rows.

Modules, one concept each:

- `StateRecords` (`state_records.dfy`) covers the records of one light.
  - `Repaired` is the specification of the repair pass.
  - `RepairTimestamps` is the in-place loop over the fetched rows. It is proved against `Repaired` and against the count of rewritten records.
  - Lemmas cover the pass's properties.
- `TransitionStats` (`transition_stats.dfy`) covers the following:
  - the self-join over index pairs;
  - the [5, 300] filter;
  - the recomputation's single splitting loop (`SplitDurations`) and the analysis's group-then-filter;
  - the count, mean, minimum and maximum.
  Means are exact rationals.
- `DurationStore` (`duration_store.dfy`) is the whole database: the list of lights, each light's records, and the statistics table as a map keyed by `(light, prev, next)`.
  - The class `Store` runs the fix pass light by light.
  - `FixAll` is the functional specification of that pass.
  - `FixAllHistory` and `FixAllDurations` state what the pass leaves in each table.
- `Options` and `Text` (`text.dfy`) hold the Python string operations the intersection tool depends on: `strip`, `split(',')`, `','.join`, `int()`, `str()` and zero-padded `strftime` fields.
- `Intersections` (`intersections.dfy`) holds the following:
  - the validator;
  - the reading of one answer;
  - the prompt loop over a sequence of answers;
  - the group id;
  - the class `LightTable`, whose `CreateIntersectionGroup` performs the update.

A consequence of the source that the model makes explicit is `Intersections.RepeatRefusedWithNothingReported`. `validate_light_ids` compares the size of a set with the length of a list. A request that repeats an existing ID is therefore refused, yet the message lists no invalid ID.

## Model

| member | source | states |
|---|---|---|
| StateRecords.Repaired | debug_durations.py:40-98 | The definition of the pass over one light's records: the first record is kept, and each later record is repaired against the last repaired record. The result is as long as the input. |
| StateRecords.RepairTimestamps | debug_durations.py:40-98 | The in-place loop leaves exactly the repaired sequence of the fetched rows in the array. The count it returns is the number of positions at which a record was rewritten. |
| StateRecords.RepairedAt | debug_durations.py:46-52 | The earliest record is never modified. Each later record is the repair of the original against the already repaired predecessor, so repairs chain. |
| StateRecords.RepairedChangesIff | debug_durations.py:67-90 | A record is rewritten if and only if it is not the first and its gap to the repaired predecessor lies outside [5, 300]. A rewritten record sits 30 s after a RED predecessor and 15 s after any other. Id and state never change. |
| StateRecords.RepairedGapsPlausible | debug_durations.py:67-98 | After the pass every consecutive gap lies in [5, 300]. |
| StateRecords.RepairedStrictlyIncreasing | debug_durations.py:67-98 | After the pass the timestamps are strictly increasing. |
| StateRecords.RepairedOfPlausible | debug_durations.py:67-90 | A history whose gaps are all plausible is left unchanged. |
| StateRecords.RepairedIdempotent | debug_durations.py:40-98 | Running the pass again on repaired records changes nothing and counts no fix. |
| TransitionStats.JoinsAdjacent | debug_durations.py:107-124 | Over strictly increasing timestamps, the join relates two records if and only if they are adjacent, with differing states that are both RED or GREEN. |
| TransitionStats.JoinRowsFrom | debug_durations.py:107-124 | The rows of the self-join as index pairs (s1, s2): every row satisfies the join condition, and every pair satisfying it is a row. |
| TransitionStats.JoinRowsNoRepeats | debug_durations.py:107-124 | No pair of records appears twice among the rows, so each joined pair is produced exactly once. |
| TransitionStats.JoinRowsAdjacent | debug_durations.py:107-124 | Over strictly increasing timestamps the rows are exactly the neighbouring pairs that change between RED and GREEN, each once, in timestamp order. |
| TransitionStats.Transitions | debug_durations.py:107-126 | The fetched transitions: one per row of the join, in the order of the rows. |
| TransitionStats.TransitionsOfJoin | debug_durations.py:107-126 | Every transition comes from a pair of records satisfying the join condition, and every such pair yields one. |
| TransitionStats.RepairedTransitionsPlausible | debug_durations.py:103-143 | Every transition of a repaired history has a plausible duration, so the recomputation's filter drops nothing. |
| TransitionStats.AcceptedDurations | debug_durations.py:133-143 | The accepted durations are all in [5, 300], and there are no more of them than transitions. |
| TransitionStats.AcceptedDurationsSound | debug_durations.py:136-143 | Every accepted duration is the duration of a transition of the wanted type that lies in [5, 300]. |
| TransitionStats.AcceptedDurationsCount | debug_durations.py:136-143 | Each duration occurs in the accepted list exactly as many times as there are transitions of the wanted type with that duration in [5, 300]. |
| TransitionStats.AcceptedDurationsComplete | debug_durations.py:136-143 | No transition of the wanted type with a duration in [5, 300] is dropped. |
| TransitionStats.SplitDurations | debug_durations.py:133-143 | The one-pass splitting loop yields the accepted RED->GREEN and GREEN->RED durations, in order. |
| TransitionStats.OfType | debug_durations.py:226-227 | The grouping keeps exactly the transitions of the given type. |
| TransitionStats.PlausibleDurations | debug_durations.py:231 | The analysis's filter: every kept duration lies in [5, 300]; after `OfType` it equals the recomputation's accepted list (`GroupThenFilter`). |
| TransitionStats.GroupThenFilter | debug_durations.py:226-231 | Grouping and then filtering, as in the analysis, gives the same list as the recomputation's single filtering pass. |
| TransitionStats.Mean | debug_durations.py:147 | `sum(ds) / len(ds)` as an exact rational: the mean times the count is the sum. |
| TransitionStats.Min | debug_durations.py:234 | `min` is an element that is no greater than any other. |
| TransitionStats.Max | debug_durations.py:235 | `max` is an element that is no smaller than any other. |
| TransitionStats.MeanBetween | debug_durations.py:233-235 | The mean lies between the minimum and the maximum. |
| TransitionStats.MeanPlausible | debug_durations.py:146-166 | The mean of accepted durations lies in [5, 300]. |
| TransitionStats.Summarize | debug_durations.py:229-253 | A type is reported only if it occurs. "No valid transitions" is reported exactly when it occurs but nothing passes the filter. Otherwise the report holds the count, the mean, and the minimum and maximum of the accepted list, with min <= mean <= max inside [5, 300]. |
| TransitionStats.AnalyzeLight | debug_durations.py:217-253 | "No transitions" is reported exactly when the join is empty. Otherwise both types are summarized. |
| DurationStore.Recomputed | debug_durations.py:128-166 | Each key is written with the mean of its accepted durations exactly when that list is non-empty. Nothing else changes, and every written value lies in [5, 300]. |
| DurationStore.FixLight | debug_durations.py:20-166 | One visit of the pass. Only the visited light's records change, to their repair, and no statistics row is lost. A light with fewer than two records keeps its records. |
| DurationStore.FixAll | debug_durations.py:20-166 | The pass as the visits of the listed lights in order. Unlisted lights keep their records, and no statistics row is lost. |
| DurationStore.FixAllHistory | debug_durations.py:20-98 | After the pass every listed light holds its repaired records, and every other light's records are unchanged. A light with fewer than two records keeps its records. |
| DurationStore.FixLightStatistics | debug_durations.py:100-166 | One visit changes only its own light's RED->GREEN and GREEN->RED rows, and only when it repaired something. Those rows then hold the repaired history's means. |
| DurationStore.FixAllDurations | debug_durations.py:8-179 | After the pass no statistics row is lost. A row changes only for a listed light whose records were repaired, and it then holds the mean of that light's accepted repaired durations, which lies in [5, 300]. Every such light with accepted durations gets its rows. |
| DurationStore.Store.FixLightDurations | debug_durations.py:24-166 | One iteration repairs the light's records in place and, when the count is positive and transitions exist, writes the means. Lights with fewer than two records are skipped. |
| DurationStore.Store.FixUnreasonableDurations | debug_durations.py:8-179 | The whole pass over the lights, in the order the light query returns them, leaves the tables `FixAll` describes. The records stay in timestamp order. |
| DurationStore.Store.AnalyzeTrafficPatterns | debug_durations.py:181-253 | The loop over the lights builds one report per light, in light order, each being `AnalyzeLight` of that light's records, and changes nothing. |
| Text.Strip | manage_intersections.py:53-59 | `str.strip()`: a non-empty result starts and ends with a non-whitespace character. |
| Text.StripEmpty | manage_intersections.py:59-62 | A stripped answer is empty exactly when the answer is all whitespace. |
| Text.Split | manage_intersections.py:65 | `split(',')` yields at least one part, none containing a comma, and joining them gives the text back. |
| Text.SplitJoin | manage_intersections.py:65 | Splitting a comma-join of comma-free parts gives the parts back. |
| Text.ParseInt | manage_intersections.py:65 | `int()` on a stripped item: an optional sign and ASCII digits with single underscores between digits; anything else, or more than 4300 digits (Python's default `int()` digit limit, which counts digits but not signs or underscores), is the ValueError case. |
| Text.ParseIntDigitLimit | manage_intersections.py:65 | A string that parses has at most 4300 digits; `int()` raises ValueError beyond Python's default digit limit. |
| Text.ParseShow | manage_intersections.py:65 | `int(str(n)) == n` for every integer whose `str` succeeds, i.e. with at most 4300 digits (`Showable`). |
| Text.PadDigitsValue | manage_intersections.py:55 | A zero-padded field of the stamp reads back as its number. |
| Intersections.InvalidIds | manage_intersections.py:72 | `set(light_ids) - valid_ids`: with the valid IDs of validation, exactly the requested IDs missing from the table (`InvalidIdsAreMissing`). |
| Intersections.ValidateLightIds | manage_intersections.py:31-45 | The valid IDs are exactly the requested IDs present in the table. The request is valid if and only if every ID exists and none is repeated. |
| Intersections.InvalidIdsAreMissing | manage_intersections.py:70-73 | The reported invalid IDs are exactly the requested IDs missing from the table. |
| Intersections.RepeatRefusedWithNothingReported | manage_intersections.py:45 | A request of existing IDs with a repeat is refused, with an empty list of invalid IDs. |
| Intersections.SelectionBindable | manage_intersections.py:37-40 | Light keys are 64-bit INTEGERs, so a selection of existing lights can always be bound. |
| Intersections.ParseItem | manage_intersections.py:65 | `int(id.strip())` of one item: `ParseInt` of the stripped item, None where it raises ValueError. |
| Intersections.ParseEachValues | manage_intersections.py:64-68 | The ID list is produced if and only if every item parses, and it then holds each item's value at its position. |
| Intersections.RequestedIds | manage_intersections.py:65 | The IDs a non-blank answer names: `int(id.strip())` for each comma-separated item, None when any item raises ValueError; a parsed list is never empty, since `split` always yields at least one item. |
| Intersections.ReadAnswer | manage_intersections.py:59-74 | One answer at the prompt: blank, not numeric (including an item over the 4300-digit limit), an ID outside SQLite's 64-bit range (validation raises OverflowError), unknown IDs, or accepted. |
| Intersections.ReadAnswerEmpty | manage_intersections.py:59-62 | An answer is refused as empty exactly when it strips to nothing. |
| Intersections.ReadAnswerNotNumeric | manage_intersections.py:64-68 | A non-blank answer is refused as non-numeric exactly when some comma-separated item is not an integer. |
| Intersections.ReadAnswerOverflow | manage_intersections.py:37-40 | The tool aborts exactly when every item parses but some ID lies outside SQLite's 64-bit range. |
| Intersections.ReadAnswerUnknown | manage_intersections.py:70-74 | A list of IDs within range is refused exactly when it is not a valid selection, and it then reports exactly the requested IDs missing from the table. |
| Intersections.ReadAnswerAccepted | manage_intersections.py:58-76 | An answer is accepted exactly when it names a non-empty list of in-range, existing, distinct IDs, and the loop then yields that list. |
| Intersections.ParseFormatIds | manage_intersections.py:64-65 | Typing `str` of each ID, comma-separated, reads back as the IDs, for IDs whose `str` succeeds (at most 4300 digits). |
| Intersections.AcceptFormattedIds | manage_intersections.py:58-76 | For IDs of at most 4300 digits, such an answer is accepted with exactly those IDs if and only if they are in range, existing and distinct. |
| Intersections.PromptOutcomeIsFirst | manage_intersections.py:58-76 | The loop either selects the IDs of an accepted answer or raises at an overflowing one, and only refused answers come before it. It keeps asking exactly when every answer is refused. |
| Intersections.PromptOutcome | manage_intersections.py:58-76 | Where the loop ends on the successive answers: the IDs of the first accepted answer, which are non-empty, in range, existing and distinct, `Raised` at an overflowing one, or `NoMoreAnswers` when every answer is refused (`PromptOutcomeIsFirst`). |
| Intersections.PromptForLightIds | manage_intersections.py:58-76 | The while loop ends as `PromptOutcome` says: at the first accepted answer or the first overflowing one. |
| Intersections.FormatStamp | manage_intersections.py:55 | `strftime('%Y%m%d%H%M')` of a valid local time: twelve decimal digits, which read back as that time (`StampRoundTrip`). |
| Intersections.StampRoundTrip | manage_intersections.py:55 | The twelve-digit stamp reads back as the local time it was made from. |
| Intersections.ReplaceSpaces | manage_intersections.py:55 | `replace(' ', '_')` turns every space into an underscore and keeps every other character in place. |
| Intersections.GroupId | manage_intersections.py:55 | The group id: the stripped name with spaces made underscores, `_`, then the `%Y%m%d%H%M` stamp. |
| Intersections.GroupIdParts | manage_intersections.py:55 | The group id has no space, and splits at a fixed position into the name with underscores for spaces, `_`, and a stamp that gives back the time. |
| Intersections.Assigned | manage_intersections.py:84-89 | The UPDATE sets the intersection id of exactly the selected existing lights. Other lights and all other fields are unchanged, and no row appears or disappears. |
| Intersections.AssignedMembers | manage_intersections.py:84-89 | After the update the group consists of the selected existing lights plus any already in it. |
| Intersections.LightTable.AssignIntersection | manage_intersections.py:84-89 | The in-place UPDATE: the table becomes `Assigned` of the old table, the selected IDs and the group id, which sets exactly the selected existing lights' intersection id. |
| Intersections.LightTable.CreateIntersectionGroup | manage_intersections.py:47-99 | A group id is produced exactly when the prompt selects IDs. It is the stripped name's id, and the table then equals the update of the selected IDs. The method also returns how the prompt ended, which is `PromptOutcome` of the answers: `Raised` for the uncaught OverflowError, `NoMoreAnswers` when the answers run out. In those two cases the table is unchanged. |

## Left out

- Database plumbing is not modelled. That means the sqlite connection, cursors, `commit` and `close`. The tables are maps. The OverflowError raised while binding an out-of-range ID is modelled: the prompt ends with `Raised` and no UPDATE runs. Other database errors are not modelled, so the `rollback` paths never run.
- ReadAnswer: the limit on the number of host parameters in one SQLite statement is not modelled. It depends on the SQLite build (999 before version 3.32, 32766 after). A longer ID list makes `validate_light_ids` raise an uncaught OperationalError. A list exactly at the limit passes validation, but the UPDATE, which binds one more parameter, fails, and that failure is caught and rolled back.
- `print` output is not modelled. Neither are the menu of the duration tool (`debug_durations.py:276-296`) or `display_all_traffic_lights` (`manage_intersections.py:6-29`). `input()` answers are parameters, and the ID prompt receives them as a sequence. `PromptForLightIds` ends without a selection when the sequence runs out, where the source would wait for more input.
- The location answer is read and stripped but never used by the source; the model does the same.
- `RepairTimestamps` works on `int` timestamps and assumes each one, stored or rewritten, has absolute value at most 2^53, where `int(float(t)) == t`. The source passes every timestamp through `int(float(t))` (`debug_durations.py:60`, `debug_durations.py:65`), which above 2^53 rounds to the nearest double. For records at 2^53+1 and 2^53+5 the source reads 2^53 and 2^53+4 and writes the second record at 2^53+30, where the model writes 2^53+31; later gaps are then measured from the rounded values. The conversion of ISO-formatted or float-string timestamps (`debug_durations.py:55-65`) and the catch-all exception branch (`debug_durations.py:92-93`) are not modelled either.
- `Mean` is an exact rational. Python's floating-point division, and the `:.2f` formatting, are not modelled.
- `datetime.now()` becomes a parameter. `FixAll` and `Store.FixUnreasonableDurations` use one `now` for every row written in the whole pass, where the source reads the clock at each write. The `isoformat()` text is not modelled.
- A state other than `RED` or `GREEN` is `Signal.Unknown`. The state table's schema admits only those two values and no NULL (`api_server.py:22`). A NULL state is not modelled: the source would treat the record after it as a fresh first record (`debug_durations.py:48`).
- Records with equal timestamps are taken in the order the query returns them. SQL leaves that order unspecified.
- The join's rows are ordered by the position of s1, then of s2. On records sorted by distinct timestamps this is the SQL's `ORDER BY s1.timestamp`. SQL leaves the order of rows with equal `s1.timestamp` unspecified. The order affects no count, mean, minimum or maximum.
- `ParseInt` accepts ASCII digits only. Python's `int()` also accepts other Unicode decimal digits.
- `ParseInt` follows the default digit limit of 4300 (`sys.int_info.default_max_str_digits`), which Python has enforced since 3.11 and the 2022 security releases of 3.7-3.10. Older interpreters have no limit, and a limit changed through `PYTHONINTMAXSTRDIGITS` or `sys.set_int_max_str_digits` is not modelled.
- Recomputed: the model assumes `state_durations` has a unique key on (light_id, previous_state, next_state), so that INSERT OR REPLACE keeps one row per `DurationKey`. No file in the repository creates that table. Without such a key, each INSERT OR REPLACE appends a row, and the table would hold several rows per transition.
- `LocalTime` requires a four-digit year (1000-9999). Outside that range `%Y` is not zero-padded the same way on every platform.
- The part of `analyze_traffic_patterns` that prints the stored statistics table (`debug_durations.py:255-274`) only reads and prints, and is not modelled.
- The rest of the repository is not part of this model. That covers the MQTT listener and the mock publisher, detector registration, the API server, fixture loaders and the listing scripts.
