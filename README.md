# Telegram chat statistics: message normalisation and chat length

This project models the two pure-logic pieces of a Telegram chat-statistics
viewer, and proves properties of that model.

- `parseMessages` reads the `messages` array of a Telegram Desktop JSON
  export once. For each record it:
  - registers the sender in a participant table (the first name seen for an id wins);
  - classifies the record into one of fourteen content categories, using an
    ordered chain of guards;
  - counts the characters and words of its text;
  - keeps a running minimum (seeded with `Number.MAX_SAFE_INTEGER`) and
    maximum (seeded with 0) of the timestamps, in milliseconds.

  It returns the participants in insertion order, the normalised records, both
  bounds and the span between them.
- `calculateChatDuration` renders a span in milliseconds as its first two
  positive components among years (365 days), months (30 days), days, hours,
  minutes and seconds, for example "2 months, 3 days". It renders "0 seconds"
  when no component is positive.

Modules:

- `JsString` (`js_string.dfy`) models the JavaScript string operations the
  parser relies on: the `\s` character set, `trim`, `split(/\s+/)`,
  `includes` and `startsWith`. It also defines an independent word count
  that the parser's word counter is proved against.
- `Decimal` (`decimal.dfy`) models `parseInt(s, 10)` on digit strings and the
  decimal rendering of a number.
- `ProcessData` (`process_data.dfy`) models `parseMessages`:
  - an imperative method with the source's loop;
  - the participant dictionary as a value with an insertion-ordered key list;
  - the classifier, both as written and as a precedence table of rules;
  - specification functions (registry, earliest and latest timestamp) that
    the loop is proved against.
- `ChatDuration` (`chat_duration.dfy`) models `calculateChatDuration` over
  any integer span, negative ones included. It applies JavaScript's `%`,
  whose remainder takes the sign of the dividend.
- `Wrappers` (`wrappers.dfy`) holds `Option`.

Where the code departs from what a reader might expect, the model follows the code:

- A word count of 0 might be expected for absent text. The code gives 1
  for every record whose text is absent, empty, blank or formatted (an
  array), because the parser passes `""` to the counter and
  `"".split(/\s+/)` has one piece (`ProcessData.NormalizedCounts`).
- The span might be expected to be non-negative, and zero only for a single message.
  The code gives `-9007199254740991` for an empty export (the `messages == []`
  clause of `ProcessData.ParseMessages`). It gives 0 for any export whose
  records all share one timestamp. Non-negativity holds for every non-empty
  export with safe-integer timestamps (`ProcessData.TimestampBoundsAttained`).

## Model

| member | source | states |
|---|---|---|
| ProcessData.ParseMessages | src/utils/processData.ts:46-115 | one normalised record per input record, in order, each with the record's date, unix time and sender id; the participants are the registry of senders in first-appearance order; the bounds are the running minimum from MAX_SAFE_INTEGER and the running maximum from 0, so every timestamp lies between them; the span is their difference, and -MAX_SAFE_INTEGER for an empty export; every output record's sender id has a participant entry |
| ProcessData.DetermineMessageType | src/utils/processData.ts:57-74 | the category is Unknown or the category of a guard that holds; with ClassifyFirstMatchWins and ClassifyUnknownIffNoRule it is exactly the first matching guard's category |
| ProcessData.ClassifyFirstMatchWins | src/utils/processData.ts:57-74 | when rule i is the first of the fourteen guards that holds, the category is that rule's category, whatever the later rules say |
| ProcessData.ClassifyUnknownIffNoRule | src/utils/processData.ts:57-74 | a record is Unknown exactly when none of the fourteen guards holds |
| ProcessData.CountWords | src/utils/processData.ts:76-79 | 0 for a non-string; otherwise the number of whitespace-separated words, or 1 when there is none |
| ProcessData.NormalizedCounts | src/utils/processData.ts:89-103 | the character count is the length of a string text and 0 otherwise; the word count is at least 1; it is the word count of a string text, and 1 for absent or array text |
| ProcessData.EarliestTimestamp | src/utils/processData.ts:54-94 | the running minimum, seeded with MAX_SAFE_INTEGER, stays between 0 and MAX_SAFE_INTEGER; TimestampsWithinBounds and TimestampBoundsAttained characterise it |
| ProcessData.LatestTimestamp | src/utils/processData.ts:54-94 | the running maximum, seeded with 0, is never negative; TimestampsWithinBounds and TimestampBoundsAttained characterise it |
| ProcessData.TimestampsWithinBounds | src/utils/processData.ts:91-94 | every record's timestamp (parsed seconds times 1000) lies between the running minimum and the running maximum |
| ProcessData.TimestampBoundsAttained | src/utils/processData.ts:53-106 | for a non-empty export with timestamps up to MAX_SAFE_INTEGER, both bounds are timestamps of actual records and the span is not negative |
| ProcessData.Registry | src/utils/processData.ts:82-87 | the participant list has at most one entry per record; the four Registry lemmas below characterise it |
| ProcessData.RegistryIdsAreSenders | src/utils/processData.ts:82-87 | an id is in the participant list exactly when some record was sent from it |
| ProcessData.RegistryIdsUnique | src/utils/processData.ts:82-87 | no id is listed twice |
| ProcessData.RegistryFirstWriterWins | src/utils/processData.ts:82-87 | the entry for a sender carries the name from that sender's first record |
| ProcessData.RegistryInFirstAppearanceOrder | src/utils/processData.ts:80-109 | a sender who first appears before another is listed before them |
| ProcessData.ParticipantTable.Insert | src/utils/processData.ts:82-87 | storing a participant under a new id keeps the table consistent and appends it to `Object.values` |
| ProcessData.ParticipantTable.HasIffListed | src/utils/processData.ts:82 | an id has an entry exactly when it is the id of a listed value |
| JsString.TrimStartDropsOnlySpace | src/utils/processData.ts:78 | trimming the start keeps a suffix and drops only whitespace |
| JsString.TrimEndDropsOnlySpace | src/utils/processData.ts:78 | trimming the end drops only whitespace |
| JsString.Trim | src/utils/processData.ts:78 | the trimmed text neither starts nor ends with whitespace |
| JsString.SplitOnSpace | src/utils/processData.ts:78 | splitting yields at least one piece, and no piece contains whitespace |
| JsString.SplitCount | src/utils/processData.ts:78 | splitting yields one piece more than there are runs of whitespace |
| JsString.WordsOfTrim | src/utils/processData.ts:78 | trimming does not change the number of words |
| JsString.SplitTrimLength | src/utils/processData.ts:78 | the number of pieces of the trimmed text is the number of words, or 1 for text without words |
| Decimal.ShowNat | src/utils/chatDuration.ts:33 | a number renders as a non-empty digit string with a leading zero only for 0 |
| Decimal.ParseShow | src/utils/processData.ts:91 | reading a rendered number back with parseInt gives the number |
| ChatDuration.JsRem | src/utils/chatDuration.ts:18-23 | JavaScript's remainder by a positive divisor: the Euclidean remainder for a non-negative dividend; for a negative one a value in (-b, 0] that differs from the dividend by a multiple of b |
| ChatDuration.Breakdown | src/utils/chatDuration.ts:13-24 | for a non-negative span: months at most 12 and days, hours, minutes and seconds below their unit; the years are the whole 365-day years of the span and the months the whole 30-day months of what remains; days to seconds add up to the seconds beyond whole 30-day months; for a negative span no component is positive |
| ChatDuration.CalculateChatDuration | src/utils/chatDuration.ts:10-35 | the text is "0 seconds" exactly when the span is under one second, negative spans included; ZeroSecondsIffUnderASecond gives the text for the other spans |
| ChatDuration.Positive | src/utils/chatDuration.ts:27 | the filter keeps only positive parts and never more than it was given |
| ChatDuration.PositiveEmptyIff | src/utils/chatDuration.ts:27 | the filter is empty exactly when no part is positive |
| ChatDuration.FirstPositive | src/utils/chatDuration.ts:27 | a non-empty filter starts with the first positive part |
| ChatDuration.Significant | src/utils/chatDuration.ts:26-28 | at most two parts are kept, all positive |
| ChatDuration.SignificantAreFirstNonZero | src/utils/chatDuration.ts:26-28 | the kept parts are the first positive parts in declaration order: none when none is positive, and a single part only when it is the only positive one |
| ChatDuration.BreakdownZeroIffUnderASecond | src/utils/chatDuration.ts:13-24 | no component is positive exactly when the span is under one second, negative spans included |
| ChatDuration.ZeroSecondsIffUnderASecond | src/utils/chatDuration.ts:10-35 | the text is "0 seconds" exactly when the span is under one second; otherwise it is the first kept part, then ", " and the second kept part if there is one |
| ChatDuration.ShowsLeadingParts | src/utils/chatDuration.ts:30-34 | one or two positive parts are joined with ", ", and the result is never "0 seconds" |
| ChatDuration.FormatZeroIffNonePositive | src/utils/chatDuration.ts:26-34 | the formatted text is "0 seconds" exactly when no component is positive |
| ChatDuration.JoinStartsWithFirst | src/utils/chatDuration.ts:34 | a join starts with its first element |
| ChatDuration.FormatPartReadsBack | src/utils/chatDuration.ts:33 | a rendered part is the value in decimal, which reads back as the value, then a space and the unit, with a trailing "s" exactly when the value is not 1 |
| ChatDuration.OneYearShowsFiveExtraDays | src/utils/chatDuration.ts:20 | a span of exactly 365 days breaks down into 1 year and 5 days and is shown as "1 year, 5 days" |
| ChatDuration.IntendedBreakdown | src/utils/chatDuration.ts:15-24 | every component is non-negative and below its unit (months at most 12), the years are the whole 365-day years of the span, and the components, weighted by their unit lengths, add up to the span's whole seconds, which fixes each component to what remains after the larger ones |
| ChatDuration.IntendedAgreesBelowAYear | src/utils/chatDuration.ts:15-24 | below one year the intended breakdown and the source's breakdown agree |
| ChatDuration.IntendedOneYear | src/utils/chatDuration.ts:10-35 | with the intended breakdown, exactly 365 days is shown as "1 year" |

## Left out

- The statistics aggregator, the navigation state and the mapping to the display. They are not part of the code modelled here.
- `src/utils/db.ts` and the user interface. These are storage and screen I/O. Reading the export file is I/O, and the records arrive as a parameter.
- ProcessData.NormalizedCounts: character counts are in code points, whereas JavaScript's `length` counts UTF-16 code units. Characters outside the Basic Multilingual Plane count once here and twice in the source.
- ProcessData.ParseMessages: requires every `date_unixtime` to be a string of digits. `parseInt` on other text gives `NaN` or reads a prefix, and floating-point `NaN` comparisons are not modelled.
- ProcessData.ParseMessages: timestamps are unbounded integers. The source's doubles lose precision above 2^53.
- ProcessData.ParticipantTable.Values: lists values in insertion order. JavaScript lists integer-like keys first, in ascending order. Keys inherited from the object prototype (such as `constructor`) are not modelled either.
- Record fields the parser never reads (`id`, `type`, `file_name`, `thumbnail`, `sticker_emoji`, `width`, `height`, `duration_seconds`) are not part of `RawMessage`.
- `contact_information` and `location_information` are modelled only by whether they are present with a truthy value. That is all the classifier looks at.
- ProcessData.TimestampBoundsAttained: requires a non-empty export. The source leaves the empty case to its caller, and `ParseMessages` states that case's span directly.
- ChatDuration.FormatPart: requires a non-negative value. Only parts the filter kept, which are positive, reach it.
- ChatDuration.CalculateChatDuration: takes an integer number of milliseconds, with exact arithmetic. Fractional and non-finite numbers are not modelled, nor the inexact division and remainder of doubles above 2^53. Spans of real chat exports stay far below that.

## Findings

| source | as written | input that shows it | evidently intended | confidence | as-written member | corrected member |
|---|---|---|---|---|---|---|
| src/utils/chatDuration.ts:20 | `day` is the remainder of the whole span by 30 days, divided by one day. It ignores the years already counted, and a 365-day year is not a whole number of 30-day months. | 31536000000 ms (exactly 365 days) is shown as "1 year, 5 days" | days taken from what remains after the years and months, so 365 days is shown as "1 year" | not executed | ChatDuration.OneYearShowsFiveExtraDays | ChatDuration.IntendedBreakdown |
