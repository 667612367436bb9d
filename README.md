# Weighbridge transaction engine — a Dafny model

This project models the core of an automated weighbridge (truck scale) station:

- **Telemetry framer** (`services/serialService.ts`). The serial read loop appends
  each decoded text chunk to a line buffer, splits it at `\r?\n`, parses every
  complete line, and keeps the unterminated fragment. `parseScaleString` finds
  every match of `[+-]?\d+(\.\d+)?` in a line, converts the matches with
  `parseFloat`, and reports `reduce(max, 0)` of them.
- **Stability detector** (`App.tsx`, the `checkStability` tick). This is a
  threshold-and-dwell state machine over `(stabilityCount, hasTriggered)`. It is
  advanced once per polling tick on the latest weight and the `isProcessing`
  gate. It triggers the camera once per truck visit.
- **Ticket ledger** (`App.tsx`, `handleImageCaptured` after plate
  recognition). A captured plate either closes the first open ticket for that
  plate, or puts a new open ticket at the front of the list.
- **Data model** (`types.ts`): the ticket status, the ticket and material
  records, and the fixed material catalogue.

Modules:

- `Types` (types.dfy) holds the records, the status enum and the catalogue.
- `LineFraming` (line_framing.dfy) is `split(/\r?\n/)` and its pieces. It
  defines the complete lines, their terminators and the trailing fragment,
  with the round-trip and chunk-append laws.
- `ScaleParser` (scale_parser.dfy) is the global regex scan, `parseFloat` on
  the matched text, and the max-with-0 reduction.
- `SerialService` (serial_service.dfy) holds the read loop. `LineReassembler`
  owns the buffer and its `Feed` method handles one chunk. `ReadLoop` drives it
  over the chunks delivered before the stream closes.
- `Stability` (stability.dfy) states one tick as the function `Step`. The
  `Detector` class updates the two refs in place, and its `Tick` method is
  proved to produce exactly the new state and firing that `Step` gives.
- `Ledger` (ledger.dfy) holds the ticket search, the outbound and inbound
  legs, the material selector, and the ledger invariant.

Conventions:

- Weights and prices are exact `real`s.
- `parseFloat`'s NaN is `None`, and an absent optional field is `None`.
- Ticket ids, timestamps, images and the recognised plate are parameters.
- A fresh id is required to be absent from the list. This stands in for
  `crypto.randomUUID`.

Where the design notes and the code differ, the model follows the code:

- The detector fires on the **eleventh** qualifying tick, because the code
  tests `stabilityCount > 10` (App.tsx:88). The design notes say the tenth.
- The line value is the **maximum of 0 and the token values**, because the
  reduction starts at 0 and compares with `>` (serialService.ts:103). So a
  line whose only tokens are negative reports 0. The design notes say the
  maximum-magnitude token.

## Model

| member | source | states |
|---|---|---|
| Types.CatalogueIdsDistinct | types.ts:41-46 | the catalogue has four entries with pairwise distinct ids; scrap metal is the only negative price |
| LineFraming.SplitLines | services/serialService.ts:77 | `split(/\r?\n/)`: cut at every `\n`, dropping one `\r` before it; there is always at least one piece, so `pop()` always has a piece to return |
| LineFraming.SplitIsLinesThenRemainder | services/serialService.ts:77-79 | `split` then `pop`: every piece but the last is a complete line, and the popped piece is the fragment after the last `\n` |
| LineFraming.Reconstruct | services/serialService.ts:77-79 | each complete line has one terminator; the lines joined with their terminators, followed by the kept fragment, give back the buffer exactly |
| LineFraming.LinesHaveNoNewline | services/serialService.ts:77 | no line handed to the parser contains `\n` |
| LineFraming.TerminatorTakesCR | services/serialService.ts:77 | a terminator is `\r\n` or `\n`; a `\r` right before a `\n` goes with the terminator and is never left on the line; a lone `\r` is not a terminator |
| LineFraming.RemainderIsSuffix | services/serialService.ts:79 | the kept fragment is the suffix of the buffer that starts at its beginning or right after a `\n` |
| LineFraming.NoNewlineInRemainder | services/serialService.ts:79 | the kept fragment holds no `\n`; text without `\n` completes no line and is kept whole |
| LineFraming.LinesAppend | services/serialService.ts:75-83 | the complete lines of `x + y` are those of `x` followed by those of (fragment of `x`) + `y` |
| LineFraming.RemainderAppend | services/serialService.ts:75-83 | the fragment of `x + y` is the fragment of (fragment of `x`) + `y` |
| LineFraming.CarriageReturnsExample | services/serialService.ts:77 | `a\r\r\nb\n` splits into the lines `a\r` and `b` and an empty fragment: only the `\r` right before a `\n` is taken |
| SerialService.Readings | services/serialService.ts:81-83 | the weights of a run of lines, one per line that yields one, in order; never more weights than lines |
| SerialService.ReadingsAppend | services/serialService.ts:81-83 | the readings of two runs of lines are the readings of each, in order |
| SerialService.FeedChunk | services/serialService.ts:75-83 | what a chunk adds: the readings of the lines it completes after the old fragment; the new fragment depends only on the old fragment and the chunk |
| SerialService.ProcessLines | services/serialService.ts:81-83 | the loop over the complete lines reports exactly one weight per line that yields one, in line order |
| SerialService.RemainderUnterminated | services/serialService.ts:79 | what is kept in the buffer never contains `\n` |
| SerialService.UnterminatedStaysWhole | services/serialService.ts:75-79 | a buffer without `\n` completes no line and is kept unchanged |
| SerialService.LineReassembler.constructor | services/serialService.ts:67 | the buffer starts empty, which holds no complete line |
| SerialService.LineReassembler.Feed | services/serialService.ts:75-83 | after a chunk, the buffer is exactly the text after the last `\n` of old buffer ++ chunk; the weights are those of the lines the chunk completes; an empty chunk changes nothing; the buffer keeps holding no `\n` |
| SerialService.ReadLoop | services/serialService.ts:67-84 | chunk-boundary independence: the weights are those of the complete lines of the concatenated text, in order, and the final buffer is its trailing fragment, however the text was cut into chunks |
| ScaleParser.MatchLength | services/serialService.ts:98 | the length of the match starting at `i`, 0 when none starts there; the match stays within the line (its meaning is proved in MatchIsLiteral and MatchIsGreedy) |
| ScaleParser.Tokens | services/serialService.ts:98 | the global match: the leftmost match, then the search resumes after it; it carries no contract of its own: TokensCoverDigits states that it yields every match without overlap, and TokensAreLiterals, TokensIffDigit and TokensSkip state what each token is |
| ScaleParser.TokensCoverDigits | services/serialService.ts:98 | every digit of the line lies in exactly one token: the tokens, written one after another, hold as many digits as the line, so no match is dropped and no two overlap |
| ScaleParser.DigitRunIsMaximal | services/serialService.ts:98 | `\d+` is greedy: the run is all digits and stops at the end of the line or at a non-digit |
| ScaleParser.MatchLengthStarts | services/serialService.ts:98 | a match begins exactly at a digit, or at a sign followed by a digit |
| ScaleParser.MatchIsToken | services/serialService.ts:98 | the matched text starts with a digit or with a sign and a digit |
| ScaleParser.MatchIsLiteral | services/serialService.ts:98 | every match is, as a whole, a literal of `[+-]?\d+(\.\d+)?` (`IsLiteral`, written from the grammar) |
| ScaleParser.MatchIsGreedy | services/serialService.ts:98 | matches are greedy: no longer text from the same start is a literal |
| ScaleParser.TokensAreLiterals | services/serialService.ts:98 | every token of the global match is a whole literal of the pattern |
| ScaleParser.TokensStartWellFormed | services/serialService.ts:98 | every token of the global match starts like a number |
| ScaleParser.TokensIffDigit | services/serialService.ts:98-99 | the global match finds something exactly when the line holds a digit |
| ScaleParser.TokensSkip | services/serialService.ts:98 | positions where no match can begin contribute no token |
| ScaleParser.ParseFloat | services/serialService.ts:102 | `parseFloat` on a match: a number exactly when the text starts with a digit or a sign and a digit |
| ScaleParser.ParseFloatSign | services/serialService.ts:102 | a parsed token is at most zero when it starts with `-` and at least zero otherwise |
| ScaleParser.ReduceMax | services/serialService.ts:103 | `reduce((max, current) => current > max ? current : max, acc)`: from a number, never NaN and never below the start value |
| ScaleParser.ParseScaleString | services/serialService.ts:96-109 | a line raises a callback exactly when the global match finds something, and the weight is never negative |
| ScaleParser.ReduceMaxIsMaximum | services/serialService.ts:103 | reducing with `>` from a number is never NaN; the result is at least the start value and every numeric value, and is the start value or one of the values |
| ScaleParser.TokenParses | services/serialService.ts:102 | `parseFloat` of matched text is never NaN |
| ScaleParser.ParseScaleStringSpec | services/serialService.ts:96-109 | a line raises a callback exactly when it holds a digit; every token is a number; the weight is at least 0, at least every token value, and is 0 or one of them |
| ScaleParser.SampleLineSkipsHeader | services/serialService.ts:98 | in `ST,GS,+  20340 kg` the status letters, the commas and the `+` followed by spaces start no match |
| ScaleParser.SampleLineWeightMatch | services/serialService.ts:98 | the match at the weight is the five digits `20340` |
| ScaleParser.SampleLineSkipsUnit | services/serialService.ts:98 | the unit ` kg` starts no match |
| ScaleParser.SampleLineTokens | services/serialService.ts:98 | the sample line yields the single token `20340` |
| ScaleParser.SampleTokenValue | services/serialService.ts:102 | `parseFloat("20340")` is 20340 |
| ScaleParser.ParseSampleLine | services/serialService.ts:96-107 | the sample line reports 20340 |
| ScaleParser.NegativeLineTokens | services/serialService.ts:98 | `-150 kg` yields the single signed token `-150` |
| ScaleParser.NegativeTokenValue | services/serialService.ts:102 | `parseFloat("-150")` is -150 |
| ScaleParser.ParseNegativeLine | services/serialService.ts:103 | a line whose only token is negative reports 0, not the token |
| ScaleParser.FractionTokenValue | services/serialService.ts:102 | `parseFloat("12.5")` is 12.5: the digits after the point count as a fraction |
| ScaleParser.SecondPointSplits | services/serialService.ts:98 | `1.2.3` gives the matches `1.2` and `3`: a fraction takes one point, and the next match resumes after it |
| Stability.Step | App.tsx:75-92 | one tick: a weight below 100 re-arms without firing; a fire happens only on a qualifying tick and leaves the detector triggered with the count past 10 |
| Stability.StepRules | App.tsx:75-92 | a weight below 100 re-arms; only a qualifying tick (above 500, not triggered, not processing) changes the state, by one count; every other tick changes nothing; the tick fires exactly when the count passes 10; reachability (count in 0..11, triggered iff count > 10) is kept |
| Stability.RunKeepsValid | App.tsx:75-92 | every run of ticks from a reachable state stays reachable |
| Stability.NoRefireUntilDeparture | App.tsx:76-90 | once triggered, no tick fires and the state does not change while the weight stays at or above 100 |
| Stability.AtMostOneFirePerVisit | App.tsx:75-92 | without a departure in between, at most one tick fires |
| Stability.SustainedLoadFiresOnce | App.tsx:82-92 | a sustained qualifying load fires exactly once, on the tick that takes the count past 10 |
| Stability.FiresOnEleventhTick | App.tsx:82-92 | from start-up, a sustained load fires exactly on its eleventh tick |
| Stability.Detector.constructor | App.tsx:24-26 | the refs start at count 0, not triggered |
| Stability.Detector.Tick | App.tsx:71-94 | the in-place update of the two refs is one `Step` of the state machine, and keeps the state reachable |
| Ledger.Abs | App.tsx:122 | the net weight is non-negative and is the difference or its negation |
| Ledger.DefaultMaterial | App.tsx:14 | the material selected at start-up is the first catalogue entry, `mixed` at 0.15 per kg |
| Ledger.FindMaterial | App.tsx:199 | `find`, falling back to entry 0: the first entry with the id when there is one (earlier entries all have other ids), else the first entry |
| Ledger.SelectMaterial | App.tsx:199 | on the catalogue (distinct ids), an option id selects its entry, and an unknown id falls back to entry 0 |
| Ledger.FindOpenTicket | App.tsx:112-114 | the index of the first ticket with this plate in status open, or -1 exactly when there is none |
| Ledger.CloseTicket | App.tsx:120-133 | the outbound leg: the ticket becomes completed with the outbound weight, image and time; its net weight and cost are set together, as the difference of the two weighings and that net at the ticket's own price; its inbound fields are kept |
| Ledger.OpenTicket | App.tsx:143-152 | the inbound leg: an open ticket with the fresh id, the plate, the current weight and the selected material's name and price, and no outbound fields |
| Ledger.HandleCapture | App.tsx:112-157 | outbound: the first open ticket for the plate is completed in place, with net weight the absolute difference of the two weighings and cost at the ticket's own price, and its inbound fields kept; the length is unchanged and every other ticket is unchanged. Inbound: one open ticket with the selected material, current weight, fresh id and no outbound fields is put in front of the unchanged list |
| Ledger.HandleCaptureKeepsInvariant | App.tsx:112-157 | a capture keeps at most one open ticket per plate, distinct ids, outbound fields set together exactly on completed tickets, and no voided ticket |
| Ledger.InThenOut | App.tsx:118-154 | weighing in then out completes the ticket the first capture opened, with net weight and cost at the weigh-in material's price, whatever is selected at weigh-out |
| Ledger.RoundTripExample | App.tsx:118-154 | 12000 kg in and 4000 kg out of mixed waste completes one ticket of 8000 kg costing 1200 |
| Ledger.UnreadPlatesPairUp | App.tsx:112-114 | two trucks whose plates came back as the same sentinel, `UNKNOWN` or `MANUAL_CHECK`, are paired as the two legs of one ticket |
| Ledger.OtherPlatesUntouched | App.tsx:135-154 | a capture keeps every ticket of every other plate, and adds none |
| Ledger.ScrapMetalIsPayout | App.tsx:123 | a completed scrap-metal ticket with positive net weight has a negative total cost |

## Left out

- Web Serial plumbing is not modelled. This covers `connect`, `disconnect`, the
  port, `TextDecoderStream`, `reader.read()`, the `isReading` flag and the
  error handler. The read loop is given the finite sequence of decoded chunks
  that arrive before the stream closes.
- The weight callback is not modelled as a call. The weights it would receive
  are returned as a sequence, in order.
- `parseFloat` is modelled only on text that starts like a match. This is all
  the regex ever hands it. Exponents, `Infinity` and leading whitespace are not
  modelled.
- Floating point is not modelled. Weights, `Math.abs` and the cost product are
  exact reals, with no IEEE rounding.
- The timers and React machinery are not modelled: `setInterval`,
  `setTimeout`, the effect re-created on `isProcessing`, the 1500 ms reset,
  and the `triggerCamera` state. One tick is one call to `Tick`, and
  `isProcessing` is an input.
- The asynchronous plate recognition is not modelled. Neither are the stale
  `tickets` captured by the closure or the `setTickets` updater. The ledger
  step is one atomic function on an explicit ticket list. Only the two
  sentinel plates the recognition service returns are kept, as constants.
- Ledger.HandleCapture requires the fresh id to be absent from the list. It
  does not model `crypto.randomUUID`, which gives that in practice.
- `simulateScale` is not modelled: it is random and timer-driven.
- The manual capture button is not modelled, nor are the camera, receipt and
  indicator components and the rendering.
- Images and timestamps are opaque parameters.
