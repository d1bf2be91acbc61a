# A verified model of the distributed-systems labs

This project models the parts of the repository whose correctness is not visible from reading one
function, and proves what they promise. The models are written in Dafny; each module names the part it
models.

- **The parallel pipeline of lab-2** (`FileReading`, `Sequences`, `Sorting`, `Text`, `Pipeline`, `PipelineRuns`): a
  transition system with one worker goroutine per strategy, a printer behind an unbuffered channel, a
  buffered result channel, and main. The number of strategies, the words of the file, the parser, which
  opens succeed and the schedule are arbitrary. A send on a closed channel is a state of the model
  (`Crashed`), so that its absence is something to prove. The method `Process` drives the system under an
  arbitrary scheduler.
- **The strategies** (`Arithmetic`, `Primes`, `LastPrime`, `Fibonacci`, `Pythagoras`, `DefaultStrategies`): the four
  number-theoretic functions in 64-bit arithmetic with its wrap-around, the exact inputs for which they
  give the mathematical answer, and the default table put through the pipeline from end to end.
- **The blur of lab-1** (`BlurPasses`, `BlurProperties`, `BlurMeaning`): two clamped one-dimensional convolutions over the
  reals with eight-bit rounding after each.
- **The TCP server** (`TcpServer`): accept loop, handlers, connection map and `Shutdown` as a transition
  system with one step for each critical section or blocking call.
- **The wire frame of lab-1** (`Frame`): both directions, over a stream that arrives in arbitrary nonempty
  chunks and a connection that may break at any byte.
- **Supporting parts**: `Retry` (lib/retry), `CamelSnake`, `Config`, `ConfigKeys` (lib/config), and
  `TextOrder`, `GoWork` (registration in `go.work`).

## Findings

Where a natural expectation does not hold of the code, the model keeps the code and proves the exact
boundary:

- After an error return of `Process` the `lines` channel is never closed. All workers still end unless they hang, but the
  printer goroutine stays blocked for ever, exactly when the job is not clean (`PrinterLeaks`), and lines
  may still be printed after the return, exactly when some worker fails and some worker has a line to send:
  an ordinary file with a bad word after a number is enough (`LateLineIff`, `LateLineExample`).
- `Process` never returns when a strategy hangs and no worker reports an error (`ReturnsIff`). The default
  table hangs on the largest 64-bit number above a, and on nothing else (`HangsIff`, `DefaultReturnsIff`).
- The error that `Process` returns depends on the schedule exactly when some opens fail and those that
  succeed meet an error too (`ScheduleIndependence`).
- `Shutdown` returning nil does not by itself mean that no connection is live, not even when the accept loop
  has ended by then (`ExitedAtReturnIsNotEnough`). It does exactly when, at the poll that saw the empty map,
  the accept loop held no connection between `Accept` and the insertion, or the one it held has been closed
  by the return (`NilMeansDrained`).
- 64-bit trial division overflows exactly on primes above 3037000499 squared (`TrialSquaresFit`), and yet its
  answer is right for every 64-bit number (`IsPrime`). The search for the next prime is right exactly below
  2^63 - 25, the largest prime in 64 bits, and from there on returns 2 (`Strategy1`, `PrimeLeftIff`).
- The Fibonacci sums overflow exactly from F(92) on (`SumsFit`), and from there on every answer is wrong
  (`LoopResultRight`); for the largest 64-bit number above a the loop never ends (`LoopEnds`).
- The Pythagorean search is safe exactly while the square of the hypotenuse fits (`LegArithmeticFits`).
  Beyond, it misses every triangle, and it can report legs that are none: at 4294967298 it prints
  "2² + 131072² = 4294967298²" (`AnswerRightIff`, `WrongBeyondRoot`, `FalseEquation`).
- The waits of `lib/retry` wrap for delays from 2^33 nanoseconds on, when there are enough attempts; the first
  one that does comes out negative, which is no wait at all (`WaitsFit`, `FirstWrapIsNegative`).
- `writeFrame` sends the eight bytes of sigma before it rejects an image that is too large (`WriteFrame`).
- `retry.Get` and `retry.Do` report success without a call when no attempts are allowed (`Get`, `Do`).
- Distinct configuration keys can read the same environment variable (`VariablesCanCollide`), exactly when
  the names on their paths spell the same words (`VariablesDistinctIff`).

## Model

| member | source | states |
|---|---|---|
| FileReading.AdvanceDelivers | lab-2/internal/reader/file_reader.go:32-55 | the reader yields the good words in order, then stops with the file's verdict, and stays there on every later call |
| FileReading.FileReader.Next | lab-2/internal/reader/file_reader.go:32-49 | one call: nothing after a stored error; at the end the scan error if there is one; otherwise the next word as a number, or its parse error, with value 0 on failure |
| FileReading.ReadAll | lab-2/internal/reader/process.go:89-101 | a worker's read loop delivers the numbers before the first bad word and ends without error iff every word parses and the scan does not fail, else with the first bad word's error, else with the scan's |
| FileReading.VerdictMeaning | lab-2/internal/reader/file_reader.go:36-46 | the same of the verdict that the pipeline's workers report |
| FileReading.CountTokens | lab-2/internal/reader/file_reader.go:80-89 | counting scans every word, parsable or not, and returns the read error if there is one |
| Sorting.SortedUnique | lab-2/internal/reader/process.go:116-118 | an unstable sort by ID has one possible result when equal IDs mean equal entries |
| Pipeline.StepKeepsInv | lab-2/internal/reader/process.go:65-129 | every step of every goroutine keeps the invariant that ties printed lines, the line in the printer's hand, each worker's count, the messages and main's phase together |
| PipelineRuns.ChannelSafety | lab-2/internal/reader/process.go:79-103 | no run sends on a closed channel; a closed channel has only finished workers; a worker ready to report never finds the result channel full |
| PipelineRuns.StuckIffAtRest | lab-2/internal/reader/process.go:65-129 | a reachable state has no enabled step iff all workers have ended or hang in a strategy, main has returned or waits for a result that never comes, and the printer has ended (success) or is receiving for ever |
| PipelineRuns.StepLowersWeight | lab-2/internal/reader/process.go:65-129 | every step strictly decreases a weight that stays nonnegative |
| PipelineRuns.RunsAreShort | lab-2/internal/reader/process.go:65-129 | every run has at most n(3g+5)+4 steps for n strategies and g good words, so every run comes to rest |
| PipelineRuns.ReturnsIff | lab-2/internal/reader/process.go:106-129 | whatever the schedule, Process returns iff no worker hangs or some worker reports an error |
| PipelineRuns.CanComeToRest | lab-2/internal/reader/process.go:107-111 | from every reachable state, also after an early error return, the run can be completed until every worker has ended or hangs |
| PipelineRuns.PrintedIsPrefix | lab-2/internal/reader/process.go:68-73 | at any moment each worker's printed lines are a prefix of its lines in file order |
| PipelineRuns.OutputIsExact | lab-2/internal/reader/process.go:89-102 | on successful return, and at rest after an error, the printed lines project on each worker to exactly its formatted results in file order, and come from no one else |
| PipelineRuns.ReportMeaning | lab-2/internal/reader/process.go:116-124 | the one possible report is sorted by ID, has one entry per strategy, every count equals the number of words, and the totals are words and strategies times words |
| PipelineRuns.Outcome | lab-2/internal/reader/process.go:106-129 | whatever the schedule, success iff all opens succeed, every word parses, the scan does not fail and every call ends, then with that report; otherwise an error some worker reports: a failed open, the first bad word, or the failed scan |
| PipelineRuns.HangsAndFails | lab-2/internal/reader/process.go:81-103 | a worker hangs iff it opened the file and meets, before any bad word, a number on which its strategy never returns; it fails iff its open fails, or it does not hang and the file does not read well |
| PipelineRuns.RunsAgree | lab-2/internal/reader/process.go:106-129 | two runs agree on success and report, and on the error unless rival errors exist |
| PipelineRuns.EveryErrorCanWin | lab-2/internal/reader/process.go:107-111 | every error some worker reports is returned by some run |
| PipelineRuns.ScheduleIndependence | lab-2/internal/reader/process.go:106-129 | all runs that return have the same outcome iff it is not the case that some open fails, some worker that opens the file ends, and the file's verdict is an error |
| PipelineRuns.PrinterLeaks | lab-2/internal/reader/process.go:107-127 | at rest the printer is left receiving for ever iff the job is not clean |
| PipelineRuns.LateLineIff | lab-2/internal/reader/process.go:107-111 | some run prints a line after the return iff some worker fails and some worker has a line to send; without hanging workers, iff the job is not clean, has a good word, and someone opens the file |
| PipelineRuns.LateLineExample | lab-2/internal/reader/process.go:107-111 | an ordinary such job: one strategy and a file with a bad word after a number |
| PipelineRuns.EveryOperationIsPrinted | lab-2/internal/reader/process.go:119-127 | a successful run prints exactly TotalOps lines |
| PipelineRuns.EveryRunIsPlayed | lab-2/internal/reader/process.go:55-130 | every run is what the schedule that names its steps leads to |
| PipelineRuns.Process | lab-2/internal/reader/process.go:55-130 | empty path and no strategies are rejected; otherwise, under any schedule, it ends where the schedule leads, returns or waits for ever as ReturnsIff says, and outcome and output are as above |
| Primes.IsPrime | lab-2/internal/reader/strategy.go:44-54 | in 64-bit arithmetic, and although squares wrap for large primes, decides primality of every 64-bit number |
| Primes.TrialSquaresFit | lab-2/internal/reader/strategy.go:48-52 | the squares compared for n all fit in 64 bits iff n is at most 3037000499 squared or not prime |
| Primes.PrimeAbove | lab-2/internal/reader/strategy.go:12-16 | there is a prime above every number, which is why the search ends |
| Primes.Strategy1 | lab-2/internal/reader/strategy.go:8-17 | in 64-bit arithmetic, -1 unless the input is above a, else the least prime above the input, or 2 by wrapping around when no larger prime fits in 64 bits |
| LastPrime.LastPrimeIsPrime | lab-2/internal/reader/strategy.go:12-16 | 2^63 - 25 is prime, by an element of large order |
| LastPrime.PrimeLeftIff | lab-2/internal/reader/strategy.go:12-16 | a larger prime fits in 64 bits iff the input is below 2^63 - 25, which is when the search is right |
| Primes.SearchFits | lab-2/internal/reader/strategy.go:8-17 | every candidate and square of the whole search fits in 64 bits iff the next prime is at most 3037000499 squared |
| Fibonacci.Strategy3 | lab-2/internal/reader/strategy.go:26-35 | in 64-bit arithmetic, -1 unless the input is above a, else the first wrapped Fibonacci number above it; it is the next Fibonacci number iff the input is below F(92), and then comes after logarithmically many rounds |
| Fibonacci.LoopEnds | lab-2/internal/reader/strategy.go:31-33 | the loop ends for every 64-bit input but the largest |
| Fibonacci.LargestIsReached | lab-2/internal/reader/strategy.go:31-33 | the wrapped sequence takes the value 2^63 - 1, which is why the loop ends |
| Fibonacci.LoopResultRight | lab-2/internal/reader/strategy.go:31-34 | what the loop stops with is the next Fibonacci number iff the input is below F(92) |
| Fibonacci.SumsFit | lab-2/internal/reader/strategy.go:30-33 | the sums computed all fit in 64 bits iff the input is below F(92) = 7540113804746346429 |
| Fibonacci.FibDouble | lab-2/internal/reader/strategy.go:30-33 | the doubling law behind the values of F(92) and F(93) and the wrapped sequence |
| Pythagoras.PythagoreanLegs | lab-2/internal/reader/strategy.go:56-66 | in 64-bit arithmetic the search ends for every hypotenuse, with the first x before the guard fails whose wrapped remainder is a square, or with nothing |
| Pythagoras.SearchUnique | lab-2/internal/reader/strategy.go:56-66 | that leaves one answer for every hypotenuse, whatever the root function does off the squares |
| Pythagoras.AnswerRightIff | lab-2/internal/reader/strategy.go:56-66 | the answer is complete, with x the smallest leg and x < y, iff the hypotenuse is at most 3037000499 in size or has no legs and the search finds nothing; for hypotenuses iff at most 3037000499; below 2^32 iff at most 3037000499 or without legs |
| Pythagoras.NothingBeyondGuard | lab-2/internal/reader/strategy.go:58 | stopping once 2x^2 reaches the square of the hypotenuse loses no triangle |
| Pythagoras.NoEqualLegs | lab-2/internal/reader/strategy.go:58 | 2u^2 = h^2 has no positive solution, by infinite descent |
| Pythagoras.LegArithmeticFits | lab-2/internal/reader/strategy.go:57-61 | the squares, doubled squares and squared roots computed all fit in 64 bits iff the hypotenuse is at most 3037000499 in size |
| Pythagoras.WrongBeyondRoot | lab-2/internal/reader/strategy.go:57-62 | a hypotenuse whose legs are not found, and the number 2^32 + 2 for which 2 and 131072 are found, which are no legs |
| DefaultStrategies.Strategy2 | lab-2/internal/reader/strategy.go:19-24 | 1 exactly when the input is some multiple of a, and otherwise 0 |
| DefaultStrategies.Strategy4 | lab-2/internal/reader/strategy.go:37-42 | prints what the search answers; the line is the triangle with the smallest leg, or that there is none, exactly where that answer is right |
| DefaultStrategies.FalseEquation | lab-2/internal/reader/strategy.go:38-39 | the false equation printed for 2^32 + 2 |
| DefaultStrategies.Apply | lab-2/internal/reader/process.go:30-53 | the closures of the table return what their strategies specify |
| DefaultStrategies.AnswersUnique | lab-2/internal/reader/process.go:30-53 | that specification leaves one text for every entry and every 64-bit number |
| DefaultStrategies.RightIff | lab-2/internal/reader/process.go:30-53 | the printed answer is the mathematical one iff the input is at most a or below 2^63 - 25 (first), always (second), iff it is at most a or below F(92) (third), iff it is at most 3037000499 in size or neither has legs nor any are found (fourth) |
| DefaultStrategies.TellsIff | lab-2/internal/reader/process.go:30-53 | the mathematical answer is a text whose numbers read back as the next prime, the next Fibonacci number, or the smallest legs |
| Text.ItoaWrites | lab-2/internal/reader/process.go:35 | the text of a number reads back from left to right as that number, without a leading zero |
| Text.WritesOnlyItoa | lab-2/internal/reader/process.go:35 | no other text does |
| DefaultStrategies.HangsIff | lab-2/internal/reader/strategy.go:31 | of the default strategies only the third hangs, and only on the largest 64-bit number above a |
| DefaultStrategies.DefaultReturnsIff | lab-2/internal/reader/process.go:106-129 | a default run returns unless that number is in the file and there is no error to return |
| DefaultStrategies.DefaultRunReport | lab-2/internal/reader/process.go:30-53 | a successful default run reports strategies 1 to 4 with one operation per number |
| DefaultStrategies.DefaultRunLines | lab-2/internal/reader/process.go:95 | each strategy's line for the k-th word reads back as its number and the word's number, and gives its 64-bit answer, which is the mathematical one exactly under those conditions |
| DefaultStrategies.ExampleLines | lab-2/internal/reader/process.go:95 | the four lines printed for the number 5 with a = 3 |
| BlurPasses.RangeExact | lab-1/internal/service/blur.go:76-81 | every rounded sum of byte samples is a byte iff the nonnegative weights sum to less than 511/510 |
| BlurPasses.ConvolveX | lab-1/internal/service/blur.go:65-82 | one output pixel of the horizontal pass: each channel is the rounded weighted sum of the pixels from x minus the radius on, the nearest inside the bounds where that is outside |
| BlurPasses.ConvolveY | lab-1/internal/service/blur.go:84-101 | one output pixel of the vertical pass, likewise along the column |
| BlurPasses.Blur2D | lab-1/internal/service/blur.go:45-63 | the loops fill the result with the vertical pass over the horizontal pass; every channel is the rounded sum over the rounded rows, in the image's own coordinates |
| BlurPasses.BlurFormula | lab-1/internal/service/blur.go:45-101 | that formula for the two passes as functions |
| BlurPasses.RoundedIs | lab-1/internal/service/blur.go:76-81 | rounding goes to the nearest integer, halves upwards |
| BlurMeaning.BlurIsConvolution | lab-1/internal/service/blur.go:45-101 | every channel is within 1 of the unrounded double sum over the pixels under the kernel, or the nearest ones inside |
| BlurMeaning.InteriorBlur | lab-1/internal/service/blur.go:65-90 | away from the edges that double sum is plainly that of pixel (x + i - radius, y + j - radius) times its two weights |
| BlurMeaning.BrightPixel | lab-1/internal/service/blur.go:65-101 | one white pixel on black spreads to the rounded product of its column's and its row's weight |
| BlurProperties.BlurAccuracy | lab-1/internal/service/blur.go:45-101 | every channel is within 1 of the unrounded two-dimensional convolution with the product kernel |
| BlurProperties.BlurBetween | lab-1/internal/service/blur.go:65-101 | every output lies between the least and greatest value of its clamped window |
| BlurProperties.ConstantIsFixed | lab-1/internal/service/blur.go:65-101 | a constant picture is a fixed point |
| BlurProperties.BlurMonotone | lab-1/internal/service/blur.go:65-101 | a pointwise larger picture blurs to a pointwise larger one; only pixels inside the bounds matter |
| BlurProperties.BoundsDoNotMatter | lab-1/internal/service/blur.go:46-54 | where the source's bounds start does not matter |
| BlurMeaning.MirrorHorizontally | lab-1/internal/service/blur.go:65-72 | blurring commutes exactly with mirroring left and right, clamped edges included |
| BlurMeaning.MirrorVertically | lab-1/internal/service/blur.go:84-89 | blurring commutes exactly with mirroring top and bottom |
| BlurProperties.GaussianKernel | lab-1/internal/service/blur.go:28-43 | the kernel is positive, symmetric, sums to one, and is proportional to the bell's values |
| BlurProperties.BellKernelUnique | lab-1/internal/service/blur.go:28-43 | only one normalised kernel of a size is proportional to the bell, so the blur's output is determined |
| BlurProperties.Blur | lab-1/internal/service/blur.go:18-26 | a copy, pixel by pixel, when sigma is not positive, otherwise the blur with the bell's kernel of radius three sigma rounded up plus one |
| TcpServer.MapIsExact | lib/tcp/server.go:70-107 | in every reachable state the map holds exactly the registered and not yet deleted connections, and deleted connections are closed |
| TcpServer.AtMostOneLateRegistration | lib/tcp/server.go:109-111 | once the listener is closed nothing is accepted, and only a connection already held by the accept loop can still be registered |
| TcpServer.DrainGuarantee | lib/tcp/server.go:116-123 | when a poll sees the empty map, no connection is live from the poll onwards iff the accept loop held none it had yet to insert |
| TcpServer.NilMeansDrained | lib/tcp/server.go:109-131 | every run to a returned nil contains a poll that saw the empty map; all is drained at the return iff the accept loop held no connection at that poll or that connection's handler has finished since, and nothing is live at or after the return iff it held none or that one is closed |
| TcpServer.WorkRunsOut | lib/tcp/server.go:93-131 | after the listener closes every step of the accept loop and the handlers uses up work, and polling uses none |
| TcpServer.NoWorkMeansDrained | lib/tcp/server.go:116-123 | when no such step is left the server is drained, so the next poll of a patient Shutdown ends it with nil |
| TcpServer.PatientShutdown | lib/tcp/server.go:93-131 | after the listener closes no run has more than a fixed number of accept-loop and handler steps, and from every later state with Shutdown unfinished the run can go on to a drained nil |
| TcpServer.ExitedAtReturnIsNotEnough | lib/tcp/server.go:109-131 | a run in which the accept loop has exited when Shutdown returns nil and a connection is live |
| TcpServer.StateIsHistory | lib/tcp/server.go:64-107 | every part of the state is what the run has done: the map, the open connections, the handlers, the listener and the accept loop, which exits only by the closed listener |
| TcpServer.CancelEnds | lib/tcp/server.go:125-127 | in every wait the end of the context makes Shutdown return the error and do nothing more |
| TcpServer.ShutdownResult | lib/tcp/server.go:116-130 | Shutdown's result is nil iff a poll saw the empty map, and the error iff the context ended one of its waits |
| Frame.BytesRoundTrip | lab-1/internal/delivery/tcp/blur_handler.go:77-110 | a stream is read as a payload iff it starts with that payload's encoding, and the rest is left |
| Frame.FrameRoundTrip | lab-1/cmd/client/main.go:184-206 | the same for the whole frame, for every bit pattern of sigma |
| Frame.StrictPrefixFails | lab-1/cmd/client/main.go:184-206 | no strict prefix of a frame is read as a frame |
| Frame.StrictPrefixOfBytesFails | lab-1/internal/delivery/tcp/blur_handler.go:95-110 | no strict prefix of a length-prefixed payload is read as one |
| Frame.ServerAgreesWithClient | lab-1/cmd/client/main.go:184-206 | over a connection that breaks anywhere and loses any tail of what was written, the server's reads succeed iff the whole frame arrived, and return what was sent; if all that was written arrives, they succeed iff writeFrame did |
| Frame.EncodedByte | lab-1/cmd/client/main.go:185-186 | numbers are written least significant byte first |
| Frame.HeaderBytes | lab-1/cmd/client/main.go:196-197 | the four bytes of a length |
| Frame.ReadOutcomes | lab-1/internal/delivery/tcp/blur_handler.go:77-93 | every way reading a payload ends, byte by byte, with its error |
| Frame.RequestOutcomes | lab-1/internal/delivery/tcp/blur_handler.go:36-46 | the same for sigma and payload |
| Frame.Limit | lab-1/internal/delivery/tcp/blur_handler.go:18-85 | 10485760 bytes are accepted and 10485761 rejected |
| Frame.ReadFull | lab-1/internal/delivery/tcp/blur_handler.go:71 | however the stream is chunked, the buffer receives its next bytes, or the right error is returned |
| Frame.ReadFloat64 | lab-1/internal/delivery/tcp/blur_handler.go:69-75 | reads sigma from any chunking as from the whole stream |
| Frame.ReadBytes | lab-1/internal/delivery/tcp/blur_handler.go:77-93 | reads a payload from any chunking as from the whole stream, rejecting lengths above 10 MiB |
| Frame.ReadFrame | lab-1/cmd/client/main.go:208-224 | the client's reads do the same |
| Frame.ReadRequest | lab-1/internal/delivery/tcp/blur_handler.go:36-46 | the server's two reads parse a frame |
| Frame.WriteFrame | lab-1/cmd/client/main.go:184-206 | what is on the wire for every size and every break, and when the write succeeds |
| Frame.WriteBytes | lab-1/internal/delivery/tcp/blur_handler.go:95-110 | the server's answer, with the size checked before anything is written |
| Retry.Get | lib/retry/retry.go:17-38 | exactly the calls up to the first success, last attempt or cancelled wait, the 64-bit waits between them, and the outcome |
| Retry.Do | lib/retry/retry.go:40-56 | the same for a function that only returns an error |
| Retry.DoAgreesWithGet | lib/retry/retry.go:17-56 | on the same answers and cancellations both end with the same call and the same outcome |
| Retry.RunLaw | lib/retry/retry.go:17-56 | at most the allowed calls, none after a success, and when each kind of outcome occurs |
| Retry.FullyFailedRun | lib/retry/retry.go:17-56 | a fully failed run makes every call, and waits for the closed form iff no wait wraps |
| Retry.TotalWait | lib/retry/retry.go:10-15 | the 64-bit waits sum to the delay times 2^n - 1, linear after the cap, iff no wait wraps, and fall short of it otherwise |
| Retry.WaitsFit | lib/retry/retry.go:8-15 | for a positive delay the waits of n attempts are as intended iff all are positive, iff the last fits in 64 bits, and then never shrink; for every n iff the delay is below 2^33 |
| Retry.IntendedWaits | lib/retry/retry.go:10-15 | the first wait is the delay, each further one twice the last, up to thirty doublings |
| CamelSnake.CamelToSnake | lib/config/config.go:94-109 | for any letter tables the loop puts an underscore at each break and lowers each letter; for tables that extend ASCII it computes the snake-case form of ASCII names |
| CamelSnake.SnakeInvertsPascal | lib/config/config.go:94-109 | the name made of words and acronyms turns into them in lower case joined by underscores, with neighbouring acronyms run together; splitting recovers the words iff no two acronyms are neighbours |
| CamelSnake.SnakeIdempotent | lib/config/config.go:94-109 | converting twice changes nothing more |
| CamelSnake.SnakeOfParts | lib/config/config.go:98-105 | between two parts of a name there is an underscore iff a capital follows a small letter, or a capital before a small letter follows a capital; none follows a digit |
| CamelSnake.SnakeOfOne | lib/config/config.go:106 | single characters are only lowered |
| Config.Load | lib/config/config.go:40-84 | for any letter tables the traversal asks for, sets and fails on exactly what the list of exported leaves in order does |
| Config.CollectFields | lib/config/fields.go:20-45 | the listing appends one entry for each exported leaf in order |
| Config.EffectError | lib/config/config.go:61-83 | loading fails iff some leaf does not resolve, and then with the error of the first such leaf |
| Config.EffectAsked | lib/config/config.go:61-83 | the source is asked for the leaves' keys in order, up to and including the first that does not resolve |
| Config.LoadAgreesWithFields | lib/config/fields.go:20-45 | the keys asked for are the first listed keys, all of them on success; loading succeeds iff every listed leaf has a parsable value, a parsable default in its place, or neither but is optional |
| Config.SlotsAreTheLeaves | lib/config/config.go:43-60 | the listed leaves are those reached through exported fields, with the dotted snake names as keys |
| Config.LoadFills | lib/config/config.go:61-83 | what is set and which error is returned, from the source, the parser and the tags alone: the parsed value, else the parsed default, else nothing, leaf by leaf up to the first that cannot be filled |
| Config.LoadAll | lib/config/config.go:27-30 | the same of the loading method, which succeeds iff every leaf can be filled |
| Config.InfoMeaning | lib/config/fields.go:37-42 | each listed entry shows the key, the default tag, whether it is empty, and the source key |
| ConfigKeys.KeysDistinct | lib/config/config.go:86-92 | no two leaves share a key when exported siblings have different snake names |
| ConfigKeys.ListedVariablesDecide | lib/config/source.go:38-46 | environments that agree on the listed source keys load alike |
| ConfigKeys.VariableName | lib/config/source.go:38-46 | a variable is the key with small letters as capitals and dots as underscores |
| ConfigKeys.VariableExample | lib/config/source.go:44-46 | db.host is read from DB_HOST |
| ConfigKeys.SameVariableIff | lib/config/source.go:38-46 | two leaves share a variable iff the snake names on their paths, split at underscores, give the same list of words |
| ConfigKeys.VariablesDistinctIff | lib/config/source.go:38-46 | the variables of a tree of ASCII names whose siblings differ are pairwise distinct iff those word lists are |
| ConfigKeys.VariablesCanCollide | lib/config/source.go:44-46 | a tree with distinct keys whose two leaves spell the same words and share a variable |
| GoWork.ParseMeaning | new-lab.py:641-649 | when there is no block, when it is unclosed, and otherwise where it starts and ends |
| GoWork.StripMeaning | new-lab.py:641 | stripping takes white space off both ends, and nothing else |
| GoWork.EntriesMeaning | new-lab.py:649 | the entries are the stripped lines that are not empty, in order |
| GoWork.ParseRender | new-lab.py:639-656 | a rendered file parses to the same surroundings and entries |
| GoWork.RegisteredLine | new-lab.py:648-655 | a new name stands on a line of a tab, "./" and the name |
| GoWork.RegistrationExample | new-lab.py:637-656 | an example file before and after |
| TextOrder.LeqMeaning | new-lab.py:653 | entries are ordered by their first differing character, a prefix first |
| GoWork.AddToGoWork | new-lab.py:637-656 | one registration: the error cases, the no-op, or the rewritten block |
| GoWork.AddAllRegisters | new-lab.py:648-656 | after any registrations the file is untouched, or its block is the sorted former entries and new ones between the same surroundings |
| GoWork.OrderDoesNotMatter | new-lab.py:637-656 | the same set of names in any order and multiplicity gives the same file or the same error |
| GoWork.RepeatIsNoOp | new-lab.py:650-652 | registering a name again changes nothing |

## Left out

- Pipeline and TcpServer: the goroutines' atomic steps are functions on a state value, because the subject is their interleaving; the update in place of slices and of the connection map is not modelled.
- Process: `Duration`, the closing of files and a file that changes during a run are not modelled; a worker's open is an oracle, and the word splitting and integer parsing are parameters.
- FileReading.CountTokens: the errors of opening and closing the file in `Count` are not modelled.
- Fibonacci.Strategy3: the largest 64-bit input, when above a, is excluded because the loop does not end on it (LoopEnds); the pipeline models such a call as a worker that hangs.
- DefaultStrategies.Strategy2: a zero divisor, which panics, is excluded; the program's command line rejects it.
- PythagoreanLegs: `math.Sqrt` between the two float conversions is a parameter, since floating-point rounding is not part of this model; it is taken to be exact on perfect squares, monotone and at most 3037000499, and what it makes of a negative number is taken to be no root of it modulo 2^64.
- BlurProperties.Blur: works over the reals with any positive even weight function; floating-point rounding, vanishing sums, NaN and infinite sigma, and the nil-image branch are not modelled.
- Frame: bytes that were written arrive in order, and only a tail of them can be lost; reads that deliver bytes together with an error, and errors other than the end of the stream, are not modelled.
- Retry: clocks are not modelled; the answer of each call and the winner of each select are oracles, whatever the length of the wait.
- CamelSnake: the letter tables are a parameter, because the Unicode tables are not part of this model; what the snake form means, and when variables coincide, is stated for ASCII names, and upper-casing is that of ASCII.
- Config.Load: reflection is replaced by a tree of fields and the parsers of setField by one partial function; the check of the `Env` value after loading is not modelled.
- GoWork: whitespace outside ASCII, and the reading and writing of the file's text, are not modelled.
- Image codecs, HTTP handlers and middleware, health checks, shutdown manager, logging, authentication, PostgreSQL and Kafka wrappers: thin or with easy properties.
