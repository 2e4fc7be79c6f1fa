# web-rtc-demo signalling transport, modelled in Dafny

The two Angular components `HostGameComponent` and `JoinGameComponent` set up a
WebRTC data channel with no signalling server. The host shows its offer as a URL
and as a row of QR codes. The guest opens the URL and shows its answer the same
way. The host then takes that answer either pasted whole or scanned one QR
segment at a time. This project models the client-side half of that transport:

- **Segments** — `formatted.match(/.{1,128}/g) ?? []` under ECMAScript RegExp
  semantics, and its inverse `join('')`. Under ECMA-262 section 22.2, `.` without
  the `u`/`s` flags matches one UTF-16 code unit other than a LineTerminator
  (ECMA-262 section 12.3: LF, CR, U+2028, U+2029). A Dafny `char` is a Unicode
  scalar value, so the model covers strings whose characters all lie in the Basic
  Multilingual Plane outside the surrogate range, where one character is one code
  unit.
- **ScanSession** — the host's `scannedCodes` list and whether a QR reader is
  running. Inserts are de-duplicated, closing the camera resets the list, and
  reconstruction is the in-order concatenation.
- **Rtc** — `RtcManagerService` seen only through the calls the components make
  on it (`initialize`, `setAnswer`, `addIceCandidates`). `parseFromUrl` is a
  function parameter returning `Option<Signal>`, where `None` means "threw".
- **Readiness** — the `onChannelOpen` gate that starts the game and navigates.
- **Substrings** — `String.prototype.includes`, used to drop "NotFoundException"
  scan noise.
- **HostGame**, **JoinGame** — each component as an immutable state record.
  Every handler is one transition, and event sequences are folded with `Run`.

## Model

| member | source | states |
|---|---|---|
| Segments.GreedyRun | src/app/host-game/host-game.component.ts:75 | the greedy `.{1,n}` match at a position takes at most n code units, none a line terminator, and stops early only at a line terminator |
| Segments.Matches | src/app/host-game/host-game.component.ts:75 | every match of the global pattern is 1..n code units long and holds no line terminator |
| Segments.Split | src/app/host-game/host-game.component.ts:75 | every QR segment is 1..128 units long and free of line terminators; an empty string gives no segments (the `null` of `match` becomes `[]`) |
| Segments.MatchAllNone | src/app/host-game/host-game.component.ts:75 | `match` returns `null` exactly when no code unit of the input can be matched, which includes the empty string |
| Segments.JoinMatches | src/app/host-game/host-game.component.ts:75 | concatenating the matches gives the input with its line terminators removed, and nothing else lost |
| Segments.JoinSplit | src/app/host-game/host-game.component.ts:75 | joining the segments returns the formatted string minus its line terminators |
| Segments.JoinSplitRoundTrip | src/app/join-game/join-game.component.ts:58 | joining the answer's segments returns it exactly, and only if it has no line terminator |
| Segments.Join | src/app/host-game/host-game.component.ts:93 | `join('')` has the total length of the segments, and segment i sits, unchanged, right after segments 0..i-1 |
| Segments.StripIdentity | src/app/host-game/host-game.component.ts:75 | removing line terminators leaves a string unchanged exactly when it has none |
| Segments.SplitCount | src/app/join-game/join-game.component.ts:58 | a line-terminator-free string of length L yields ceil(L/128) segments, every one but the last exactly 128 long |
| ScanSession.Insert | src/app/host-game/host-game.component.ts:119-122 | after a read the code is in the list; earlier entries keep their values and order; the length grows by one exactly when the code is new; the element set gains only the code; distinctness is kept; the reader flag is untouched |
| ScanSession.Stop | src/app/host-game/host-game.component.ts:129-134 | closing drops the reader and, when one was open, empties the list; with no reader nothing changes |
| ScanSession.Reconstruct | src/app/host-game/host-game.component.ts:93 | the reconstruction has the total length of the scanned codes, and each code sits, unchanged, right after the codes scanned before it |
| ScanSession.InsertIdempotent | src/app/host-game/host-game.component.ts:120-121 | a second identical read changes neither the list nor its reconstruction |
| ScanSession.ReconstructInsert | src/app/host-game/host-game.component.ts:119-122 | reconstruction grows by exactly the new code at the end, or not at all for a repeat |
| ScanSession.InsertAllDistinct | src/app/host-game/host-game.component.ts:119-122 | any sequence of reads keeps the scanned list free of duplicates |
| ScanSession.InsertAllOpen | src/app/host-game/host-game.component.ts:119-122 | reads never open or close the reader |
| ScanSession.InsertAllFirstOccurrences | src/app/host-game/host-game.component.ts:119-122 | from an empty list, the list holds exactly the codes read so far, once each, in order of first read |
| ScanSession.OrderedByFirstScanUnique | src/app/host-game/host-game.component.ts:119-122 | two lists over the same codes, both ordered by first read, are equal |
| ScanSession.OrderedSegmentsDistinct | src/app/host-game/host-game.component.ts:121 | segments first read in generation order are necessarily pairwise distinct |
| ScanSession.ScanInOrderReconstructs | src/app/host-game/host-game.component.ts:91-93 | if the reads are the generated segments (repeats allowed), each first read in generation order, the list equals the segments and the reconstruction is their concatenation |
| ScanSession.ScanSplitReconstructs | src/app/host-game/host-game.component.ts:93 | for the segments of a line-terminator-free answer read that way, the reconstruction is the answer exactly |
| ScanSession.RepeatedSegmentsNeverRebuilt | src/app/host-game/host-game.component.ts:121 | when two generated segments are equal, no sequence of reads rebuilds the segment list, because de-duplication is by string value |
| ScanSession.RepeatedSegmentLosesData | src/app/host-game/host-game.component.ts:121 | 256 copies of 'a' split into two equal segments, and reading both reconstructs exactly the first 128 characters, not the input |
| Substrings.Includes | src/app/host-game/host-game.component.ts:124 | `includes` holds exactly when the marker occurs at some position of the message |
| Rtc.ApplyAnswer | src/app/host-game/host-game.component.ts:110-114 | a successful parse records `setAnswer(description)` and then `addIceCandidates(candidates)`, after all earlier calls; a failed one records nothing |
| Rtc.ApplyAnswerChangesIff | src/app/host-game/host-game.component.ts:94-100 | the manager changes exactly when the parse succeeds |
| Rtc.RecordKeepsOrder | src/app/join-game/join-game.component.ts:53-54 | recording an `initialize`, or an addition while some `initialize` is unmatched, keeps every addition preceded by an `initialize` of its own |
| Readiness.OnChannelOpen | src/app/join-game/join-game.component.ts:69-73 | a `false` value changes nothing; a `true` value adds one role action followed by navigation, keeping earlier actions |
| Readiness.StartsMatchOpenEvents | src/app/host-game/host-game.component.ts:85-89 | the role action runs once per `true` value, and a stream without `true` values changes nothing |
| HostGame.RunScanEffect | src/app/host-game/host-game.component.ts:91-101 | the effect parses the joined list; on success the answer and candidates become the last manager calls, on failure the manager is untouched and the log grows by exactly that parse failure; the session, URL, segments and actions never change |
| HostGame.Create | src/app/host-game/host-game.component.ts:63-101 | construction calls `initialize()` first, with no reader and no scans, an empty URL, no QR segments and no actions; the effect has run on the empty list, so the log is empty or holds just that parse failure, and the manager holds `initialize()` followed by exactly what applying the parse of the empty string adds |
| HostGame.OnLocalReady | src/app/host-game/host-game.component.ts:71-75 | the URL ends with the whole formatted offer; the QR segments are 1..128 long and join back to it iff it has no line terminator; without line terminators there are ceil(L/128) of them, all but the last exactly 128 long; the session, manager, log and actions are untouched |
| HostGame.OnChannelOpenEvent | src/app/host-game/host-game.component.ts:83-90 | a `true` value appends `startGameAsHost` then navigation and changes nothing else; `false` changes nothing |
| HostGame.OnScan | src/app/host-game/host-game.component.ts:119-122 | an open reader inserts the code into the session; a closed reader or a repeat leaves the whole host unchanged; a new code re-runs the effect on the joined new list, which appends exactly the answer and candidates on a successful parse or exactly one parse-error line otherwise; the URL, segments and actions never change |
| HostGame.OnScanError | src/app/host-game/host-game.component.ts:123-126 | the host is unchanged exactly when the message contains "NotFoundException"; any other error appends exactly that message to the log and changes nothing else |
| HostGame.OnCodeInput | src/app/host-game/host-game.component.ts:108-115 | a pasted value whose parse fails changes nothing; otherwise its answer is applied to the manager and nothing else changes |
| HostGame.OpenCamera | src/app/host-game/host-game.component.ts:117-119 | opening the camera starts a reader, keeps the scanned list and changes nothing else |
| HostGame.StopCamera | src/app/host-game/host-game.component.ts:129-135 | closing acts as `Stop` on the session; with no reader nothing happens; otherwise the effect re-runs on the empty list, which appends exactly the answer and candidates parsed from it or exactly one parse-error line; the URL, segments and actions never change |
| HostGame.StepRtcParseGated | src/app/host-game/host-game.component.ts:91-114 | every host event either leaves the manager alone or applies the answer parsed from the text it gave the parser; a failed parse from a scan, a paste or a close changes nothing |
| HostGame.CreateValid | src/app/host-game/host-game.component.ts:66-67 | the initial host has no reader and an empty, duplicate-free list |
| HostGame.StepValid | src/app/host-game/host-game.component.ts:117-135 | every event keeps the list duplicate-free and empty while no reader is open |
| HostGame.RunValid | src/app/host-game/host-game.component.ts:117-135 | every reachable host keeps that invariant |
| HostGame.ScanAllSession | src/app/host-game/host-game.component.ts:119-122 | with the reader open, a burst of reads acts on the session as the successive inserts; once a new code arrives, the effect's last run was on the current list |
| HostGame.HostScansAnswer | src/app/host-game/host-game.component.ts:91-101 | after the camera opens, reading the guest's answer segments in generation order leaves exactly those segments; the parser gets the whole answer, and its result is the last manager call or the last log entry |
| JoinGame.OnCodeParam | src/app/join-game/join-game.component.ts:47-53 | a missing or empty `code` is filtered out and never reaches the parser; a failed parse leaves the manager alone and ends the stream; a successful one calls `initialize(offer)`, holds the offer's candidates back and leaves the stream open; the shown code, segments and actions are untouched |
| JoinGame.OnInitialized | src/app/join-game/join-game.component.ts:53-58 | the held candidates are added only when `initialize` resolves; the shown code is the whole formatted answer; the segments are 1..128 long and join back to it iff it has no line terminator; without line terminators there are ceil(L/128) of them, all but the last exactly 128 long; the stream state, parser inputs and actions are untouched |
| JoinGame.OnChannelOpenEvent | src/app/join-game/join-game.component.ts:67-74 | a `true` value appends `startGameAsParticipant` then navigation and changes nothing else; `false` changes nothing |
| JoinGame.StartValid | src/app/join-game/join-game.component.ts:41-42 | the initial guest satisfies the invariant: nothing parsed, nothing pending, no manager calls |
| JoinGame.StepValid | src/app/join-game/join-game.component.ts:47-55 | every event keeps these facts: no empty string reached the parser; the `initialize` calls equal the additions plus the offers still pending; every addition carries the candidates of a signal the parser returned and comes after the `initialize` of that same signal's offer; every pending signal was parsed and its offer already initialized |
| JoinGame.RunValid | src/app/join-game/join-game.component.ts:47-55 | every reachable guest keeps that invariant |
| JoinGame.ParseFailureEndsStream | src/app/join-game/join-game.component.ts:47-51 | after a failed parse the manager is untouched and later codes reach neither the parser nor the manager |

## Behaviour of the code worth knowing

- `join(split(b)) == b` does not hold for every non-empty `b`: the pattern uses `.`,
  which skips line terminators. The model proves `Join(Split(s)) == s` exactly when `s`
  has no line terminator (`JoinSplitRoundTrip`).
- The game is started on every `true` value of `onChannelOpen` delivered while the
  component is alive, not only the first (`StartsMatchOpenEvents`). The handler's own
  navigation leaves the route, after which `takeUntilDestroyed` ends the subscription;
  that unsubscription is not modelled.
- The answer is not applied once only. The host's effect re-applies it on every list
  change whose join parses (`RunScanEffect`).
- Empty input reaches the parser on the host side. The effect runs at construction and
  after the camera closes, with the empty list (`Create`, `StopCamera`). Only the
  guest filters empty codes.
- A pasted answer is parsed directly. It never enters the scanned list.

## Left out

- QR rendering (`QRCode.toDataURL`) is left out because it is a foreign library. The
  model keeps the segment strings, in order, that would be rendered.
- Camera capture (`Html5Qrcode` start/stop/clear) is left out because it is device I/O.
  Only its effect on the reader flag and the scanned list is modelled. A stopped reader
  delivers no scans.
- The bodies of `formatAsUrl`, `parseFromUrl`, `initialize`, `setAnswer` and
  `addIceCandidates` are not part of this model, and neither is
  `src/app/core/rtc-manager.service.ts`, which defines them. The parser is a
  parameter, the formatted string is an input, and the manager is its call history.
  Compression and WebRTC negotiation are not modelled.
- Rtc.ApplyAnswer: does not model a synchronous throw from `setAnswer` or
  `addIceCandidates` inside the same `try`, because their bodies are outside this model.
- HostGame.RunScanEffect: models one effect run per change of `scannedCodes`. Angular may
  merge several changes into one run, but only the final list matters for
  `HostScansAnswer`.
- Promise, RxJS and `effect` scheduling are left out because they are framework
  plumbing; each handler is one atomic step. The same goes for `takeUntilDestroyed` and
  the `isPlatformServer` early return.
- Router navigation is reduced to a `NavigateBack` action. Clipboard writes
  (`onCopyUrl`, `onCopyCode`) and the HTML templates are left out as UI.
- The `location.origin` and `isDevMode` prefix of the URL is left out. It is an
  environment value, modelled as the `origin` parameter.
- Strings holding characters above U+FFFF or lone surrogates are outside the model.
  Without the `u` flag the source counts UTF-16 code units, so such a character is two
  units and may be cut between segments. A Dafny `char` is a Unicode scalar value, so
  here it is always one unit.
- Readiness.StartsMatchOpenEvents: counts every `true` value handed to the handler. The
  ending of the subscription by `takeUntilDestroyed` once navigation destroys the
  component is not modelled, so values after that point are outside the model.
- JoinGame.OnCodeParam: a throwing `parseFromUrl` inside `map` errors the stream, and
  with no error callback in `subscribe` RxJS reports it as an unhandled error. The model
  records only that the stream has ended; that report is not modelled.
- HostGame.StopCamera: models a `stop()` that resolves. If it rejects, the source
  keeps the reader and the scanned list and the effect does not re-run; that path is
  not modelled.
