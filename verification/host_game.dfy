/** The host side (`HostGameComponent`): publishes its offer as a URL and as
    QR segments, then takes the guest's answer either pasted whole or scanned
    segment by segment.  Each handler is one atomic step; promise and effect
    scheduling is not modelled. */
module HostGame {
  import opened Wrappers
  import opened Segments
  import opened Substrings
  import opened Rtc
  import opened Readiness
  import opened ScanSession

  /** Tags for the lines the component writes to `console.error`: a scan
      error message, or the exception thrown by parsing `input` (the model
      records the parsed text in place of the exception object). */
  datatype LogEntry = ScanError(message: string) | ParseError(input: string)

  /** The component's signals and the collaborators it drives:
      `url`, the segments handed to the QR renderer (`urlSegmentsDataUrl`
      before rendering), the scan session, the RTC manager, the console and
      the game/router actions. */
  datatype Host = Host(
    url: string,
    qrSegments: seq<string>,
    session: Session,
    rtc: Manager,
    console: seq<LogEntry>,
    actions: seq<Action>)

  /** Scan-error text the reader reports when a frame holds no QR code. */
  const NotFoundMarker := "NotFoundException"

  const JoinPath := "/join-game?code="

  /** The effect's last run has been on the current scanned list: either the
      parse of its concatenation succeeded and its answer and candidates were
      the last calls on the manager, or it failed and was the last thing
      logged. */
  predicate EffectSettled(h: Host, parse: Parser) {
    var zipped := Reconstruct(h.session);
    match parse(zipped)
    case Some(signal) =>
      && |h.rtc.calls| >= 2
      && h.rtc.calls[|h.rtc.calls| - 2] == SetAnswer(signal.description)
      && h.rtc.calls[|h.rtc.calls| - 1] == AddIceCandidates(signal.candidates)
    case None =>
      |h.console| > 0 && h.console[|h.console| - 1] == ParseError(zipped)
  }

  /** One run of the effect over `scannedCodes`: join, parse, and apply the
      answer only when the parse succeeds; a failure is logged. */
  function RunScanEffect(h: Host, parse: Parser): (r: Host)
    ensures EffectSettled(r, parse)
    ensures r.session == h.session && r.url == h.url && r.qrSegments == h.qrSegments
    ensures r.actions == h.actions
    ensures parse(Reconstruct(h.session)).None? ==>
              r.rtc == h.rtc && r.console == h.console + [ParseError(Reconstruct(h.session))]
    ensures parse(Reconstruct(h.session)).Some? ==>
              r.console == h.console && r.rtc == ApplyAnswer(h.rtc, parse(Reconstruct(h.session)))
  {
    var zipped := Reconstruct(h.session);
    var parsed := parse(zipped);
    if parsed.Some? then h.(rtc := ApplyAnswer(h.rtc, parsed))
    else h.(console := h.console + [ParseError(zipped)])
  }

  /** The constructor: `initialize()` is called and the effect runs once on
      the empty scanned list. */
  function Create(parse: Parser): (r: Host)
    ensures r.session == Idle
    ensures |r.rtc.calls| >= 1 && r.rtc.calls[0] == Initialize(None)
    ensures EffectSettled(r, parse)
    ensures r.url == [] && r.qrSegments == [] && r.actions == []
    ensures r.console == (if parse([]).None? then [ParseError([])] else [])
    ensures r.rtc == ApplyAnswer(Record(Fresh, Initialize(None)), parse([]))
  {
    assert Reconstruct(Idle) == [];
    RunScanEffect(Host([], [], Idle, Record(Fresh, Initialize(None)), [], []), parse)
  }

  /** `initialize()` resolved and `formatAsUrl` produced `formatted`: the URL
      carries the whole string and the QR segments are its split. */
  function OnLocalReady(h: Host, origin: string, formatted: string): (r: Host)
    ensures IsPrefix(origin + JoinPath, r.url) && r.url[|origin + JoinPath|..] == formatted
    ensures forall i :: 0 <= i < |r.qrSegments| ==> 1 <= |r.qrSegments[i]| <= SegmentLength
    ensures Join(r.qrSegments) == formatted <==> NoLineTerminators(formatted)
    ensures r.session == h.session && r.rtc == h.rtc
    ensures r.console == h.console && r.actions == h.actions
    ensures NoLineTerminators(formatted) ==>
              && |r.qrSegments| == (|formatted| + SegmentLength - 1) / SegmentLength
              && forall i :: 0 <= i < |r.qrSegments| - 1 ==> |r.qrSegments[i]| == SegmentLength
  {
    JoinSplitRoundTrip(formatted, SegmentLength);
    var shown := h.(url := origin + JoinPath + formatted, qrSegments := Split(formatted, SegmentLength));
    if NoLineTerminators(formatted) then SplitCount(formatted, SegmentLength); shown else shown
  }

  function OnChannelOpenEvent(h: Host, isOpen: bool): (r: Host)
    ensures r.session == h.session && r.rtc == h.rtc
    ensures !isOpen ==> r == h
    ensures r == h.(actions := r.actions)
    ensures isOpen ==> r.actions == h.actions + [StartGameAsHost, NavigateBack]
    ensures Count(r.actions, StartGameAsHost) == Count(h.actions, StartGameAsHost) + (if isOpen then 1 else 0)
  {
    h.(actions := OnChannelOpen(h.actions, isOpen, StartGameAsHost))
  }

  /** The reader's success callback.  A stopped reader delivers nothing; a
      repeated code is ignored; a new code is appended and the effect runs. */
  function OnScan(h: Host, code: string, parse: Parser): (r: Host)
    ensures r.session == (if h.session.readerOpen then Insert(h.session, code) else h.session)
    ensures !h.session.readerOpen || code in h.session.scanned ==> r == h
    ensures r.url == h.url && r.qrSegments == h.qrSegments && r.actions == h.actions
    ensures h.session.readerOpen && code !in h.session.scanned ==> EffectSettled(r, parse)
    ensures h.session.readerOpen && code !in h.session.scanned ==>
              var zipped := Reconstruct(r.session);
              && (parse(zipped).None? ==> r.rtc == h.rtc && r.console == h.console + [ParseError(zipped)])
              && (parse(zipped).Some? ==> r.console == h.console && r.rtc == ApplyAnswer(h.rtc, parse(zipped)))
    ensures |h.rtc.calls| <= |r.rtc.calls| && r.rtc.calls[..|h.rtc.calls|] == h.rtc.calls
    ensures |h.console| <= |r.console| && r.console[..|h.console|] == h.console
  {
    if !h.session.readerOpen || code in h.session.scanned then h
    else RunScanEffect(h.(session := Insert(h.session, code)), parse)
  }

  /** The reader's error callback: "nothing found in this frame" is
      suppressed, every other error is logged. */
  function OnScanError(h: Host, message: string): (r: Host)
    ensures r == h <==> Includes(message, NotFoundMarker)
    ensures !Includes(message, NotFoundMarker) ==>
              r == h.(console := h.console + [ScanError(message)])
  {
    if Includes(message, NotFoundMarker) then h
    else h.(console := h.console + [ScanError(message)])
  }

  /** The paste box: the whole value is parsed; on success the answer is
      applied, on failure nothing happens at all. */
  function OnCodeInput(h: Host, value: string, parse: Parser): (r: Host)
    ensures parse(value).None? ==> r == h
    ensures r == h.(rtc := ApplyAnswer(h.rtc, parse(value)))
  {
    h.(rtc := ApplyAnswer(h.rtc, parse(value)))
  }

  function OpenCamera(h: Host): (r: Host)
    ensures r.session.readerOpen && r.session.scanned == h.session.scanned
    ensures r == h.(session := Open(h.session))
  {
    h.(session := Open(h.session))
  }

  /** Closing the camera: with a reader, once it has stopped it is dropped,
      the scanned list is emptied and the effect runs on the empty list. */
  function StopCamera(h: Host, parse: Parser): (r: Host)
    ensures r.session == Stop(h.session)
    ensures !h.session.readerOpen ==> r == h
    ensures r.url == h.url && r.qrSegments == h.qrSegments && r.actions == h.actions
    ensures h.session.readerOpen ==> EffectSettled(r, parse)
    ensures h.session.readerOpen && parse([]).None? ==>
              r.rtc == h.rtc && r.console == h.console + [ParseError([])]
    ensures h.session.readerOpen && parse([]).Some? ==>
              r.console == h.console && r.rtc == ApplyAnswer(h.rtc, parse([]))
    ensures |h.rtc.calls| <= |r.rtc.calls| && r.rtc.calls[..|h.rtc.calls|] == h.rtc.calls
    ensures |h.console| <= |r.console| && r.console[..|h.console|] == h.console
  {
    if !h.session.readerOpen then h
    else RunScanEffect(h.(session := Stop(h.session)), parse)
  }

  datatype Event =
    | LocalReady(origin: string, formatted: string)
    | ChannelOpen(isOpen: bool)
    | Scanned(code: string)
    | ScanFailed(message: string)
    | CodeInput(value: string)
    | CameraOpened
    | CameraClosed

  function Step(h: Host, e: Event, parse: Parser): Host {
    match e
    case LocalReady(origin, formatted) => OnLocalReady(h, origin, formatted)
    case ChannelOpen(isOpen) => OnChannelOpenEvent(h, isOpen)
    case Scanned(code) => OnScan(h, code, parse)
    case ScanFailed(message) => OnScanError(h, message)
    case CodeInput(value) => OnCodeInput(h, value, parse)
    case CameraOpened => OpenCamera(h)
    case CameraClosed => StopCamera(h, parse)
  }

  function Run(h: Host, events: seq<Event>, parse: Parser): Host
    decreases |events|
  {
    if |events| == 0 then h
    else Step(Run(h, events[..|events| - 1], parse), events[|events| - 1], parse)
  }

  /** The string an event hands to `parseFromUrl`, if any. */
  function ParserInput(h: Host, e: Event): Option<string> {
    match e
    case Scanned(code) =>
      if h.session.readerOpen && code !in h.session.scanned
      then Some(Reconstruct(Insert(h.session, code))) else None
    case CodeInput(value) => Some(value)
    case CameraClosed => if h.session.readerOpen then Some(Reconstruct(Stop(h.session))) else None
    case _ => None
  }

  /** Session invariant: no duplicates, and a closed camera holds no scans. */
  predicate Valid(h: Host) {
    Distinct(h.session.scanned) && (!h.session.readerOpen ==> h.session.scanned == [])
  }

  // ---------------------------------------------------------------------------
  // Lemmas

  /** The manager is touched only through a successful parse: every event
      either leaves it alone or applies the answer parsed from the text it
      handed to the parser; a failed parse, from scan or paste, changes
      nothing. */
  lemma StepRtcParseGated(h: Host, e: Event, parse: Parser)
    ensures ParserInput(h, e).None? ==> Step(h, e, parse).rtc == h.rtc
    ensures ParserInput(h, e).Some? ==>
              Step(h, e, parse).rtc == ApplyAnswer(h.rtc, parse(ParserInput(h, e).value))
    ensures ParserInput(h, e).Some? && parse(ParserInput(h, e).value).None? ==>
              Step(h, e, parse).rtc == h.rtc
  {
  }

  lemma CreateValid(parse: Parser)
    ensures Valid(Create(parse))
  {
  }

  lemma StepValid(h: Host, e: Event, parse: Parser)
    requires Valid(h)
    ensures Valid(Step(h, e, parse))
  {
  }

  /** Every reachable host keeps the session invariant. */
  lemma {:induction false} RunValid(h: Host, events: seq<Event>, parse: Parser)
    requires Valid(h)
    ensures Valid(Run(h, events, parse))
    decreases |events|
  {
    if |events| > 0 {
      RunValid(h, events[..|events| - 1], parse);
      StepValid(Run(h, events[..|events| - 1], parse), events[|events| - 1], parse);
    }
  }

  /** A burst of camera reads, oldest first. */
  function ScanAll(h: Host, scans: seq<string>, parse: Parser): Host
    decreases |scans|
  {
    if |scans| == 0 then h
    else OnScan(ScanAll(h, scans[..|scans| - 1], parse), scans[|scans| - 1], parse)
  }

  /** With the reader open, a burst of reads acts on the session as the
      successive inserts do, and once a new code has arrived the effect's last
      run was on the current list. */
  lemma {:induction false} ScanAllSession(h: Host, scans: seq<string>, parse: Parser)
    requires h.session.readerOpen
    ensures ScanAll(h, scans, parse).session == InsertAll(h.session, scans)
    ensures |scans| > 0 && scans[0] !in h.session.scanned ==> EffectSettled(ScanAll(h, scans, parse), parse)
    decreases |scans|
  {
    if |scans| > 0 {
      var p := scans[..|scans| - 1];
      ScanAllSession(h, p, parse);
      InsertAllOpen(h.session, p);
      if |p| > 0 {
        assert p[0] == scans[0];
      }
    }
  }

  /** End to end: with the camera freshly opened, reading the guest's answer
      segments (repeats allowed, each first read in generation order) leaves
      exactly those segments in the list and hands the parser the guest's
      whole answer string; its answer and candidates were the last calls on
      the manager, or its failure the last thing logged. */
  lemma HostScansAnswer(h: Host, scans: seq<string>, formatted: string, parse: Parser)
    requires h.session == Session([], true)
    requires NoLineTerminators(formatted) && |formatted| > 0
    requires FirstScannedInOrder(scans, Split(formatted, SegmentLength))
    ensures ScanAll(h, scans, parse).session.scanned == Split(formatted, SegmentLength)
    ensures Reconstruct(ScanAll(h, scans, parse).session) == formatted
    ensures EffectSettled(ScanAll(h, scans, parse), parse)
  {
    var segs := Split(formatted, SegmentLength);
    ScanAllSession(h, scans, parse);
    ScanSplitReconstructs(h.session, scans, formatted);
    ScanInOrderReconstructs(h.session, scans, segs);
    JoinSplit(formatted, SegmentLength);
    StripIdentity(formatted);
    assert |segs| > 0;
    assert segs[0] in scans;
    assert |scans| > 0;
  }
}
