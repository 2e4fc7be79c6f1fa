/** The guest side (`JoinGameComponent`): reads the host's offer from the
    `code` query parameter, initializes the connection with it, adds the
    offer's candidates, and publishes its own answer as text and QR segments.
    Each handler is one atomic step; promise and stream scheduling is not
    modelled beyond the order of the calls. */
module JoinGame {
  import opened Wrappers
  import opened Segments
  import opened Rtc
  import opened Readiness

  /** The component's signals and the collaborators it drives.  `pending`
      holds, per `initialize(offer)` call still unresolved, the parsed offer
      whose candidates wait to be added; `parserInputs` lists every string handed
      to `parseFromUrl`; `streamClosed` records that the query-parameter
      stream has errored (a throwing `parseFromUrl` inside `map` ends it). */
  datatype Guest = Guest(
    code: string,
    qrSegments: seq<string>,
    rtc: Manager,
    pending: seq<Signal>,
    parserInputs: seq<string>,
    streamClosed: bool,
    actions: seq<Action>)

  const Start := Guest([], [], Fresh, [], [], false, [])

  /** One value of the `code` query parameter (`None` when it is missing).
      A missing or empty code is filtered out; otherwise it is parsed, and a
      successful parse starts `initialize(offer)` with the offer's candidates
      put aside until it resolves. */
  function OnCodeParam(g: Guest, value: Option<string>, parse: Parser): (r: Guest)
    ensures g.streamClosed || value == None || value == Some([]) ==> r == g
    ensures r.parserInputs == g.parserInputs
              + (if !g.streamClosed && value.Some? && value.value != [] then [value.value] else [])
    ensures !g.streamClosed && value.Some? && value.value != [] && parse(value.value).None? ==>
              r.rtc == g.rtc && r.pending == g.pending && r.streamClosed
    ensures !g.streamClosed && value.Some? && value.value != [] && parse(value.value).Some? ==>
              && r.rtc.calls == g.rtc.calls + [Initialize(Some(parse(value.value).value.description))]
              && r.pending == g.pending + [parse(value.value).value]
    ensures !g.streamClosed && value.Some? && value.value != [] && parse(value.value).Some? ==>
              r.streamClosed == g.streamClosed
    ensures r.code == g.code && r.qrSegments == g.qrSegments && r.actions == g.actions
  {
    if g.streamClosed then g
    else
      match value
      case None => g
      case Some(c) =>
        if c == [] then g
        else
          var g' := g.(parserInputs := g.parserInputs + [c]);
          match parse(c)
          case None => g'.(streamClosed := true)
          case Some(signal) =>
            g'.(rtc := Record(g.rtc, Initialize(Some(signal.description))),
                pending := g.pending + [signal])
  }

  /** The `k`-th outstanding `initialize(offer)` resolved and `formatAsUrl`
      produced `formatted`: the offer's candidates are added, and the answer
      is shown whole and as QR segments. */
  function OnInitialized(g: Guest, k: nat, formatted: string): (r: Guest)
    ensures k >= |g.pending| ==> r == g
    ensures k < |g.pending| ==>
              && r.rtc.calls == g.rtc.calls + [AddIceCandidates(g.pending[k].candidates)]
              && r.pending == g.pending[..k] + g.pending[k + 1..]
              && |r.pending| == |g.pending| - 1
              && r.code == formatted
              && (Join(r.qrSegments) == r.code <==> NoLineTerminators(formatted))
              && (forall i :: 0 <= i < |r.qrSegments| ==> 1 <= |r.qrSegments[i]| <= SegmentLength)
    ensures r.parserInputs == g.parserInputs
    ensures k < |g.pending| && NoLineTerminators(formatted) ==>
              && |r.qrSegments| == (|formatted| + SegmentLength - 1) / SegmentLength
              && forall i :: 0 <= i < |r.qrSegments| - 1 ==> |r.qrSegments[i]| == SegmentLength
    ensures r.streamClosed == g.streamClosed && r.actions == g.actions
  {
    if k >= |g.pending| then g
    else
      JoinSplitRoundTrip(formatted, SegmentLength);
      var shown := g.(rtc := Record(g.rtc, AddIceCandidates(g.pending[k].candidates)),
                      pending := g.pending[..k] + g.pending[k + 1..],
                      code := formatted,
                      qrSegments := Split(formatted, SegmentLength));
      if NoLineTerminators(formatted) then SplitCount(formatted, SegmentLength); shown else shown
  }

  function OnChannelOpenEvent(g: Guest, isOpen: bool): (r: Guest)
    ensures r.rtc == g.rtc && r.code == g.code
    ensures !isOpen ==> r == g
    ensures r == g.(actions := r.actions)
    ensures isOpen ==> r.actions == g.actions + [StartGameAsParticipant, NavigateBack]
    ensures Count(r.actions, StartGameAsParticipant) == Count(g.actions, StartGameAsParticipant) + (if isOpen then 1 else 0)
  {
    g.(actions := OnChannelOpen(g.actions, isOpen, StartGameAsParticipant))
  }

  datatype Event =
    | CodeParam(value: Option<string>)
    | Initialized(index: nat, formatted: string)
    | ChannelOpen(isOpen: bool)

  function Step(g: Guest, e: Event, parse: Parser): Guest {
    match e
    case CodeParam(value) => OnCodeParam(g, value, parse)
    case Initialized(index, formatted) => OnInitialized(g, index, formatted)
    case ChannelOpen(isOpen) => OnChannelOpenEvent(g, isOpen)
  }

  function Run(g: Guest, events: seq<Event>, parse: Parser): Guest
    decreases |events|
  {
    if |events| == 0 then g
    else Step(Run(g, events[..|events| - 1], parse), events[|events| - 1], parse)
  }

  /** `signal` is what `parseFromUrl` returned for a code handed to it. */
  ghost predicate ParsedFrom(g: Guest, parse: Parser, signal: Signal) {
    exists t :: t in g.parserInputs && parse(t) == Some(signal)
  }

  /** Every `addIceCandidates(c)` adds the candidates of an offer parsed from
      a code, and the `initialize` with that same offer's description came
      before it. */
  ghost predicate AdditionsFollowTheirOffer(g: Guest, parse: Parser) {
    forall j :: 0 <= j < |g.rtc.calls| && g.rtc.calls[j].AddIceCandidates? ==>
      exists signal ::
        && ParsedFrom(g, parse, signal)
        && signal.candidates == g.rtc.calls[j].candidates
        && Initialize(Some(signal.description)) in g.rtc.calls[..j]
  }

  /** Every offer still waiting for its `initialize` to resolve was parsed
      from a code, and that `initialize` has been called. */
  ghost predicate PendingOffersInitialized(g: Guest, parse: Parser) {
    forall signal :: signal in g.pending ==>
      ParsedFrom(g, parse, signal) && Initialize(Some(signal.description)) in g.rtc.calls
  }

  /** Guest invariant: the parser never saw an empty string; every
      `initialize` is either matched by one later `addIceCandidates` or still
      pending; no more additions than `initialize` calls precede any
      addition; and each addition follows the `initialize` of the very offer
      whose candidates it adds. */
  ghost predicate Valid(g: Guest, parse: Parser) {
    && (forall i :: 0 <= i < |g.parserInputs| ==> g.parserInputs[i] != [])
    && InitializeCount(g.rtc.calls) == AddCount(g.rtc.calls) + |g.pending|
    && CandidatesAfterInitialize(g.rtc.calls)
    && AdditionsFollowTheirOffer(g, parse)
    && PendingOffersInitialized(g, parse)
  }

  // ---------------------------------------------------------------------------
  // Lemmas

  lemma StartValid(parse: Parser)
    ensures Valid(Start, parse)
  {
  }

  /** Handing more codes to the parser keeps every earlier parse result. */
  lemma ParsedFromGrows(g: Guest, r: Guest, parse: Parser, signal: Signal)
    requires forall t :: t in g.parserInputs ==> t in r.parserInputs
    requires ParsedFrom(g, parse, signal)
    ensures ParsedFrom(r, parse, signal)
  {
    var t :| t in g.parserInputs && parse(t) == Some(signal);
    assert t in r.parserInputs;
  }

  /** A step that only appends to the manager's calls and to the parser's
      inputs, and whose pending offers are initialized, keeps the offer
      tie of every earlier addition. */
  lemma AdditionsKept(g: Guest, r: Guest, parse: Parser)
    requires AdditionsFollowTheirOffer(g, parse)
    requires forall t :: t in g.parserInputs ==> t in r.parserInputs
    requires |g.rtc.calls| <= |r.rtc.calls| && r.rtc.calls[..|g.rtc.calls|] == g.rtc.calls
    requires forall j :: |g.rtc.calls| <= j < |r.rtc.calls| ==> r.rtc.calls[j].Initialize?
    ensures AdditionsFollowTheirOffer(r, parse)
  {
    forall j | 0 <= j < |r.rtc.calls| && r.rtc.calls[j].AddIceCandidates?
      ensures exists signal ::
        && ParsedFrom(r, parse, signal)
        && signal.candidates == r.rtc.calls[j].candidates
        && Initialize(Some(signal.description)) in r.rtc.calls[..j]
    {
      assert j < |g.rtc.calls|;
      assert g.rtc.calls[j] == r.rtc.calls[j];
      assert g.rtc.calls[..j] == r.rtc.calls[..j];
      var signal :| && ParsedFrom(g, parse, signal)
                    && signal.candidates == g.rtc.calls[j].candidates
                    && Initialize(Some(signal.description)) in g.rtc.calls[..j];
      ParsedFromGrows(g, r, parse, signal);
    }
  }

  lemma OnCodeParamValid(g: Guest, value: Option<string>, parse: Parser)
    requires Valid(g, parse)
    ensures Valid(OnCodeParam(g, value, parse), parse)
  {
    var r := OnCodeParam(g, value, parse);
    if r != g {
      var c := value.value;
      assert r.parserInputs == g.parserInputs + [c];
      AdditionsKept(g, r, parse);
      if parse(c).Some? {
        var signal := parse(c).value;
        var call := Initialize(Some(signal.description));
        assert r.rtc.calls == g.rtc.calls + [call];
        CountsAppend(g.rtc.calls, call);
        RecordKeepsOrder(g.rtc.calls, call);
        assert ParsedFrom(r, parse, signal) by {
          assert c in r.parserInputs;
        }
        forall p | p in r.pending
          ensures ParsedFrom(r, parse, p) && Initialize(Some(p.description)) in r.rtc.calls
        {
          if p in g.pending {
            ParsedFromGrows(g, r, parse, p);
          }
        }
      } else {
        forall p | p in r.pending
          ensures ParsedFrom(r, parse, p)
        {
          ParsedFromGrows(g, r, parse, p);
        }
      }
    }
  }

  lemma OnInitializedValid(g: Guest, k: nat, formatted: string, parse: Parser)
    requires Valid(g, parse)
    ensures Valid(OnInitialized(g, k, formatted), parse)
  {
    var r := OnInitialized(g, k, formatted);
    if k < |g.pending| {
      var signal := g.pending[k];
      var call := AddIceCandidates(signal.candidates);
      var n := |g.rtc.calls|;
      assert r.rtc.calls == g.rtc.calls + [call];
      CountsAppend(g.rtc.calls, call);
      RecordKeepsOrder(g.rtc.calls, call);
      assert r.parserInputs == g.parserInputs;
      forall j | 0 <= j < |r.rtc.calls| && r.rtc.calls[j].AddIceCandidates?
        ensures exists p ::
          && ParsedFrom(r, parse, p)
          && p.candidates == r.rtc.calls[j].candidates
          && Initialize(Some(p.description)) in r.rtc.calls[..j]
      {
        if j < n {
          assert r.rtc.calls[j] == g.rtc.calls[j];
          assert r.rtc.calls[..j] == g.rtc.calls[..j];
          var p :| && ParsedFrom(g, parse, p)
                   && p.candidates == g.rtc.calls[j].candidates
                   && Initialize(Some(p.description)) in g.rtc.calls[..j];
          assert ParsedFrom(r, parse, p);
        } else {
          assert r.rtc.calls[..j] == g.rtc.calls;
          assert signal in g.pending;
          assert ParsedFrom(r, parse, signal);
        }
      }
      forall p | p in r.pending
        ensures ParsedFrom(r, parse, p) && Initialize(Some(p.description)) in r.rtc.calls
      {
        assert p in g.pending;
        assert ParsedFrom(g, parse, p);
      }
    }
  }

  lemma StepValid(g: Guest, e: Event, parse: Parser)
    requires Valid(g, parse)
    ensures Valid(Step(g, e, parse), parse)
  {
    match e
    case CodeParam(value) => OnCodeParamValid(g, value, parse);
    case Initialized(index, formatted) => OnInitializedValid(g, index, formatted, parse);
    case ChannelOpen(isOpen) =>
  }

  /** Every reachable guest keeps the invariant: empty codes never reach the
      parser, and candidates are only ever added after the `initialize` of
      the offer they came with. */
  lemma {:induction false} RunValid(g: Guest, events: seq<Event>, parse: Parser)
    requires Valid(g, parse)
    ensures Valid(Run(g, events, parse), parse)
    decreases |events|
  {
    if |events| > 0 {
      RunValid(g, events[..|events| - 1], parse);
      StepValid(Run(g, events[..|events| - 1], parse), events[|events| - 1], parse);
    }
  }

  /** After a failed parse the query-parameter stream is dead: the manager
      was not touched, and no later code reaches the parser or the manager. */
  lemma ParseFailureEndsStream(g: Guest, c: string, later: Option<string>, parse: Parser)
    requires !g.streamClosed && c != [] && parse(c).None?
    ensures OnCodeParam(g, Some(c), parse).rtc == g.rtc
    ensures OnCodeParam(OnCodeParam(g, Some(c), parse), later, parse) == OnCodeParam(g, Some(c), parse)
  {
  }
}
