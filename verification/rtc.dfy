/** The parts of `RtcManagerService` the two components use.  Its source is
    not part of this model: the manager is observed only through the calls
    the components make on it, and `parseFromUrl` is a parameter. */
module Rtc {
  import opened Wrappers

  /** An opaque session description (the SDP blob). */
  datatype Description = Description(sdp: string)

  /** An opaque ICE candidate. */
  datatype Candidate = Candidate(candidate: string)

  /** What `parseFromUrl` destructures into: `[iceCandidates, description]`. */
  datatype Signal = Signal(candidates: seq<Candidate>, description: Description)

  /** `RtcManagerService.parseFromUrl`: `None` stands for a thrown exception. */
  type Parser = string -> Option<Signal>

  /** One call made on the manager. */
  datatype Call =
    | Initialize(offer: Option<Description>)
    | SetAnswer(answer: Description)
    | AddIceCandidates(candidates: seq<Candidate>)

  /** The manager's state, as far as the components can affect it: the calls
      made on it, oldest first. */
  datatype Manager = Manager(calls: seq<Call>)

  const Fresh := Manager([])

  function Record(m: Manager, c: Call): Manager {
    Manager(m.calls + [c])
  }

  /** The host's `try { const [c, d] = parseFromUrl(text); setAnswer(d);
      addIceCandidates(c) } catch { }`: the answer and then its candidates are
      applied when the parse succeeded, nothing otherwise. */
  function ApplyAnswer(m: Manager, parsed: Option<Signal>): (r: Manager)
    ensures |r.calls| == |m.calls| + (if parsed.Some? then 2 else 0)
    ensures r.calls[..|m.calls|] == m.calls
    ensures parsed.Some? ==>
              && r.calls[|m.calls|] == SetAnswer(parsed.value.description)
              && r.calls[|m.calls| + 1] == AddIceCandidates(parsed.value.candidates)
  {
    match parsed
    case None => m
    case Some(signal) =>
      Record(Record(m, SetAnswer(signal.description)), AddIceCandidates(signal.candidates))
  }

  /** The manager changes exactly when the parse succeeds. */
  lemma ApplyAnswerChangesIff(m: Manager, parse: Parser, text: string)
    ensures ApplyAnswer(m, parse(text)) == m <==> parse(text).None?
  {
    if parse(text).Some? {
      assert |ApplyAnswer(m, parse(text)).calls| != |m.calls|;
    }
  }

  function InitializeCount(calls: seq<Call>): nat
  {
    if |calls| == 0 then 0
    else InitializeCount(calls[..|calls| - 1]) + (if calls[|calls| - 1].Initialize? then 1 else 0)
  }

  function AddCount(calls: seq<Call>): nat
  {
    if |calls| == 0 then 0
    else AddCount(calls[..|calls| - 1]) + (if calls[|calls| - 1].AddIceCandidates? then 1 else 0)
  }

  /** Every `addIceCandidates` call is matched by an earlier `initialize`
      call of its own: before it, strictly more initializations than
      additions. */
  predicate CandidatesAfterInitialize(calls: seq<Call>) {
    forall j :: 0 <= j < |calls| && calls[j].AddIceCandidates? ==>
      AddCount(calls[..j]) < InitializeCount(calls[..j])
  }

  lemma CountsAppend(calls: seq<Call>, c: Call)
    ensures InitializeCount(calls + [c]) == InitializeCount(calls) + (if c.Initialize? then 1 else 0)
    ensures AddCount(calls + [c]) == AddCount(calls) + (if c.AddIceCandidates? then 1 else 0)
  {
    assert (calls + [c])[..|calls|] == calls;
  }

  /** Recording an `initialize` keeps the ordering; recording an addition
      keeps it when some initialization is still unmatched. */
  lemma RecordKeepsOrder(calls: seq<Call>, c: Call)
    requires CandidatesAfterInitialize(calls)
    requires c.AddIceCandidates? ==> AddCount(calls) < InitializeCount(calls)
    ensures CandidatesAfterInitialize(calls + [c])
  {
    var calls' := calls + [c];
    forall j | 0 <= j < |calls'| && calls'[j].AddIceCandidates?
      ensures AddCount(calls'[..j]) < InitializeCount(calls'[..j])
    {
      if j < |calls| {
        assert calls'[..j] == calls[..j];
        assert calls'[j] == calls[j];
      } else {
        assert calls'[..j] == calls;
      }
    }
  }
}
