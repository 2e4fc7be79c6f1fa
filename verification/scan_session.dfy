/** The host's scan accumulator: `scannedCodes` (arrival-ordered, de-duplicated
    by string equality) together with whether a QR reader is running. */
module ScanSession {
  import opened Segments

  /** `scanned` is `scannedCodes()`; `readerOpen` is `qrCodeReader() != null`. */
  datatype Session = Session(scanned: seq<string>, readerOpen: bool)

  /** No reader and nothing scanned: the component's initial state. */
  const Idle := Session([], false)

  predicate Distinct(xs: seq<string>) {
    forall i, j :: 0 <= i < j < |xs| ==> xs[i] != xs[j]
  }

  /** Opening the camera installs a reader; the scanned list is kept. */
  function Open(s: Session): Session {
    s.(readerOpen := true)
  }

  /** One successful camera read: a code already in the list is ignored,
      a new one is appended at the end. */
  function Insert(s: Session, code: string): (r: Session)
    ensures code in r.scanned
    ensures |r.scanned| == |s.scanned| + (if code in s.scanned then 0 else 1)
    ensures r.scanned[..|s.scanned|] == s.scanned
    ensures forall c :: c in r.scanned <==> c in s.scanned || c == code
    ensures Distinct(s.scanned) ==> Distinct(r.scanned)
    ensures r.readerOpen == s.readerOpen
  {
    if code in s.scanned then s else s.(scanned := s.scanned + [code])
  }

  /** Closing the camera: once the reader has stopped, the reader is dropped
      and the scanned list emptied.  Without a reader nothing happens. */
  function Stop(s: Session): (r: Session)
    ensures !r.readerOpen
    ensures s.readerOpen ==> r.scanned == []
    ensures !s.readerOpen ==> r == s
  {
    if s.readerOpen then Idle else s
  }

  /** `scanned.join('')`: the scanned codes laid end to end in arrival
      order, each at the position where the earlier ones end. */
  function Reconstruct(s: Session): (r: string)
    ensures |r| == TotalLength(s.scanned)
    ensures forall i :: 0 <= i < |s.scanned| ==>
              && Offset(s.scanned, i) + |s.scanned[i]| <= |r|
              && r[Offset(s.scanned, i)..Offset(s.scanned, i) + |s.scanned[i]|] == s.scanned[i]
  {
    Join(s.scanned)
  }

  /** The session after a sequence of camera reads, oldest first. */
  function InsertAll(s: Session, scans: seq<string>): Session
    decreases |scans|
  {
    if |scans| == 0 then s
    else Insert(InsertAll(s, scans[..|scans| - 1]), scans[|scans| - 1])
  }

  /** Position of the first read of `x`. */
  function FirstIndex(xs: seq<string>, x: string): (k: nat)
    requires x in xs
    ensures k < |xs| && xs[k] == x
    ensures forall i :: 0 <= i < k ==> xs[i] != x
  {
    if xs[0] == x then 0 else 1 + FirstIndex(xs[1..], x)
  }

  /** Every element of `xs` was read, and `xs` lists them in the order of
      their first read. */
  predicate OrderedByFirstScan(xs: seq<string>, scans: seq<string>) {
    && (forall c :: c in xs ==> c in scans)
    && (forall i, j :: 0 <= i < j < |xs| ==> FirstIndex(scans, xs[i]) < FirstIndex(scans, xs[j]))
  }

  /** The reads are exactly the generated segments, repeats allowed, and each
      segment is first read in generation order. */
  predicate FirstScannedInOrder(scans: seq<string>, segments: seq<string>) {
    && (forall c :: c in scans ==> c in segments)
    && OrderedByFirstScan(segments, scans)
  }

  // ---------------------------------------------------------------------------
  // Lemmas

  /** Re-reading a code is a no-op, so two identical reads act as one. */
  lemma InsertIdempotent(s: Session, code: string)
    ensures Insert(Insert(s, code), code) == Insert(s, code)
    ensures Reconstruct(Insert(Insert(s, code), code)) == Reconstruct(Insert(s, code))
  {
  }

  /** Reconstruction grows by exactly the new code, or not at all. */
  lemma ReconstructInsert(s: Session, code: string)
    ensures Reconstruct(Insert(s, code))
         == Reconstruct(s) + (if code in s.scanned then [] else code)
  {
    if code !in s.scanned {
      JoinAppend(s.scanned, [code]);
      assert Join([code]) == code + Join([]);
    }
  }

  /** Every transition keeps the scanned list free of duplicates. */
  lemma {:induction false} InsertAllDistinct(s: Session, scans: seq<string>)
    requires Distinct(s.scanned)
    ensures Distinct(InsertAll(s, scans).scanned)
    decreases |scans|
  {
    if |scans| > 0 {
      InsertAllDistinct(s, scans[..|scans| - 1]);
    }
  }

  /** Reads never open or close the reader. */
  lemma {:induction false} InsertAllOpen(s: Session, scans: seq<string>)
    ensures InsertAll(s, scans).readerOpen == s.readerOpen
    decreases |scans|
  {
    if |scans| > 0 {
      InsertAllOpen(s, scans[..|scans| - 1]);
    }
  }

  lemma FirstIndexExtend(p: seq<string>, x: string, y: string)
    requires y in p
    ensures FirstIndex(p + [x], y) == FirstIndex(p, y)
  {
    var k := FirstIndex(p, y);
    assert (p + [x])[k] == y;
  }

  lemma FirstIndexLast(p: seq<string>, x: string)
    requires x !in p
    ensures FirstIndex(p + [x], x) == |p|
  {
  }

  /** Starting from an empty list, the scanned list holds each code read so
      far, once, in the order of its first read. */
  lemma {:induction false} InsertAllFirstOccurrences(s: Session, scans: seq<string>)
    requires s.scanned == []
    ensures forall c :: c in InsertAll(s, scans).scanned <==> c in scans
    ensures OrderedByFirstScan(InsertAll(s, scans).scanned, scans)
    decreases |scans|
  {
    if |scans| > 0 {
      var p, x := scans[..|scans| - 1], scans[|scans| - 1];
      assert scans == p + [x];
      InsertAllFirstOccurrences(s, p);
      var d := InsertAll(s, p).scanned;
      forall y | y in p
        ensures FirstIndex(scans, y) == FirstIndex(p, y)
      {
        FirstIndexExtend(p, x, y);
      }
      if x !in p {
        assert InsertAll(s, scans).scanned == d + [x];
        AppendFirstRead(d, p, x);
      }
    }
  }

  /** Appending a code never read before keeps a list ordered by first read. */
  lemma AppendFirstRead(d: seq<string>, p: seq<string>, x: string)
    requires x !in p
    requires OrderedByFirstScan(d, p)
    ensures OrderedByFirstScan(d + [x], p + [x])
  {
    FirstIndexLast(p, x);
    var d', scans := d + [x], p + [x];
    forall y | y in p
      ensures FirstIndex(scans, y) == FirstIndex(p, y)
    {
      FirstIndexExtend(p, x, y);
    }
    forall i, j | 0 <= i < j < |d'|
      ensures FirstIndex(scans, d'[i]) < FirstIndex(scans, d'[j])
    {
      assert d'[i] == d[i] && d[i] in p;
      if j < |d| {
        assert d'[j] == d[j];
      }
    }
  }

  /** Two lists ordered by first read, over the same elements, start alike. */
  lemma OrderedByFirstScanHead(a: seq<string>, b: seq<string>, scans: seq<string>)
    requires OrderedByFirstScan(a, scans) && OrderedByFirstScan(b, scans)
    requires forall c :: c in a <==> c in b
    ensures |a| > 0 <==> |b| > 0
    ensures |a| > 0 ==> a[0] == b[0]
  {
    if |b| > 0 {
      assert b[0] in a;
    }
    if |a| > 0 {
      assert a[0] in b;
      var k :| 0 <= k < |b| && b[k] == a[0];
      assert b[0] in a;
      var m :| 0 <= m < |a| && a[m] == b[0];
      assert FirstIndex(scans, b[0]) <= FirstIndex(scans, b[k]);
      assert FirstIndex(scans, a[0]) <= FirstIndex(scans, a[m]);
    }
  }

  /** Dropping the first element of a list ordered by first read drops every
      copy of it. */
  lemma OrderedByFirstScanTail(a: seq<string>, scans: seq<string>, c: string)
    requires OrderedByFirstScan(a, scans)
    requires |a| > 0
    ensures OrderedByFirstScan(a[1..], scans)
    ensures c in a[1..] <==> c in a && c != a[0]
  {
    if c in a[1..] {
      var i :| 1 <= i < |a| && a[i] == c;
      assert FirstIndex(scans, a[0]) < FirstIndex(scans, a[i]);
    }
    if c in a && c != a[0] {
      var j :| 0 <= j < |a| && a[j] == c;
      assert a[1..][j - 1] == c;
    }
  }

  /** Two lists ordered by first read, over the same elements, are equal. */
  lemma {:induction false} OrderedByFirstScanUnique(a: seq<string>, b: seq<string>, scans: seq<string>)
    requires OrderedByFirstScan(a, scans) && OrderedByFirstScan(b, scans)
    requires forall c :: c in a <==> c in b
    ensures a == b
    decreases |a|
  {
    OrderedByFirstScanHead(a, b, scans);
    if |a| > 0 {
      forall c
        ensures c in a[1..] <==> c in b[1..]
      {
        OrderedByFirstScanTail(a, scans, c);
        OrderedByFirstScanTail(b, scans, c);
      }
      OrderedByFirstScanTail(a, scans, a[0]);
      OrderedByFirstScanTail(b, scans, b[0]);
      OrderedByFirstScanUnique(a[1..], b[1..], scans);
      assert a == [a[0]] + a[1..] && b == [b[0]] + b[1..];
    }
  }

  /** Segments first read in generation order are necessarily distinct. */
  lemma OrderedSegmentsDistinct(scans: seq<string>, segments: seq<string>)
    requires FirstScannedInOrder(scans, segments)
    ensures Distinct(segments)
  {
  }

  /** Main reconstruction theorem: if the reads are the generated segments,
      each first read in generation order (repeats allowed), the scanned list
      is the segment list and the reconstruction is their concatenation. */
  lemma ScanInOrderReconstructs(s: Session, scans: seq<string>, segments: seq<string>)
    requires s.scanned == []
    requires FirstScannedInOrder(scans, segments)
    ensures InsertAll(s, scans).scanned == segments
    ensures Reconstruct(InsertAll(s, scans)) == Join(segments)
  {
    InsertAllFirstOccurrences(s, scans);
    OrderedByFirstScanUnique(InsertAll(s, scans).scanned, segments, scans);
  }

  /** The same theorem for the segments of a QR-split payload: a payload
      without line terminators is reconstructed exactly. */
  lemma ScanSplitReconstructs(s: Session, scans: seq<string>, formatted: string)
    requires s.scanned == []
    requires NoLineTerminators(formatted)
    requires FirstScannedInOrder(scans, Split(formatted, SegmentLength))
    ensures Reconstruct(InsertAll(s, scans)) == formatted
  {
    ScanInOrderReconstructs(s, scans, Split(formatted, SegmentLength));
    JoinSplitRoundTrip(formatted, SegmentLength);
  }

  /** Why distinctness matters: when two generated segments are equal, no
      sequence of reads drawn from them ever rebuilds the segment list. */
  lemma {:induction false} RepeatedSegmentsNeverRebuilt(s: Session, scans: seq<string>, segments: seq<string>)
    requires s.scanned == []
    requires !Distinct(segments)
    ensures InsertAll(s, scans).scanned != segments
  {
    InsertAllDistinct(s, scans);
  }

  /** A concrete instance: 256 copies of 'a' split into two equal segments,
      the second read is taken for a repeat, and reconstruction yields only
      the first half. */
  lemma RepeatedSegmentLosesData(s: Session)
    requires s.scanned == []
    ensures var formatted := seq(256, _ => 'a');
            && Reconstruct(InsertAll(s, Split(formatted, SegmentLength))) == formatted[..128]
            && Reconstruct(InsertAll(s, Split(formatted, SegmentLength))) != formatted
  {
    var formatted := seq(256, _ => 'a');
    var segs := Split(formatted, SegmentLength);
    TwoEqualSegments(formatted);
    var once := InsertAll(s, segs[..1]);
    assert segs[..1][..0] == [] && segs[..1][0] == segs[0];
    assert InsertAll(s, []) == s;
    assert once.scanned == [segs[0]];
    assert InsertAll(s, segs) == Insert(once, segs[1]);
    assert InsertAll(s, segs).scanned == [segs[0]];
    assert Join([segs[0]]) == segs[0] + Join([]);
    assert |Join([segs[0]])| == 128;
  }

  /** 256 copies of 'a' split into two equal, full segments. */
  lemma TwoEqualSegments(formatted: string)
    requires formatted == seq(256, _ => 'a')
    ensures var segs := Split(formatted, SegmentLength);
            |segs| == 2 && |segs[0]| == 128 && segs[0] == segs[1] && segs[0] == formatted[..128]
  {
    var segs := Split(formatted, SegmentLength);
    SplitCount(formatted, SegmentLength);
    JoinSplitRoundTrip(formatted, SegmentLength);
    assert |segs| == 2;
    assert segs[..1] == [segs[0]];
    assert Offset(segs, 1) == 128;
    assert segs[0] == formatted[0..128];
    assert segs[1] == formatted[128..128 + |segs[1]|];
    assert segs[0] == segs[1];
  }
}
