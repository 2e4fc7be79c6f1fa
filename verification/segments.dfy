/** The segment splitter `formatted.match(/.{1,128}/g) ?? []` and its inverse
    `segments.join('')`.

    Under ECMAScript RegExp semantics (ECMA-262, section 22.2) a pattern without
    the `u` and `s` flags works on UTF-16 code units and `.` matches any single
    code unit that is not a LineTerminator (ECMA-262, section 12.3: LF, CR,
    U+2028, U+2029).  A `char` here is a Unicode scalar value, so the model
    covers strings in which every character is a single code unit: none above
    U+FFFF and no lone surrogates. */
module Segments {
  import opened Wrappers

  /** Reliable payload of one QR code in the components' QR transport. */
  const SegmentLength: nat := 128

  predicate IsLineTerminator(c: char) {
    c == '\n' || c == '\r' || c == '\U{2028}' || c == '\U{2029}'
  }

  predicate NoLineTerminators(s: string) {
    forall i :: 0 <= i < |s| ==> !IsLineTerminator(s[i])
  }

  /** Length of the greedy match of `.{1,n}` anchored at the start of `s`
      (zero when the pattern does not match there). */
  function GreedyRun(s: string, n: nat): (k: nat)
    ensures k <= n && k <= |s|
    ensures NoLineTerminators(s[..k])
    ensures k < n && k < |s| ==> IsLineTerminator(s[k])
  {
    if |s| == 0 || n == 0 || IsLineTerminator(s[0]) then 0
    else 1 + GreedyRun(s[1..], n - 1)
  }

  /** All matches of the global pattern `.{1,n}`, left to right: the search
      skips every position where the pattern cannot start (a line terminator)
      and otherwise consumes the greedy match. */
  function Matches(s: string, n: nat): (r: seq<string>)
    requires 1 <= n
    ensures forall i :: 0 <= i < |r| ==> 1 <= |r[i]| <= n && NoLineTerminators(r[i])
    decreases |s|
  {
    if |s| == 0 then []
    else if IsLineTerminator(s[0]) then Matches(s[1..], n)
    else
      var k := GreedyRun(s, n);
      [s[..k]] + Matches(s[k..], n)
  }

  /** `String.prototype.match` with a global pattern: `null` (here `None`)
      when nothing matched, the array of matches otherwise. */
  function MatchAll(s: string, n: nat): (r: Option<seq<string>>)
    requires 1 <= n
  {
    var ms := Matches(s, n);
    if |ms| == 0 then None else Some(ms)
  }

  /** `formatted.match(/.{1,n}/g) ?? []`. */
  function Split(s: string, n: nat): (r: seq<string>)
    requires 1 <= n
    ensures forall i :: 0 <= i < |r| ==> 1 <= |r[i]| <= n
    ensures forall i :: 0 <= i < |r| ==> NoLineTerminators(r[i])
    ensures |s| == 0 ==> r == []
  {
    MatchAll(s, n).GetOr([])
  }

  /** Total number of code units in `segments`. */
  function TotalLength(segments: seq<string>): nat
  {
    if |segments| == 0 then 0 else |segments[0]| + TotalLength(segments[1..])
  }

  /** Where segment `i` starts once the segments are laid end to end. */
  function Offset(segments: seq<string>, i: nat): nat
    requires i <= |segments|
  {
    TotalLength(segments[..i])
  }

  lemma OffsetStep(segments: seq<string>, i: nat)
    requires 0 < i <= |segments|
    ensures Offset(segments, i) == |segments[0]| + Offset(segments[1..], i - 1)
  {
    assert segments[..i][1..] == segments[1..][..i - 1];
  }

  /** `segments.join('')`: left-to-right concatenation, no reordering.  The
      result is exactly as long as all segments together, and segment `i`
      sits at the position where the earlier segments end. */
  function Join(segments: seq<string>): (r: string)
    ensures |r| == TotalLength(segments)
    ensures forall i :: 0 <= i < |segments| ==>
              && Offset(segments, i) + |segments[i]| <= |r|
              && r[Offset(segments, i)..Offset(segments, i) + |segments[i]|] == segments[i]
  {
    if |segments| == 0 then []
    else
      var head, rest := segments[0], Join(segments[1..]);
      var r := head + rest;
      assert forall i :: 0 <= i < |segments| ==>
               && Offset(segments, i) + |segments[i]| <= |r|
               && r[Offset(segments, i)..Offset(segments, i) + |segments[i]|] == segments[i] by {
        forall i | 0 <= i < |segments|
          ensures && Offset(segments, i) + |segments[i]| <= |r|
                  && r[Offset(segments, i)..Offset(segments, i) + |segments[i]|] == segments[i]
        {
          if i == 0 {
            assert segments[..0] == [];
            assert r[..|head|] == head;
          } else {
            OffsetStep(segments, i);
            var o := Offset(segments[1..], i - 1);
            assert segments[1..][i - 1] == segments[i];
            assert r[|head| + o..|head| + o + |segments[i]|] == rest[o..o + |segments[i]|];
          }
        }
      }
      r
  }

  /** Reference definition: the code units `.` can match, in order. */
  function StripLineTerminators(s: string): string
  {
    if |s| == 0 then []
    else (if IsLineTerminator(s[0]) then [] else [s[0]]) + StripLineTerminators(s[1..])
  }

  function Min(a: int, b: int): int { if a <= b then a else b }

  // ---------------------------------------------------------------------------
  // Lemmas

  lemma {:induction false} JoinAppend(a: seq<string>, b: seq<string>)
    ensures Join(a + b) == Join(a) + Join(b)
  {
    if |a| == 0 {
      assert a + b == b;
    } else {
      assert (a + b)[0] == a[0];
      assert (a + b)[1..] == a[1..] + b;
      JoinAppend(a[1..], b);
    }
  }

  lemma {:induction false} StripAppend(a: string, b: string)
    ensures StripLineTerminators(a + b) == StripLineTerminators(a) + StripLineTerminators(b)
  {
    if |a| == 0 {
      assert a + b == b;
    } else {
      assert (a + b)[0] == a[0];
      assert (a + b)[1..] == a[1..] + b;
      StripAppend(a[1..], b);
    }
  }

  lemma {:induction false} StripLength(s: string)
    ensures |StripLineTerminators(s)| <= |s|
  {
    if |s| > 0 {
      StripLength(s[1..]);
    }
  }

  /** Removing line terminators changes a string exactly when it has one. */
  lemma {:induction false} StripIdentity(s: string)
    ensures StripLineTerminators(s) == s <==> NoLineTerminators(s)
  {
    if |s| > 0 {
      StripIdentity(s[1..]);
      StripLength(s[1..]);
      if IsLineTerminator(s[0]) {
        assert |StripLineTerminators(s)| < |s|;
      } else {
        assert StripLineTerminators(s) == [s[0]] + StripLineTerminators(s[1..]);
        assert s == [s[0]] + s[1..];
        assert NoLineTerminators(s) <==> NoLineTerminators(s[1..]) by {
          if NoLineTerminators(s[1..]) {
            forall i | 0 <= i < |s| ensures !IsLineTerminator(s[i]) {
              if i > 0 { assert s[i] == s[1..][i - 1]; }
            }
          }
          if NoLineTerminators(s) {
            forall i | 0 <= i < |s[1..]| ensures !IsLineTerminator(s[1..][i]) {
              assert s[1..][i] == s[i + 1];
            }
          }
        }
      }
    }
  }

  /** The matches, concatenated, are exactly the code units `.` can match. */
  lemma {:induction false} JoinMatches(s: string, n: nat)
    requires 1 <= n
    ensures Join(Matches(s, n)) == StripLineTerminators(s)
    decreases |s|
  {
    if |s| == 0 {
    } else if IsLineTerminator(s[0]) {
      JoinMatches(s[1..], n);
    } else {
      var k := GreedyRun(s, n);
      var rest := Matches(s[k..], n);
      assert Matches(s, n) == [s[..k]] + rest;
      assert ([s[..k]] + rest)[1..] == rest;
      assert Join(Matches(s, n)) == s[..k] + Join(rest);
      JoinMatches(s[k..], n);
      assert s == s[..k] + s[k..];
      StripAppend(s[..k], s[k..]);
      StripIdentity(s[..k]);
    }
  }

  /** Joining the segments gives back the input with its line terminators
      removed: the split loses every line terminator and nothing else. */
  lemma JoinSplit(s: string, n: nat)
    requires 1 <= n
    ensures Join(Split(s, n)) == StripLineTerminators(s)
  {
    JoinMatches(s, n);
  }

  /** Round trip: joining the segments returns the formatted string exactly,
      and only when it holds no line terminator. */
  lemma JoinSplitRoundTrip(s: string, n: nat)
    requires 1 <= n
    ensures Join(Split(s, n)) == s <==> NoLineTerminators(s)
  {
    JoinSplit(s, n);
    StripIdentity(s);
  }

  /** `match` yields `null` exactly when no code unit of the input can be
      matched by `.`; this includes the empty string. */
  lemma {:induction false} MatchAllNone(s: string, n: nat)
    requires 1 <= n
    ensures MatchAll(s, n).None? <==> StripLineTerminators(s) == []
  {
    JoinMatches(s, n);
    var ms := Matches(s, n);
    if |ms| > 0 {
      assert Join(ms) == ms[0] + Join(ms[1..]);
      assert |ms[0]| >= 1;
    }
  }

  /** On a line-terminator-free string the greedy run is as long as allowed. */
  lemma GreedyRunLineFree(s: string, n: nat)
    requires NoLineTerminators(s)
    ensures GreedyRun(s, n) == Min(n, |s|)
  {
  }

  lemma CeilDivOne(len: nat, n: nat)
    requires 1 <= len <= n
    ensures (len + n - 1) / n == 1
  {
  }

  lemma CeilDivStep(len: nat, n: nat)
    requires 1 <= n < len
    ensures (len + n - 1) / n == (len - n + n - 1) / n + 1
  {
    var x := len - 1;
    var q, r := x / n, x % n;
    assert x == q * n + r;
    assert x + n == (q + 1) * n + r;
    DivUnique(x + n, n, q + 1, r);
  }

  lemma DivUnique(y: nat, n: nat, q: nat, r: nat)
    requires 1 <= n && r < n && y == q * n + r
    ensures y / n == q
  {
    var q', r' := y / n, y % n;
    assert y == q' * n + r';
    if q' > q {
      MulMonotone(q + 1, q', n);
      assert false;
    } else if q' < q {
      MulMonotone(q' + 1, q, n);
      assert false;
    }
  }

  lemma MulMonotone(a: nat, b: nat, n: nat)
    requires a <= b
    ensures a * n <= b * n
  {
    assert b * n == a * n + (b - a) * n;
  }

  /** On a line-terminator-free string of length L the split has
      ceil(L / n) segments, and every segment but the last is full. */
  lemma {:induction false} SplitLineFree(s: string, n: nat)
    requires 1 <= n
    requires NoLineTerminators(s)
    ensures |Matches(s, n)| == (|s| + n - 1) / n
    ensures forall i :: 0 <= i < |Matches(s, n)| - 1 ==> |Matches(s, n)[i]| == n
    decreases |s|
  {
    if |s| > 0 {
      GreedyRunLineFree(s, n);
      var k := Min(n, |s|);
      var rest := Matches(s[k..], n);
      assert Matches(s, n) == [s[..k]] + rest;
      assert NoLineTerminators(s[k..]) by {
        forall i | 0 <= i < |s[k..]| ensures !IsLineTerminator(s[k..][i]) {
          assert s[k..][i] == s[k + i];
        }
      }
      SplitLineFree(s[k..], n);
      if |s| <= n {
        assert rest == [];
        CeilDivOne(|s|, n);
      } else {
        assert |s[k..]| == |s| - n;
        CeilDivStep(|s|, n);
      }
    }
  }

  lemma SplitIsMatches(s: string, n: nat)
    requires 1 <= n
    ensures Split(s, n) == Matches(s, n)
  {
  }

  /** A non-empty, line-terminator-free string of length L splits into
      ceil(L / n) segments, all of length n except possibly the last. */
  lemma SplitCount(s: string, n: nat)
    requires 1 <= n
    requires NoLineTerminators(s)
    ensures |Split(s, n)| == (|s| + n - 1) / n
    ensures forall i :: 0 <= i < |Split(s, n)| - 1 ==> |Split(s, n)[i]| == n
  {
    SplitIsMatches(s, n);
    SplitLineFree(s, n);
  }
}
