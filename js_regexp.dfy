/** The scan a regular expression with the `g` flag makes over a string, for
    String.prototype.match (which returns the matched texts, or null when
    there are none) and String.prototype.replace (which replaces each of
    them). The pattern itself is a parameter: `at(p)` is the end of the match
    the pattern makes when tried at position `p`, or None. Every pattern of
    the core matches at least one code unit, so the scan never has to step
    over an empty match. */
module JsRegExp {
  import opened JsRuntime

  /** The half-open range `[start, end)` of one match. */
  datatype Span = Span(start: nat, end: nat)

  /** Each match `at` reports is non-empty and ends within a string of length `n`. */
  ghost predicate MatchesWithin(n: nat, at: nat -> Option<nat>)
  {
    forall p: nat :: at(p).Some? ==> p < at(p).value <= n
  }

  /** The pattern matches at no position of `[lo, hi)`. */
  ghost predicate NoMatchIn(at: nat -> Option<nat>, lo: nat, hi: nat)
  {
    forall p | lo <= p < hi :: at(p).None?
  }

  /** The reference definition of a `g` scan from `i` over a string of length
      `n`: every span is a match found where it starts, the spans come in
      order without overlapping, and no match starts in any gap before,
      between or after them. */
  ghost predicate IsGlobalScan(n: nat, at: nat -> Option<nat>, i: nat, r: seq<Span>)
  {
    && (forall k | 0 <= k < |r| :: i <= r[k].start && at(r[k].start) == Some(r[k].end))
    && (forall k, l | 0 <= k < l < |r| :: r[k].end <= r[l].start)
    && (forall k | 0 <= k < |r| - 1 :: NoMatchIn(at, r[k].end, r[k + 1].start))
    && (if |r| == 0 then NoMatchIn(at, i, n)
        else NoMatchIn(at, i, r[0].start) && NoMatchIn(at, r[|r| - 1].end, n))
  }

  /** Spans in order, without overlap, inside `[i, n)`. */
  ghost predicate Ordered(r: seq<Span>, i: nat, n: nat)
  {
    && (forall k | 0 <= k < |r| :: i <= r[k].start < r[k].end <= n)
    && (forall k, l | 0 <= k < l < |r| :: r[k].end <= r[l].start)
  }

  /** The regular-expression engine's loop: try the pattern at `i`; on a
      match, record it and go on from its end, otherwise go on from `i + 1`. */
  function GlobalSpans(n: nat, at: nat -> Option<nat>, i: nat): (r: seq<Span>)
    requires i <= n
    requires MatchesWithin(n, at)
    ensures Ordered(r, i, n)
    decreases n - i
  {
    if i == n then []
    else match at(i)
      case Some(e) => [Span(i, e)] + GlobalSpans(n, at, e)
      case None => GlobalSpans(n, at, i + 1)
  }

  /** The engine's loop makes the scan the reference definition describes. */
  lemma {:induction false} GlobalSpansIsScan(n: nat, at: nat -> Option<nat>, i: nat)
    requires i <= n
    requires MatchesWithin(n, at)
    ensures IsGlobalScan(n, at, i, GlobalSpans(n, at, i))
    decreases n - i
  {
    if i < n {
      match at(i)
      case Some(e) =>
        GlobalSpansIsScan(n, at, e);
        ScanAfterMatch(n, at, i, e, GlobalSpans(n, at, e));
      case None =>
        GlobalSpansIsScan(n, at, i + 1);
        ScanAfterMiss(n, at, i, GlobalSpans(n, at, i + 1));
    }
  }

  /** A match at `i` followed by the scan from its end is the scan from `i`. */
  lemma ScanAfterMatch(n: nat, at: nat -> Option<nat>, i: nat, e: nat, rest: seq<Span>)
    requires at(i) == Some(e) && i < e
    requires IsGlobalScan(n, at, e, rest)
    ensures IsGlobalScan(n, at, i, [Span(i, e)] + rest)
  {
  }

  /** No match at `i`: the scan from `i` is the scan from `i + 1`. */
  lemma ScanAfterMiss(n: nat, at: nat -> Option<nat>, i: nat, rest: seq<Span>)
    requires at(i).None?
    requires IsGlobalScan(n, at, i + 1, rest)
    ensures IsGlobalScan(n, at, i, rest)
  {
  }

  /** The reference definition admits exactly one scan, so GlobalSpans is it. */
  lemma {:induction false} GlobalScanUnique(n: nat, at: nat -> Option<nat>, i: nat, r1: seq<Span>, r2: seq<Span>)
    requires i <= n
    requires MatchesWithin(n, at)
    requires IsGlobalScan(n, at, i, r1) && IsGlobalScan(n, at, i, r2)
    ensures r1 == r2
    decreases n - i
  {
    if |r1| > 0 && |r2| > 0 {
      FirstSpanUnique(n, at, i, r1, r2);
      var e := r1[0].end;
      RestIsGlobalScan(n, at, i, r1);
      RestIsGlobalScan(n, at, i, r2);
      GlobalScanUnique(n, at, e, r1[1..], r2[1..]);
      assert r1 == [r1[0]] + r1[1..] && r2 == [r2[0]] + r2[1..];
    } else {
      ScanEmptyIff(n, at, i, r1);
      ScanEmptyIff(n, at, i, r2);
    }
  }

  /** A scan finds nothing exactly when the pattern matches nowhere: this is
      when `match` returns null. */
  lemma ScanEmptyIff(n: nat, at: nat -> Option<nat>, i: nat, r: seq<Span>)
    requires MatchesWithin(n, at)
    requires IsGlobalScan(n, at, i, r)
    ensures r == [] <==> NoMatchIn(at, i, n)
  {
  }

  /** Two scans from the same place find the same first match. */
  lemma FirstSpanUnique(n: nat, at: nat -> Option<nat>, i: nat, r1: seq<Span>, r2: seq<Span>)
    requires MatchesWithin(n, at)
    requires IsGlobalScan(n, at, i, r1) && IsGlobalScan(n, at, i, r2)
    requires |r1| > 0 && |r2| > 0
    ensures r1[0] == r2[0] && i < r1[0].end <= n
  {
  }

  /** What follows the first span is the scan from that span's end. */
  lemma RestIsGlobalScan(n: nat, at: nat -> Option<nat>, i: nat, r: seq<Span>)
    requires MatchesWithin(n, at)
    requires IsGlobalScan(n, at, i, r) && |r| > 0
    ensures IsGlobalScan(n, at, r[0].end, r[1..])
  {
  }

  /** Matches found where they start, each ending no later than the next
      one starts, with no match starting in any gap, are the whole scan:
      checking neighbours is enough. */
  lemma ScanFromNeighbours(n: nat, at: nat -> Option<nat>, i: nat, r: seq<Span>)
    requires forall k | 0 <= k < |r| :: i <= r[k].start < r[k].end && at(r[k].start) == Some(r[k].end)
    requires forall k | 0 <= k < |r| - 1 :: r[k].end <= r[k + 1].start && NoMatchIn(at, r[k].end, r[k + 1].start)
    requires if |r| == 0 then NoMatchIn(at, i, n)
             else NoMatchIn(at, i, r[0].start) && NoMatchIn(at, r[|r| - 1].end, n)
    ensures IsGlobalScan(n, at, i, r)
  {
    forall k, l | 0 <= k < l < |r|
      ensures r[k].end <= r[l].start
    {
      NeighboursInOrder(r, k, l);
    }
  }

  /** Matches that tile `[i, n)` end to end leave no gap, so they are the
      whole scan. */
  lemma TiledScan(n: nat, at: nat -> Option<nat>, i: nat, r: seq<Span>)
    requires |r| > 0 && r[0].start == i && r[|r| - 1].end == n
    requires forall k | 0 <= k < |r| :: r[k].start < r[k].end && at(r[k].start) == Some(r[k].end)
    requires forall k | 0 <= k < |r| - 1 :: r[k].end == r[k + 1].start
    ensures IsGlobalScan(n, at, i, r)
  {
    forall k | 0 < k < |r|
      ensures i <= r[k].start
    {
      NeighboursInOrder(r, 0, k);
    }
    ScanFromNeighbours(n, at, i, r);
  }

  /** Spans each ending before the next one starts are in order throughout. */
  lemma {:induction false} NeighboursInOrder(r: seq<Span>, k: nat, l: nat)
    requires k < l < |r|
    requires forall j | 0 <= j < |r| :: r[j].start < r[j].end
    requires forall j | 0 <= j < |r| - 1 :: r[j].end <= r[j + 1].start
    ensures r[k].end <= r[l].start
    decreases l - k
  {
    if k + 1 < l {
      NeighboursInOrder(r, k + 1, l);
    }
  }

  /** The matched texts, as `match` returns them. */
  function Slices(s: JsString, spans: seq<Span>): (r: seq<JsString>)
    requires Ordered(spans, 0, |s|)
    ensures |r| == |spans|
    ensures forall k | 0 <= k < |r| :: r[k] == s[spans[k].start..spans[k].end]
  {
    seq(|spans|, k requires 0 <= k < |spans| => s[spans[k].start..spans[k].end])
  }

  /** How many units the spans cover together. */
  function Covered(spans: seq<Span>): nat
  {
    if |spans| == 0 then 0
    else (if spans[0].start <= spans[0].end then spans[0].end - spans[0].start else 0) + Covered(spans[1..])
  }

  /** `s` from `i` on with every span deleted, as `replace(re, '')` leaves it:
      exactly the covered units go, and the others stay in order. */
  function Erase(s: JsString, spans: seq<Span>, i: nat): (r: JsString)
    requires i <= |s|
    requires Ordered(spans, i, |s|)
    ensures |r| == |s| - i - Covered(spans)
    ensures IsSubsequence(r, s[i..])
    decreases |spans|
  {
    if |spans| == 0 then
      SubsequenceOfItself(s[i..]);
      s[i..]
    else
      var rest := Erase(s, spans[1..], spans[0].end);
      SubsequenceOfLater(rest, s, spans[0].start, spans[0].end);
      SubsequenceAppend(s[i..spans[0].start], rest, s[spans[0].start..]);
      assert s[i..] == s[i..spans[0].start] + s[spans[0].start..];
      s[i..spans[0].start] + rest
  }

  /** Deleting two spans from the start keeps what lies around them. */
  lemma EraseTwo(s: JsString, a: nat, b: nat, c: nat, d: nat)
    requires a < b <= c < d <= |s|
    ensures Erase(s, [Span(a, b), Span(c, d)], 0) == s[0..a] + s[b..c] + s[d..]
  {
    var spans := [Span(a, b), Span(c, d)];
    assert spans[1..] == [Span(c, d)];
    EraseOne(s, b, c, d);
  }

  /** Deleting one span keeps what lies around it. */
  lemma EraseOne(s: JsString, i: nat, c: nat, d: nat)
    requires i <= c < d <= |s|
    ensures Erase(s, [Span(c, d)], i) == s[i..c] + s[d..]
  {
    assert [Span(c, d)][1..] == [];
  }
}
