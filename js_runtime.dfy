/** The pieces of the JavaScript runtime the two core files lean on:
    strings as UTF-16 code units, String.prototype.split with a one-unit
    separator, String.prototype.trim, Array.prototype.join and
    Array.prototype.filter. */
module JsRuntime {

  datatype Option<T> = None | Some(value: T)

  /** A JavaScript string is a sequence of UTF-16 code units: `length`,
      indexing, `trim` and regular expressions without the `u` flag all work
      one code unit at a time, so a character outside the BMP is two units. */
  type CodeUnit = x: int | 0 <= x < 0x1_0000
  type JsString = seq<CodeUnit>

  const LF: CodeUnit := 0x0A
  const SPACE: CodeUnit := 0x20

  /** The code units of a literal written with BMP characters only. */
  function Str(s: string): JsString
  {
    seq(|s|, i requires 0 <= i < |s| => if s[i] as int < 0x1_0000 then s[i] as int else 0xFFFD)
  }

  /** LineTerminator: the units the regular-expression `.` does not match. */
  predicate IsLineTerminator(c: CodeUnit)
  {
    c == 0x0A || c == 0x0D || c == 0x2028 || c == 0x2029
  }

  /** WhiteSpace or LineTerminator: the class `\s`, and what `trim` removes
      (the Zs space separators are U+0020, U+00A0, U+1680, U+2000-U+200A,
      U+202F, U+205F and U+3000). */
  predicate IsWhiteSpace(c: CodeUnit)
  {
    || c == 0x09 || c == 0x0B || c == 0x0C || c == 0x20 || c == 0xA0 || c == 0xFEFF
    || c == 0x1680 || 0x2000 <= c <= 0x200A || c == 0x202F || c == 0x205F || c == 0x3000
    || IsLineTerminator(c)
  }

  /** The class `\d`: ASCII digits only. */
  predicate IsDigit(c: CodeUnit)
  {
    0x30 <= c <= 0x39
  }

  /** `w` occurs in `s` at position `p`. */
  predicate StartsAt(s: JsString, p: nat, w: JsString)
  {
    p + |w| <= |s| && s[p..p + |w|] == w
  }

  /** The length of the longest run of whitespace that starts at `p`: how far
      a greedy `\s+` (or `\s*`) reaches from there. */
  function WsRun(s: JsString, p: nat): (n: nat)
    requires p <= |s|
    ensures p + n <= |s|
    ensures forall k | p <= k < p + n :: IsWhiteSpace(s[k])
    ensures p + n < |s| ==> !IsWhiteSpace(s[p + n])
    decreases |s| - p
  {
    if p == |s| || !IsWhiteSpace(s[p]) then 0 else 1 + WsRun(s, p + 1)
  }

  // ---------------------------------------------------------------------------
  // Array.prototype.join

  /** `parts.join(sep)`: an empty array joins to the empty string. */
  function Join(parts: seq<JsString>, sep: JsString): JsString
    decreases |parts|
  {
    if |parts| == 0 then []
    else if |parts| == 1 then parts[0]
    else parts[0] + sep + Join(parts[1..], sep)
  }

  /** Two parts join around one separator. */
  lemma JoinTwo(a: JsString, b: JsString, sep: JsString)
    ensures Join([a, b], sep) == a + sep + b
  {
    assert [a, b][1..] == [b];
  }

  /** Joining two non-empty arrays puts exactly one separator between them. */
  lemma {:induction false} JoinAppend(a: seq<JsString>, b: seq<JsString>, sep: JsString)
    requires |a| > 0 && |b| > 0
    ensures Join(a + b, sep) == Join(a, sep) + sep + Join(b, sep)
    decreases |a|
  {
    if |a| == 1 {
      assert (a + b)[1..] == b;
    } else {
      assert (a + b)[1..] == a[1..] + b;
      JoinAppend(a[1..], b, sep);
    }
  }

  /** A property every unit of every part and of the separator has, every
      unit of the joined string has. */
  lemma {:induction false} JoinKeeps(parts: seq<JsString>, sep: JsString, ok: CodeUnit -> bool)
    requires forall c | c in sep :: ok(c)
    requires forall k, c | 0 <= k < |parts| && c in parts[k] :: ok(c)
    ensures forall c | c in Join(parts, sep) :: ok(c)
    decreases |parts|
  {
    if |parts| > 1 {
      JoinKeeps(parts[1..], sep, ok);
      assert forall c | c in parts[0] :: ok(c) by {
        assert 0 < |parts|;
      }
    }
  }

  /** A joined string is empty exactly when the array is empty, if one of its
      parts is never empty. */
  lemma JoinEmpty(parts: seq<JsString>, sep: JsString)
    requires forall k | 0 <= k < |parts| :: parts[k] != []
    ensures Join(parts, sep) == [] <==> parts == []
    decreases |parts|
  {
  }

  // ---------------------------------------------------------------------------
  // String.prototype.split with a one-unit separator

  /** `s.split(sep)`: the pieces between the occurrences of `sep`; the empty
      string splits into one empty piece. */
  function Split(s: JsString, sep: CodeUnit): (r: seq<JsString>)
    ensures |r| == multiset(s)[sep] + 1
    ensures forall k | 0 <= k < |r| :: sep !in r[k]
    decreases |s|
  {
    if |s| == 0 then [[]]
    else
      var rest := Split(s[1..], sep);
      assert s == [s[0]] + s[1..];
      if s[0] == sep then [[]] + rest
      else
        assert sep !in rest[0];
        [[s[0]] + rest[0]] + rest[1..]
  }

  /** Joining the pieces back with the separator gives the string again. */
  lemma {:induction false} SplitThenJoin(s: JsString, sep: CodeUnit)
    ensures Join(Split(s, sep), [sep]) == s
    decreases |s|
  {
    if |s| > 0 {
      SplitThenJoin(s[1..], sep);
      SplitFront(s[0], s[1..], sep);
      assert s == [s[0]] + s[1..];
    }
  }

  /** One unit in front of a string whose pieces join back to it. */
  lemma SplitFront(c: CodeUnit, t: JsString, sep: CodeUnit)
    requires Join(Split(t, sep), [sep]) == t
    ensures Join(Split([c] + t, sep), [sep]) == [c] + t
  {
    var s := [c] + t;
    assert s[0] == c && s[1..] == t;
    var rest := Split(t, sep);
    if c == sep {
      assert Split(s, sep) == [[]] + rest;
      JoinAfterEmpty(rest, [sep]);
    } else {
      assert Split(s, sep) == [[c] + rest[0]] + rest[1..];
      JoinExtendFirst(rest, c, [sep]);
    }
  }

  /** An empty first part leaves just the separator in front. */
  lemma JoinAfterEmpty(rest: seq<JsString>, sep: JsString)
    requires |rest| > 0
    ensures Join([[]] + rest, sep) == sep + Join(rest, sep)
  {
    assert ([[]] + rest)[1..] == rest;
  }

  /** Lengthening the first part at its front lengthens the join alike. */
  lemma JoinExtendFirst(rest: seq<JsString>, c: CodeUnit, sep: JsString)
    requires |rest| > 0
    ensures Join([[c] + rest[0]] + rest[1..], sep) == [c] + Join(rest, sep)
  {
    var parts := [[c] + rest[0]] + rest[1..];
    assert parts[1..] == rest[1..];
    if |rest| > 1 {
      assert Join(rest, sep) == rest[0] + sep + Join(rest[1..], sep);
    }
  }

  /** A string without the separator is one piece. */
  lemma {:induction false} SplitWithoutSep(a: JsString, sep: CodeUnit)
    requires sep !in a
    ensures Split(a, sep) == [a]
    decreases |a|
  {
    if |a| > 0 {
      assert sep !in a[1..];
      SplitWithoutSep(a[1..], sep);
      assert [a[0]] + a[1..] == a;
    }
  }

  /** The first piece of `a + [sep] + b` is `a` when `a` has no separator. */
  lemma {:induction false} SplitAtFirstSep(a: JsString, b: JsString, sep: CodeUnit)
    requires sep !in a
    ensures Split(a + [sep] + b, sep) == [a] + Split(b, sep)
    decreases |a|
  {
    var s := a + [sep] + b;
    if |a| == 0 {
      assert s[0] == sep && s[1..] == b;
    } else {
      assert s[0] == a[0] && s[1..] == a[1..] + [sep] + b;
      assert sep !in a[1..];
      SplitAtFirstSep(a[1..], b, sep);
      assert [a[0]] + a[1..] == a;
    }
  }

  /** Splitting a join of separator-free pieces gives the pieces back. */
  lemma {:induction false} JoinThenSplit(parts: seq<JsString>, sep: CodeUnit)
    requires |parts| > 0
    requires forall k | 0 <= k < |parts| :: sep !in parts[k]
    ensures Split(Join(parts, [sep]), sep) == parts
    decreases |parts|
  {
    if |parts| == 1 {
      SplitWithoutSep(parts[0], sep);
    } else {
      JoinThenSplit(parts[1..], sep);
      SplitAtFirstSep(parts[0], Join(parts[1..], [sep]), sep);
      assert [parts[0]] + parts[1..] == parts;
    }
  }

  // ---------------------------------------------------------------------------
  // String.prototype.trim

  /** `s` has no whitespace at either end. */
  predicate IsTrimmed(s: JsString)
  {
    |s| == 0 || (!IsWhiteSpace(s[0]) && !IsWhiteSpace(s[|s| - 1]))
  }

  /** Drops the leading whitespace: what is left is a suffix of `s`. */
  function TrimStart(s: JsString): (r: JsString)
    ensures |r| <= |s| && r == s[|s| - |r|..]
    ensures forall k | 0 <= k < |s| - |r| :: IsWhiteSpace(s[k])
    ensures |r| > 0 ==> !IsWhiteSpace(r[0])
    decreases |s|
  {
    if |s| > 0 && IsWhiteSpace(s[0]) then TrimStart(s[1..]) else s
  }

  /** Drops the trailing whitespace: what is left is a prefix of `s`. */
  function TrimEnd(s: JsString): (r: JsString)
    ensures |r| <= |s| && r == s[..|r|]
    ensures forall k | |r| <= k < |s| :: IsWhiteSpace(s[k])
    ensures |r| > 0 ==> !IsWhiteSpace(r[|r| - 1])
    decreases |s|
  {
    if |s| > 0 && IsWhiteSpace(s[|s| - 1]) then TrimEnd(s[..|s| - 1]) else s
  }

  /** `r` is the slice of `s` from `a` on, with only whitespace before it and
      after it. */
  ghost predicate InnerAfterWhiteSpace(s: JsString, a: nat, r: JsString)
  {
    && a + |r| <= |s| && r == s[a..a + |r|]
    && (forall k | 0 <= k < a :: IsWhiteSpace(s[k]))
    && (forall k | a + |r| <= k < |s| :: IsWhiteSpace(s[k]))
  }

  /** A prefix `r` of a suffix `t` of `s`, with whitespace only in front of
      `t` and behind `r` inside `t`, is a slice with whitespace around it. */
  lemma PrefixOfSuffix(s: JsString, t: JsString, r: JsString)
    requires |t| <= |s| && t == s[|s| - |t|..] && forall k | 0 <= k < |s| - |t| :: IsWhiteSpace(s[k])
    requires |r| <= |t| && r == t[..|r|] && forall k | |r| <= k < |t| :: IsWhiteSpace(t[k])
    ensures InnerAfterWhiteSpace(s, |s| - |t|, r)
  {
    var a := |s| - |t|;
    forall k | a + |r| <= k < |s|
      ensures IsWhiteSpace(s[k])
    {
      assert s[k] == t[k - a];
    }
  }

  /** `s.trim()`: the slice of `s` left once whitespace is dropped from both
      ends; it has no whitespace at either end and takes no unit that is not
      in `s`. */
  function Trim(s: JsString): (r: JsString)
    ensures IsTrimmed(r)
    ensures |r| <= |s|
    ensures forall c | c in r :: c in s
    ensures exists a: nat :: InnerAfterWhiteSpace(s, a, r)
    ensures IsTrimmed(s) ==> r == s
  {
    var t := TrimStart(s);
    var r := TrimEnd(t);
    PrefixOfSuffix(s, t, r);
    assert forall c | c in r :: c in t;
    assert forall c | c in t :: c in s;
    if |r| > 0 then
      assert r[0] == t[0];
      r
    else r
  }

  // ---------------------------------------------------------------------------
  // Array.prototype.filter

  /** `a` is `b` with some elements left out, the rest kept in order. */
  ghost predicate IsSubsequence<T>(a: seq<T>, b: seq<T>)
    decreases |b|
  {
    |a| == 0 || (|b| > 0 && ((a[0] == b[0] && IsSubsequence(a[1..], b[1..])) || IsSubsequence(a, b[1..])))
  }

  /** Every sequence is a subsequence of itself. */
  lemma {:induction false} SubsequenceOfItself<T>(a: seq<T>)
    ensures IsSubsequence(a, a)
    decreases |a|
  {
    if |a| > 0 {
      SubsequenceOfItself(a[1..]);
    }
  }

  /** A subsequence of a suffix is a subsequence of any longer suffix. */
  lemma {:induction false} SubsequenceOfLater<T>(a: seq<T>, s: seq<T>, i: nat, j: nat)
    requires i <= j <= |s|
    requires IsSubsequence(a, s[j..])
    ensures IsSubsequence(a, s[i..])
    decreases j - i
  {
    if i < j {
      SubsequenceOfLater(a, s, i + 1, j);
      assert s[i..][1..] == s[i + 1..];
    }
  }

  /** Keeping a prefix whole in front of a subsequence gives a subsequence. */
  lemma {:induction false} SubsequenceAppend<T>(p: seq<T>, a: seq<T>, b: seq<T>)
    requires IsSubsequence(a, b)
    ensures IsSubsequence(p + a, p + b)
    decreases |p|
  {
    if |p| > 0 {
      SubsequenceAppend(p[1..], a, b);
      assert (p + a)[1..] == p[1..] + a;
      assert (p + b)[1..] == p[1..] + b;
      assert (p + a)[0] == (p + b)[0];
    } else {
      assert p + a == a && p + b == b;
    }
  }

  /** A subsequence of a subsequence is a subsequence. */
  lemma {:induction false} SubsequenceTransitive<T>(a: seq<T>, b: seq<T>, c: seq<T>)
    requires IsSubsequence(a, b) && IsSubsequence(b, c)
    ensures IsSubsequence(a, c)
    decreases |c|
  {
    if |a| > 0 {
      assert |b| > 0 && |c| > 0;
      if b[0] == c[0] && IsSubsequence(b[1..], c[1..]) {
        if a[0] == b[0] && IsSubsequence(a[1..], b[1..]) {
          SubsequenceTransitive(a[1..], b[1..], c[1..]);
        } else {
          SubsequenceTransitive(a, b[1..], c[1..]);
          SubsequenceDropFirst(a, b[1..]);
        }
      } else {
        SubsequenceTransitive(a, b, c[1..]);
      }
    }
  }

  /** Dropping the first element of a subsequence leaves a subsequence. */
  lemma {:induction false} SubsequenceDropFirst<T>(a: seq<T>, b: seq<T>)
    requires IsSubsequence(a, b)
    ensures |a| > 0 ==> IsSubsequence(a[1..], b)
    decreases |b|
  {
    if |a| > 0 {
      if a[0] == b[0] && IsSubsequence(a[1..], b[1..]) {
        SubsequenceWeaken(a[1..], b);
      } else {
        SubsequenceDropFirst(a, b[1..]);
        SubsequenceWeaken(a[1..], b);
      }
    }
  }

  /** A subsequence of the tail is a subsequence of the whole. */
  lemma SubsequenceWeaken<T>(a: seq<T>, b: seq<T>)
    requires |b| > 0 && IsSubsequence(a, b[1..])
    ensures IsSubsequence(a, b)
  {
  }

  /** `xs.filter(keep)`: the elements `keep` accepts, in their order. */
  function Filter<T(==)>(xs: seq<T>, keep: T -> bool): (r: seq<T>)
    ensures |r| <= |xs|
    ensures forall k | 0 <= k < |r| :: keep(r[k])
    ensures forall k | 0 <= k < |r| :: r[k] in xs
    ensures forall k | 0 <= k < |xs| && keep(xs[k]) :: xs[k] in r
    ensures IsSubsequence(r, xs)
    decreases |xs|
  {
    if |xs| == 0 then []
    else
      var rest := Filter(xs[1..], keep);
      assert xs == [xs[0]] + xs[1..];
      if keep(xs[0]) then
        assert ([xs[0]] + rest)[1..] == rest;
        [xs[0]] + rest
      else rest
  }

  /** `filter` keeps every accepted value as many times as it occurs, and
      no other value; with the order kept, this fixes the result. */
  lemma {:induction false} FilterCounts<T(!new)>(xs: seq<T>, keep: T -> bool)
    ensures forall x :: multiset(Filter(xs, keep))[x] == if keep(x) then multiset(xs)[x] else 0
    decreases |xs|
  {
    if |xs| > 0 {
      FilterCounts(xs[1..], keep);
      FilterCons(xs[0], xs[1..], keep);
      assert xs == [xs[0]] + xs[1..];
      assert multiset(xs) == multiset([xs[0]]) + multiset(xs[1..]);
    }
  }

  /** Filtering goes element by element from the front. */
  lemma FilterCons<T(!new)>(x: T, xs: seq<T>, keep: T -> bool)
    ensures Filter([x] + xs, keep) == (if keep(x) then [x] else []) + Filter(xs, keep)
  {
    assert ([x] + xs)[1..] == xs;
  }

  /** A filter that accepts everything keeps the array as it is. */
  lemma {:induction false} FilterKeepsAll<T(!new)>(xs: seq<T>, keep: T -> bool)
    requires forall k | 0 <= k < |xs| :: keep(xs[k])
    ensures Filter(xs, keep) == xs
    decreases |xs|
  {
    if |xs| > 0 {
      assert keep(xs[0]);
      FilterKeepsAll(xs[1..], keep);
      assert [xs[0]] + xs[1..] == xs;
    }
  }

  /** Two filters that accept everything keep the array as it is. */
  lemma FilterTwiceKeepsAll<T(!new)>(xs: seq<T>, p: T -> bool, q: T -> bool)
    requires forall k | 0 <= k < |xs| :: p(xs[k]) && q(xs[k])
    ensures Filter(Filter(xs, p), q) == xs
  {
    FilterKeepsAll(xs, p);
    FilterKeepsAll(xs, q);
  }

  /** Two tests that agree on every element filter alike. */
  lemma {:induction false} FilterAgree<T(!new)>(xs: seq<T>, p: T -> bool, q: T -> bool)
    requires forall k | 0 <= k < |xs| :: p(xs[k]) == q(xs[k])
    ensures Filter(xs, p) == Filter(xs, q)
    decreases |xs|
  {
    if |xs| > 0 {
      assert p(xs[0]) == q(xs[0]);
      FilterAgree(xs[1..], p, q);
    }
  }
}
