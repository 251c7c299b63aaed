/** Python's built-in string operations that the converter relies on: `p in s`,
    `s.replace(pat, rep)`, `s.split(sep)` and `sep.join(parts)`, with strings as
    sequences of characters. */
module Strings {

  /** `s.startswith(p)` */
  predicate StartsWith(s: string, p: string) {
    |p| <= |s| && s[..|p|] == p
  }

  /** `p in s`: some position of `s` starts a copy of `p`. */
  predicate Contains(s: string, p: string)
    decreases |s|
  {
    StartsWith(s, p) || (|s| > 0 && Contains(s[1..], p))
  }

  /** The shorter of `a` and `b` is a prefix of the longer one. */
  ghost predicate Compatible(a: string, b: string) {
    forall i :: 0 <= i < |a| && i < |b| ==> a[i] == b[i]
  }

  /** No copy of `b` can begin at a position of `a`, whatever text follows `a`. */
  ghost predicate NoStartWithin(a: string, b: string) {
    forall j :: 0 <= j < |a| ==> !Compatible(a[j..], b)
  }

  lemma AppendAssociative(a: string, b: string, c: string)
    ensures a + (b + c) == (a + b) + c
  {
  }

  lemma DropFirst(a: string, b: string)
    requires |a| > 0
    ensures (a + b)[1..] == a[1..] + b
  {
  }

  // ---------------------------------------------------------------------------
  // Facts about StartsWith and Contains
  // ---------------------------------------------------------------------------

  lemma {:induction false} ContainsLength(s: string, p: string)
    ensures Contains(s, p) ==> |p| <= |s|
    decreases |s|
  {
    if |s| > 0 {
      ContainsLength(s[1..], p);
    }
  }

  /** A copy of `p` starting at position `j` of `s` is an occurrence of `p` in `s`. */
  lemma {:induction false} ContainsAt(s: string, p: string, j: nat)
    requires j <= |s| && StartsWith(s[j..], p)
    ensures Contains(s, p)
    decreases j
  {
    if j == 0 {
      assert s[j..] == s;
    } else {
      assert s[1..][j - 1..] == s[j..];
      ContainsAt(s[1..], p, j - 1);
    }
  }

  lemma {:induction false} ContainsInSuffix(v: string, y: string, p: string)
    ensures Contains(y, p) ==> Contains(v + y, p)
    decreases |v|
  {
    if |v| == 0 {
      assert v + y == y;
    } else {
      ContainsInSuffix(v[1..], y, p);
      assert (v + y)[1..] == v[1..] + y;
    }
  }

  lemma {:induction false} ContainsInPrefix(y: string, w: string, p: string)
    ensures Contains(y, p) ==> Contains(y + w, p)
    decreases |y|
  {
    if StartsWith(y, p) {
      assert (y + w)[..|p|] == y[..|p|];
    } else if |y| > 0 {
      ContainsInPrefix(y[1..], w, p);
      assert (y + w)[1..] == y[1..] + w;
    }
  }

  /** Every character of a contained string occurs in the containing one. */
  lemma {:induction false} ContainedCharsOccur(s: string, p: string, i: nat)
    requires i < |p| && Contains(s, p)
    ensures p[i] in s
    decreases |s|
  {
    if StartsWith(s, p) {
      assert s[..|p|][i] == p[i];
    } else {
      ContainedCharsOccur(s[1..], p, i);
    }
  }

  lemma StartsWithConcat(v: string, y: string, p: string)
    ensures StartsWith(v + y, p) ==> Compatible(v, p)
  {
    if StartsWith(v + y, p) {
      forall i | 0 <= i < |v| && i < |p| ensures v[i] == p[i] {
        assert (v + y)[..|p|][i] == p[i];
      }
    }
  }

  /** A copy of `q` at the start of `u + w + x` that begins inside `u` lines its
      remainder up with `w`. */
  lemma StartsWithShifted(u: string, w: string, x: string, q: string)
    ensures StartsWith(u + (w + x), q) && |u| < |q| ==> Compatible(q[|u|..], w)
  {
    if StartsWith(u + (w + x), q) && |u| < |q| {
      forall i | 0 <= i < |q[|u|..]| && i < |w| ensures q[|u|..][i] == w[i] {
        assert (u + (w + x))[..|q|][|u| + i] == q[|u| + i];
      }
    }
  }

  lemma StartsWithTrans(s: string, x: string, p: string)
    ensures StartsWith(s, x) && StartsWith(x, p) ==> StartsWith(s, p)
  {
    if StartsWith(s, x) && StartsWith(x, p) {
      assert s[..|p|] == s[..|x|][..|p|];
    }
  }

  /** Once `u` is at least as long as `q`, whether `u + x` starts with `q` does not depend on `x`. */
  lemma StartsWithLongPrefix(u: string, x: string, y: string, q: string)
    requires |q| <= |u|
    ensures StartsWith(u + x, q) <==> StartsWith(u + y, q)
  {
    assert (u + x)[..|q|] == u[..|q|] == (u + y)[..|q|];
  }

  lemma NoStartWithinTail(v: string, p: string)
    requires |v| > 0 && NoStartWithin(v, p)
    ensures NoStartWithin(v[1..], p)
  {
    forall j | 0 <= j < |v[1..]| ensures !Compatible(v[1..][j..], p) {
      assert v[1..][j..] == v[j + 1..];
    }
  }

  /** An occurrence of `p` in `v + y` lies wholly in `y` when no copy of `p` can begin inside `v`. */
  lemma {:induction false} ContainsPastPrefix(v: string, y: string, p: string)
    requires NoStartWithin(v, p)
    ensures Contains(v + y, p) ==> Contains(y, p)
    decreases |v|
  {
    if |v| == 0 {
      assert v + y == y;
    } else {
      assert v[0..] == v;
      StartsWithConcat(v, y, p);
      NoStartWithinTail(v, p);
      ContainsPastPrefix(v[1..], y, p);
      assert (v + y)[1..] == v[1..] + y;
    }
  }

  /** An occurrence of `p` in `y + w` lies wholly in `y` when `w` does not contain `p`
      and the first character of `w` is not in `p`. */
  lemma {:induction false} ContainsBeforeSuffix(y: string, w: string, p: string)
    requires |w| > 0 && w[0] !in p && !Contains(w, p)
    ensures Contains(y + w, p) ==> Contains(y, p)
    decreases |y|
  {
    if |y| == 0 {
      assert y + w == w;
    } else {
      StartsWithReachesInto(y, w, p);
      if |p| <= |y| {
        StartsWithLongPrefix(y, w, [], p);
        assert y + [] == y;
      }
      ContainsBeforeSuffix(y[1..], w, p);
      assert (y + w)[1..] == y[1..] + w;
    }
  }

  lemma StartsWithReachesInto(y: string, w: string, p: string)
    requires |w| > 0
    ensures StartsWith(y + w, p) && |y| < |p| ==> p[|y|] == w[0]
  {
    if StartsWith(y + w, p) && |y| < |p| {
      assert (y + w)[..|p|][|y|] == p[|y|];
    }
  }

  /** Of two strings that both begin `s`, the longer one begins with the shorter one. */
  lemma PrefixOfPrefix(s: string, y: string, p: string)
    requires StartsWith(s, y) && |p| <= |y|
    ensures StartsWith(s, p) <==> StartsWith(y, p)
  {
    assert s[..|p|] == y[..|p|];
  }

  /** No copy of `p` can begin inside `v` if `v` does not contain `p` and the last
      character of `v` is not in `p`. */
  lemma NoStartWithinByLastChar(v: string, p: string)
    requires |v| > 0 && v[|v| - 1] !in p && !Contains(v, p)
    ensures NoStartWithin(v, p)
  {
    forall j | 0 <= j < |v| ensures !Compatible(v[j..], p) {
      if |p| <= |v| - j {
        if Compatible(v[j..], p) {
          assert v[j..][..|p|] == p;
          ContainsAt(v, p, j);
        }
      } else {
        assert 0 <= |v| - 1 - j < |p|;
        assert v[j..][|v| - 1 - j] == v[|v| - 1];
      }
    }
  }

  // ---------------------------------------------------------------------------
  // str.replace
  // ---------------------------------------------------------------------------

  /** `s.replace(pat, rep)`: scanning left to right, every copy of `pat` that does
      not overlap an earlier replaced one becomes `rep`. */
  function ReplaceAll(s: string, pat: string, rep: string): (r: string)
    requires |pat| > 0
    ensures !Contains(s, pat) ==> r == s
    decreases |s|
  {
    if |s| == 0 then s
    else if StartsWith(s, pat) then rep + ReplaceAll(s[|pat|..], pat, rep)
    else
      assert [s[0]] + s[1..] == s;
      [s[0]] + ReplaceAll(s[1..], pat, rep)
  }

  /** One step of `s.replace(pat, rep)` on a non-empty text. */
  lemma ReplaceAllStep(s: string, pat: string, rep: string)
    requires |pat| > 0 && |s| > 0
    ensures StartsWith(s, pat) ==> ReplaceAll(s, pat, rep) == rep + ReplaceAll(s[|pat|..], pat, rep)
    ensures !StartsWith(s, pat) ==> ReplaceAll(s, pat, rep) == [s[0]] + ReplaceAll(s[1..], pat, rep)
  {
  }

  /** Text in which no copy of `pat` begins is copied through unchanged. */
  lemma {:induction false} ReplaceAllSkips(w: string, z: string, pat: string, rep: string)
    requires |pat| > 0
    requires forall j :: 0 <= j < |w| ==> !StartsWith((w + z)[j..], pat)
    ensures ReplaceAll(w + z, pat, rep) == w + ReplaceAll(z, pat, rep)
    decreases |w|
  {
    if |w| == 0 {
      assert w + z == z;
      assert w + ReplaceAll(z, pat, rep) == ReplaceAll(z, pat, rep);
    } else {
      var s, w' := w + z, w[1..];
      assert !StartsWith(s, pat) by {
        assert s[0..] == s;
      }
      assert s[1..] == w' + z;
      forall j | 0 <= j < |w'| ensures !StartsWith((w' + z)[j..], pat) {
        assert (w' + z)[j..] == s[j + 1..];
      }
      ReplaceAllSkips(w', z, pat, rep);
      ReplaceAllStep(s, pat, rep);
      assert w == [w[0]] + w';
      assert ReplaceAll(s, pat, rep) == [w[0]] + (w' + ReplaceAll(z, pat, rep));
      AppendAssociative([w[0]], w', ReplaceAll(z, pat, rep));
    }
  }

  /** No copy of `pat` begins inside `x` and runs on into `y`. */
  ghost predicate NoCopyAcross(x: string, y: string, pat: string) {
    forall j :: 0 <= j < |x| < j + |pat| ==> !StartsWith((x + y)[j..], pat)
  }

  /** Dropping a prefix of `x` keeps copies of `pat` from straddling the seam. */
  lemma NoCopyAcrossDrop(x: string, y: string, pat: string, m: nat)
    requires m <= |x| && NoCopyAcross(x, y, pat)
    ensures (x + y)[m..] == x[m..] + y
    ensures NoCopyAcross(x[m..], y, pat)
  {
    forall j | 0 <= j < |x[m..]| < j + |pat| ensures !StartsWith((x[m..] + y)[j..], pat) {
      assert (x[m..] + y)[j..] == (x + y)[j + m..];
    }
  }

  /** A text at least as long as `pat` starts with it whatever follows. */
  lemma StartsWithLong(x: string, y: string, pat: string)
    requires |pat| <= |x|
    ensures StartsWith(x + y, pat) <==> StartsWith(x, pat)
  {
    assert (x + y)[..|pat|] == x[..|pat|];
  }

  /** `(x + y).replace(pat, rep)` is `x.replace(pat, rep) + y.replace(pat, rep)` when
      no copy of `pat` straddles the seam. */
  lemma {:induction false} ReplaceAllConcat(x: string, y: string, pat: string, rep: string)
    requires |pat| > 0 && NoCopyAcross(x, y, pat)
    ensures ReplaceAll(x + y, pat, rep) == ReplaceAll(x, pat, rep) + ReplaceAll(y, pat, rep)
    decreases |x|
  {
    var s := x + y;
    if |x| == 0 {
      assert s == y;
      assert ReplaceAll(x, pat, rep) == [];
    } else {
      ReplaceAllStep(s, pat, rep);
      ReplaceAllStep(x, pat, rep);
      var m := if StartsWith(s, pat) then |pat| else 1;
      if |pat| <= |x| {
        StartsWithLong(x, y, pat);
      } else {
        assert s[0..] == s;
      }
      assert StartsWith(s, pat) <==> StartsWith(x, pat);
      NoCopyAcrossDrop(x, y, pat, m);
      var x' := x[m..];
      ReplaceAllConcat(x', y, pat, rep);
      var head := if StartsWith(s, pat) then rep else [x[0]];
      assert ReplaceAll(s, pat, rep) == head + (ReplaceAll(x', pat, rep) + ReplaceAll(y, pat, rep));
      assert ReplaceAll(x, pat, rep) == head + ReplaceAll(x', pat, rep);
      AppendAssociative(head, ReplaceAll(x', pat, rep), ReplaceAll(y, pat, rep));
    }
  }

  /** No copy of `pat` that begins inside `m` reaches past its end. */
  ghost predicate NoCopyOverhangs(m: string, pat: string) {
    forall j :: 0 <= j < |m| < j + |pat| ==> !Compatible(m[j..], pat)
  }

  /** Whatever follows `m`, no copy of `pat` straddles the seam after it if none
      begun inside `m` can reach past its end. */
  lemma NoCopyOutOf(m: string, y: string, pat: string)
    requires NoCopyOverhangs(m, pat)
    ensures NoCopyAcross(m, y, pat)
  {
    forall j | 0 <= j < |m| < j + |pat| ensures !StartsWith((m + y)[j..], pat) {
      var i :| 0 <= i < |m[j..]| && i < |pat| && m[j..][i] != pat[i];
      assert (m + y)[j..][i] == m[j..][i];
    }
  }

  /** A text in which no copy of `pat` can begin holds no copy of it. */
  lemma LacksWhatCannotBegin(v: string, pat: string)
    requires |pat| > 0 && NoStartWithin(v, pat)
    ensures !Contains(v, pat)
  {
    assert v + [] == v;
    ContainsPastPrefix(v, [], pat);
  }

  /** The step of `StartsWithAfterReplace` where `t` begins with a match. */
  lemma StartsWithAtMatch(u: string, t: string, pat: string, rep: string, q: string)
    requires |pat| > 0 && StartsWith(t, pat) && NoStartWithin(q, rep)
    ensures StartsWith(u + ReplaceAll(t, pat, rep), q) ==> StartsWith(u + t, q)
  {
    var rest := ReplaceAll(t[|pat|..], pat, rep);
    assert u + ReplaceAll(t, pat, rep) == u + (rep + rest);
    if |u| < |q| {
      StartsWithShifted(u, rep, rest, q);
    } else {
      StartsWithLongPrefix(u, rep + rest, t, q);
    }
  }

  /** Replacing creates no copy of `q` at the front that was not there before,
      when no copy of `q` can begin inside `rep`'s left neighbour and run into `rep`. */
  lemma {:induction false} StartsWithAfterReplace(u: string, t: string, pat: string, rep: string, q: string)
    requires |pat| > 0 && NoStartWithin(q, rep)
    ensures StartsWith(u + ReplaceAll(t, pat, rep), q) ==> StartsWith(u + t, q)
    decreases |t|
  {
    if |t| == 0 {
      assert ReplaceAll(t, pat, rep) == t;
    } else if StartsWith(t, pat) {
      StartsWithAtMatch(u, t, pat, rep, q);
    } else {
      PastFirstChar(u, t, pat, rep);
      StartsWithAfterReplace(u + [t[0]], t[1..], pat, rep, q);
    }
  }

  /** Moving the first character of `t`, which starts no match, over to `u`. */
  lemma PastFirstChar(u: string, t: string, pat: string, rep: string)
    requires |pat| > 0 && |t| > 0 && !StartsWith(t, pat)
    ensures u + ReplaceAll(t, pat, rep) == (u + [t[0]]) + ReplaceAll(t[1..], pat, rep)
    ensures u + t == (u + [t[0]]) + t[1..]
  {
    ReplaceAllStep(t, pat, rep);
    AppendAssociative(u, [t[0]], ReplaceAll(t[1..], pat, rep));
    assert t == [t[0]] + t[1..];
    AppendAssociative(u, [t[0]], t[1..]);
  }

  /** `s.replace(pat, rep)` contains `q` only if `s` already did, and never contains
      `pat` itself, provided copies of `q` and `rep` cannot overlap. */
  lemma {:induction false} ContainsAfterReplace(s: string, pat: string, rep: string, q: string)
    requires |pat| > 0 && NoStartWithin(q, rep) && NoStartWithin(rep, q)
    ensures Contains(ReplaceAll(s, pat, rep), q) ==> Contains(s, q) && q != pat
    decreases |s|
  {
    if |s| == 0 {
    } else if StartsWith(s, pat) {
      var t := s[|pat|..];
      ContainsAfterReplace(t, pat, rep, q);
      ContainsPastPrefix(rep, ReplaceAll(t, pat, rep), q);
      assert s == s[..|pat|] + t;
      ContainsInSuffix(s[..|pat|], t, q);
    } else {
      var c := s[0];
      var t := ReplaceAll(s[1..], pat, rep);
      ContainsAfterReplace(s[1..], pat, rep, q);
      StartsWithAfterReplace([c], s[1..], pat, rep, q);
      assert ReplaceAll(s, pat, rep) == [c] + t;
      assert [c] + s[1..] == s;
      assert ([c] + t)[1..] == t;
    }
  }

  /** A copy of `q` survives `s.replace(pat, rep)` when copies of `q` and `pat` cannot overlap. */
  lemma {:induction false} ContainsKeptByReplace(s: string, pat: string, rep: string, q: string)
    requires |pat| > 0 && NoStartWithin(q, pat) && NoStartWithin(pat, q)
    ensures Contains(s, q) ==> Contains(ReplaceAll(s, pat, rep), q)
    decreases |s|
  {
    if |s| == 0 {
    } else if StartsWith(s, pat) {
      var t := s[|pat|..];
      ReplaceAllStep(s, pat, rep);
      assert s == pat + t;
      ContainsPastPrefix(pat, t, q);
      ContainsKeptByReplace(t, pat, rep, q);
      ContainsInSuffix(rep, ReplaceAll(t, pat, rep), q);
    } else if StartsWith(s, q) && |q| > 0 {
      KeptAtFront(s, pat, rep, q);
    } else if |q| > 0 {
      ReplaceAllStep(s, pat, rep);
      ContainsKeptByReplace(s[1..], pat, rep, q);
      ContainsInSuffix([s[0]], ReplaceAll(s[1..], pat, rep), q);
    }
  }

  /** The case of `ContainsKeptByReplace` where `s` begins with `q` and not with `pat`:
      no copy of `pat` begins inside that `q`, so it is copied through. */
  lemma KeptAtFront(s: string, pat: string, rep: string, q: string)
    requires |pat| > 0 && NoStartWithin(q, pat) && |q| > 0
    requires StartsWith(s, q) && !StartsWith(s, pat)
    ensures Contains(ReplaceAll(s, pat, rep), q)
  {
    var w, z := s[1..|q|], s[|q|..];
    assert s[1..] == w + z;
    forall j | 0 <= j < |w| ensures !StartsWith((w + z)[j..], pat) {
      assert (w + z)[j..] == q[j + 1..] + z;
      StartsWithConcat(q[j + 1..], z, pat);
    }
    ReplaceAllSkips(w, z, pat, rep);
    ReplaceAllStep(s, pat, rep);
    var r := ReplaceAll(z, pat, rep);
    var x := [s[0]] + w;
    assert x == q by {
      assert s[..|q|] == x;
    }
    AppendAssociative([s[0]], w, r);
    assert (q + r)[..|q|] == q;
  }

  /** Wherever `pat` occurred, `rep` now occurs. */
  lemma {:induction false} ReplaceAllInserts(s: string, pat: string, rep: string)
    requires |pat| > 0
    ensures Contains(s, pat) ==> Contains(ReplaceAll(s, pat, rep), rep)
    decreases |s|
  {
    if |s| == 0 {
    } else if StartsWith(s, pat) {
      var rest := ReplaceAll(s[|pat|..], pat, rep);
      assert (rep + rest)[..|rep|] == rep;
    } else {
      ReplaceAllInserts(s[1..], pat, rep);
      ContainsInSuffix([s[0]], ReplaceAll(s[1..], pat, rep), rep);
    }
  }

  // ---------------------------------------------------------------------------
  // str.join
  // ---------------------------------------------------------------------------

  /** `sep.join(parts)` */
  function Join(parts: seq<string>, sep: string): string
  {
    if |parts| == 0 then []
    else if |parts| == 1 then parts[0]
    else parts[0] + sep + Join(parts[1..], sep)
  }

  /** Where `parts[i]` begins in `Join(parts, sep)`: after every earlier part and one `sep` for each. */
  function Offset(parts: seq<string>, sep: string, i: nat): nat
    requires i < |parts|
  {
    if i == 0 then 0 else |parts[0]| + |sep| + Offset(parts[1..], sep, i - 1)
  }

  /** A slice of `a + b` that lies wholly in `a`, or wholly in `b`. */
  lemma SliceOfAppend(a: string, b: string, lo: nat, hi: nat)
    requires lo <= hi <= |a| + |b|
    ensures hi <= |a| ==> (a + b)[lo..hi] == a[lo..hi]
    ensures |a| <= lo ==> (a + b)[lo..hi] == b[lo - |a|..hi - |a|]
  {
  }

  /** One step of `sep.join(parts)` with at least two parts. */
  lemma JoinStep(parts: seq<string>, sep: string)
    requires |parts| > 1
    ensures Join(parts, sep) == (parts[0] + sep) + Join(parts[1..], sep)
    ensures Join(parts, sep) == parts[0] + (sep + Join(parts[1..], sep))
  {
    AppendAssociative(parts[0], sep, Join(parts[1..], sep));
  }

  /** Part `i` of `sep.join(parts)` sits at `Offset(parts, sep, i)`, and the last
      part ends the result. */
  lemma {:induction false} JoinPartAt(parts: seq<string>, sep: string, i: nat)
    requires i < |parts|
    ensures Offset(parts, sep, i) + |parts[i]| <= |Join(parts, sep)|
    ensures Join(parts, sep)[Offset(parts, sep, i)..Offset(parts, sep, i) + |parts[i]|] == parts[i]
    ensures i + 1 == |parts| ==> |Join(parts, sep)| == Offset(parts, sep, i) + |parts[i]|
    decreases i
  {
    var r := Join(parts, sep);
    if i == 0 {
      assert parts[0][0..|parts[0]|] == parts[0];
      if |parts| > 1 {
        JoinStep(parts, sep);
        SliceOfAppend(parts[0], sep + Join(parts[1..], sep), 0, |parts[0]|);
      }
    } else {
      var pre, tail := parts[0] + sep, parts[1..];
      var j := Join(tail, sep);
      JoinStep(parts, sep);
      JoinPartAt(tail, sep, i - 1);
      assert tail[i - 1] == parts[i];
      var o' := Offset(tail, sep, i - 1);
      assert Offset(parts, sep, i) == |pre| + o';
      SliceOfAppend(pre, j, |pre| + o', |pre| + o' + |parts[i]|);
    }
  }

  /** Exactly one `sep` follows the first part of `sep.join(parts)` when there is a second. */
  lemma JoinSeparatorAfterFirst(parts: seq<string>, sep: string)
    requires 1 < |parts|
    ensures Offset(parts, sep, 1) == |parts[0]| + |sep|
    ensures Offset(parts, sep, 1) <= |Join(parts, sep)|
    ensures Join(parts, sep)[|parts[0]|..Offset(parts, sep, 1)] == sep
  {
    var pre := parts[0] + sep;
    JoinStep(parts, sep);
    assert Offset(parts[1..], sep, 0) == 0;
    SliceOfAppend(pre, Join(parts[1..], sep), |parts[0]|, |pre|);
    SliceOfAppend(parts[0], sep, |parts[0]|, |pre|);
    assert sep[0..|sep|] == sep;
  }

  /** Exactly one `sep` follows part `i` of `sep.join(parts)` when another part comes next. */
  lemma {:induction false} JoinSeparatorAt(parts: seq<string>, sep: string, i: nat)
    requires i + 1 < |parts|
    ensures Offset(parts, sep, i + 1) == Offset(parts, sep, i) + |parts[i]| + |sep|
    ensures Offset(parts, sep, i + 1) <= |Join(parts, sep)|
    ensures Join(parts, sep)[Offset(parts, sep, i) + |parts[i]|..Offset(parts, sep, i + 1)] == sep
    decreases i
  {
    if i == 0 {
      JoinSeparatorAfterFirst(parts, sep);
    } else {
      var pre, tail := parts[0] + sep, parts[1..];
      var j := Join(tail, sep);
      JoinStep(parts, sep);
      JoinSeparatorAt(tail, sep, i - 1);
      assert tail[i - 1] == parts[i];
      var o' := Offset(tail, sep, i - 1);
      var lo, hi := Offset(parts, sep, i) + |parts[i]|, Offset(parts, sep, i + 1);
      assert lo - |pre| == o' + |tail[i - 1]|;
      assert hi - |pre| == Offset(tail, sep, i);
      SliceOfAppend(pre, j, lo, hi);
      assert j[o' + |tail[i - 1]|..Offset(tail, sep, i)] == sep;
    }
  }

  /** The layout of `sep.join(parts)`: part `i` sits at `Offset(parts, sep, i)`, exactly
      one `sep` follows it when another part comes next, and the last part ends the result. */
  lemma JoinLayout(parts: seq<string>, sep: string, i: nat)
    requires i < |parts|
    ensures Offset(parts, sep, i) + |parts[i]| <= |Join(parts, sep)|
    ensures Join(parts, sep)[Offset(parts, sep, i)..Offset(parts, sep, i) + |parts[i]|] == parts[i]
    ensures i + 1 < |parts| ==> Offset(parts, sep, i + 1) == Offset(parts, sep, i) + |parts[i]| + |sep|
    ensures i + 1 < |parts| ==> Offset(parts, sep, i + 1) <= |Join(parts, sep)|
    ensures i + 1 < |parts| ==>
      Join(parts, sep)[Offset(parts, sep, i) + |parts[i]|..Offset(parts, sep, i + 1)] == sep
    ensures i + 1 == |parts| ==> |Join(parts, sep)| == Offset(parts, sep, i) + |parts[i]|
  {
    JoinPartAt(parts, sep, i);
    if i + 1 < |parts| {
      JoinSeparatorAt(parts, sep, i);
    }
  }

  /** Joining one more part appends exactly one separator and that part. */
  lemma {:induction false} JoinAppend(parts: seq<string>, x: string, sep: string)
    requires |parts| > 0
    ensures Join(parts + [x], sep) == Join(parts, sep) + sep + x
    decreases |parts|
  {
    if |parts| > 1 {
      assert (parts + [x])[1..] == parts[1..] + [x];
      JoinAppend(parts[1..], x, sep);
    } else {
      assert (parts + [x])[1..] == [x];
    }
  }

  lemma JoinPrependToFirst(c: char, parts: seq<string>, sep: string)
    requires |parts| >= 1
    ensures Join([[c] + parts[0]] + parts[1..], sep) == [c] + Join(parts, sep)
  {
    var q := [[c] + parts[0]] + parts[1..];
    assert q[1..] == parts[1..];
  }

  // ---------------------------------------------------------------------------
  // str.split, and replace as split-then-join
  // ---------------------------------------------------------------------------

  /** A copy of `p` at the front of `t` is still at the front once `c` is put before both. */
  lemma StartsWithCons(c: char, t: string, p: string)
    requires StartsWith(t, p)
    ensures StartsWith([c] + t, [c] + p)
  {
    assert ([c] + t)[..|p| + 1] == [c] + t[..|p|];
  }

  /** `s.split(sep)`: the pieces between the copies of `sep` that a left-to-right
      scan finds, not overlapping each other. */
  function Split(s: string, sep: string): (parts: seq<string>)
    requires |sep| > 0
    ensures |parts| >= 1
    ensures StartsWith(s, parts[0])
    ensures |parts| > 1 ==> StartsWith(s, parts[0] + sep)
    decreases |s|
  {
    if |s| == 0 then [[]]
    else if StartsWith(s, sep) then [[]] + Split(s[|sep|..], sep)
    else
      var rest := Split(s[1..], sep);
      assert s == [s[0]] + s[1..];
      StartsWithCons(s[0], s[1..], rest[0]);
      if |rest| > 1 then
        StartsWithCons(s[0], s[1..], rest[0] + sep);
        AppendAssociative([s[0]], rest[0], sep);
        [[s[0]] + rest[0]] + rest[1..]
      else
        [[s[0]] + rest[0]] + rest[1..]
  }

  /** One step of `s.split(sep)` on a non-empty text. */
  lemma SplitStep(s: string, sep: string)
    requires |sep| > 0 && |s| > 0
    ensures StartsWith(s, sep) ==> Split(s, sep) == [[]] + Split(s[|sep|..], sep)
    ensures !StartsWith(s, sep) ==>
      Split(s, sep) == [[s[0]] + Split(s[1..], sep)[0]] + Split(s[1..], sep)[1..]
  {
  }

  /** `parts` splits `s` around `sep` at the leftmost non-overlapping copies of `sep`:
      joining them with `sep` gives `s` back, no part contains `sep`, and no copy of
      `sep` begins inside a part and runs into the separator after it. */
  ghost predicate IsLeftmostSplit(s: string, sep: string, parts: seq<string>)
    requires |sep| > 0
  {
    && |parts| >= 1
    && Join(parts, sep) == s
    && (forall i :: 0 <= i < |parts| - 1 ==> !Contains(parts[i] + sep[..|sep| - 1], sep))
    && !Contains(parts[|parts| - 1], sep)
  }

  lemma {:induction false} SplitIsLeftmost(s: string, sep: string)
    requires |sep| > 0
    ensures IsLeftmostSplit(s, sep, Split(s, sep))
    decreases |s|
  {
    if |s| == 0 {
      ContainsLength([], sep);
    } else if StartsWith(s, sep) {
      var t := s[|sep|..];
      SplitIsLeftmost(t, sep);
      assert s == sep + t;
      LeftmostAfterSeparator(t, sep, Split(t, sep));
    } else {
      SplitIsLeftmost(s[1..], sep);
      assert s == [s[0]] + s[1..];
      LeftmostAfterChar(s[0], s[1..], sep, Split(s[1..], sep));
    }
  }

  /** A leading separator adds an empty first part to a leftmost split. */
  lemma LeftmostAfterSeparator(t: string, sep: string, tail: seq<string>)
    requires |sep| > 0 && IsLeftmostSplit(t, sep, tail)
    ensures IsLeftmostSplit(sep + t, sep, [[]] + tail)
  {
    var parts, n := [[]] + tail, |sep|;
    assert parts[1..] == tail;
    assert Join(parts, sep) == [] + sep + Join(tail, sep);
    ContainsLength([] + sep[..n - 1], sep);
    forall i | 0 <= i < |parts| - 1 ensures !Contains(parts[i] + sep[..n - 1], sep) {
      if i > 0 {
        assert parts[i] == tail[i - 1];
      }
    }
    assert parts[|parts| - 1] == tail[|tail| - 1];
  }

  /** A leading character where no separator starts joins the first part of a leftmost split. */
  lemma LeftmostAfterChar(c: char, t: string, sep: string, rest: seq<string>)
    requires |sep| > 0 && IsLeftmostSplit(t, sep, rest)
    requires !StartsWith([c] + t, sep)
    requires StartsWith(t, rest[0]) && (|rest| > 1 ==> StartsWith(t, rest[0] + sep))
    ensures IsLeftmostSplit([c] + t, sep, [[c] + rest[0]] + rest[1..])
  {
    var parts, n, s := [[c] + rest[0]] + rest[1..], |sep|, [c] + t;
    JoinPrependToFirst(c, rest, sep);
    var y := if |rest| > 1 then rest[0] + sep[..n - 1] else rest[0];
    var x := [c] + y;
    assert x[1..] == y;
    assert StartsWith(t, y) by {
      if |rest| > 1 {
        StartsWithTrans(t, rest[0] + sep, y);
        assert (rest[0] + sep)[..|y|] == y;
      }
    }
    assert StartsWith(s, x) by {
      assert s[..|x|] == [c] + t[..|y|];
    }
    StartsWithTrans(s, x, sep);
    assert !Contains(x, sep);
    forall i | 0 <= i < |parts| - 1 ensures !Contains(parts[i] + sep[..n - 1], sep) {
      if i > 0 {
        assert parts[i] == rest[i];
      } else {
        assert parts[i] + sep[..n - 1] == x;
      }
    }
    assert parts[|parts| - 1] == if |rest| == 1 then x else rest[|rest| - 1];
  }

  lemma {:induction false} SplitWithoutSeparator(s: string, sep: string)
    requires |sep| > 0 && !Contains(s, sep)
    ensures Split(s, sep) == [s]
    decreases |s|
  {
    if |s| > 0 {
      SplitWithoutSeparator(s[1..], sep);
      assert [s[0]] + s[1..] == s;
    }
  }

  lemma {:induction false} SplitAfterFirst(x: string, t: string, sep: string)
    requires |sep| > 0 && !Contains(x + sep[..|sep| - 1], sep)
    ensures Split(x + sep + t, sep) == [x] + Split(t, sep)
    decreases |x|
  {
    var n, s := |sep|, x + sep + t;
    if |x| == 0 {
      assert s == sep + t && s[n..] == t;
      SplitStep(s, sep);
    } else {
      var y, x' := x + sep[..n - 1], x[1..];
      assert !StartsWith(s, sep) by {
        AppendAssociative(y, [sep[n - 1]], t);
        assert s == y + ([sep[n - 1]] + t);
        PrefixOfPrefix(s, y, sep);
      }
      assert !Contains(x' + sep[..n - 1], sep) by {
        assert y == [x[0]] + (x' + sep[..n - 1]);
      }
      SplitAfterFirst(x', t, sep);
      assert s[1..] == x' + sep + t by {
        AppendAssociative(x, sep, t);
        DropFirst(x, sep + t);
        AppendAssociative(x', sep, t);
      }
      var rest := [x'] + Split(t, sep);
      assert rest[0] == x' && rest[1..] == Split(t, sep);
      SplitStep(s, sep);
      assert [x[0]] + x' == x;
    }
  }

  /** The leftmost split of a string around a separator is unique. */
  lemma {:induction false} LeftmostSplitUnique(s: string, sep: string, parts: seq<string>)
    requires |sep| > 0 && IsLeftmostSplit(s, sep, parts)
    ensures parts == Split(s, sep)
    decreases |parts|
  {
    if |parts| == 1 {
      SplitWithoutSeparator(s, sep);
    } else {
      var t := Join(parts[1..], sep);
      assert s == parts[0] + sep + t;
      assert parts[1..][|parts[1..]| - 1] == parts[|parts| - 1];
      forall i | 0 <= i < |parts[1..]| - 1
        ensures !Contains(parts[1..][i] + sep[..|sep| - 1], sep)
      {
        assert parts[1..][i] == parts[i + 1];
      }
      LeftmostSplitUnique(t, sep, parts[1..]);
      SplitAfterFirst(parts[0], t, sep);
      assert parts == [parts[0]] + parts[1..];
    }
  }

  /** A leading empty part contributes just one separator to a join. */
  lemma JoinAfterEmpty(tail: seq<string>, sep: string)
    requires |tail| >= 1
    ensures Join([[]] + tail, sep) == sep + Join(tail, sep)
  {
    var parts := [[]] + tail;
    assert parts[1..] == tail;
    assert parts[0] + sep == sep;
  }

  /** Python's identity `s.replace(pat, rep) == rep.join(s.split(pat))`. */
  lemma {:induction false} ReplaceAllJoinsSplit(s: string, pat: string, rep: string)
    requires |pat| > 0
    ensures ReplaceAll(s, pat, rep) == Join(Split(s, pat), rep)
    decreases |s|
  {
    if |s| == 0 {
    } else if StartsWith(s, pat) {
      var t := s[|pat|..];
      ReplaceAllJoinsSplit(t, pat, rep);
      assert ReplaceAll(s, pat, rep) == rep + ReplaceAll(t, pat, rep);
      assert Split(s, pat) == [[]] + Split(t, pat);
      JoinAfterEmpty(Split(t, pat), rep);
    } else {
      var rest := Split(s[1..], pat);
      ReplaceAllJoinsSplit(s[1..], pat, rep);
      assert ReplaceAll(s, pat, rep) == [s[0]] + ReplaceAll(s[1..], pat, rep);
      assert Split(s, pat) == [[s[0]] + rest[0]] + rest[1..];
      JoinPrependToFirst(s[0], rest, rep);
    }
  }

  /** `s.replace(pat, rep)` is the leftmost split of `s` around `pat`, rejoined with `rep`. */
  lemma ReplaceAllSpec(s: string, pat: string, rep: string, parts: seq<string>)
    requires |pat| > 0 && IsLeftmostSplit(s, pat, parts)
    ensures ReplaceAll(s, pat, rep) == Join(parts, rep)
  {
    LeftmostSplitUnique(s, pat, parts);
    ReplaceAllJoinsSplit(s, pat, rep);
  }
}
