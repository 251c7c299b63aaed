/** `replace_images_in_markdown`: every image placeholder `![id]()` that names an
    entry of the page's dict becomes a reference to an inline PNG data URI that
    carries that entry's base64 payload. */
module Placeholders {
  import opened Strings
  import opened Ocr

  /** `"![" + img_name + "]()"` */
  function Placeholder(id: string): string {
    "![" + id + "]()"
  }

  /** `"![" + img_name + "](data:image/png;base64," + base64_str + ")"` */
  function Replacement(id: string, payload: string): string {
    "![" + id + "](data:image/png;base64," + payload + ")"
  }

  predicate IsBracket(c: char) {
    c == '[' || c == ']' || c == '(' || c == ')'
  }

  predicate BracketFree(s: string) {
    forall i :: 0 <= i < |s| ==> !IsBracket(s[i])
  }

  /** No id and no payload of the dict holds a bracket or a parenthesis; base64
      payloads never do. */
  predicate WellFormedDict(d: ImageDict) {
    forall i :: 0 <= i < |d| ==> BracketFree(d[i].0) && BracketFree(d[i].1)
  }

  // ---------------------------------------------------------------------------
  // Why placeholders and replacements cannot overlap
  // ---------------------------------------------------------------------------

  /** `s` has its only `[` at position 1 and does not end in `!`. */
  ghost predicate OpensOnlyAtOne(s: string) {
    |s| >= 2 && s[|s| - 1] != '!' && forall i :: 0 <= i < |s| ==> (s[i] == '[' <==> i == 1)
  }

  lemma PlaceholderShape(k: string)
    requires BracketFree(k)
    ensures |Placeholder(k)| == |k| + 5
    ensures Placeholder(k)[0] == '!' && Placeholder(k)[1] == '['
    ensures Placeholder(k)[|k| + 2] == ']' && Placeholder(k)[|k| + 3] == '(' && Placeholder(k)[|k| + 4] == ')'
    ensures forall i :: 2 <= i < |k| + 2 ==> Placeholder(k)[i] == k[i - 2]
    ensures OpensOnlyAtOne(Placeholder(k))
  {
    var q, t := Placeholder(k), k + "]()";
    assert q == "![" + t;
    forall i | 2 <= i < |q| ensures q[i] != '[' {
      assert q[i] == t[i - 2];
    }
  }

  lemma ReplacementShape(k: string, v: string)
    requires BracketFree(k) && BracketFree(v)
    ensures |Replacement(k, v)| == |k| + |v| + 27
    ensures Replacement(k, v)[0] == '!' && Replacement(k, v)[1] == '['
    ensures Replacement(k, v)[|k| + 2] == ']' && Replacement(k, v)[|k| + 3] == '(' && Replacement(k, v)[|k| + 4] == 'd'
    ensures forall i :: 2 <= i < |k| + 2 ==> Replacement(k, v)[i] == k[i - 2]
    ensures OpensOnlyAtOne(Replacement(k, v))
  {
    var r, m := Replacement(k, v), "](data:image/png;base64,";
    var t := k + m + v + ")";
    assert r == "![" + t;
    assert '[' !in m;
    assert '[' !in k && '[' !in v;
    forall i | 2 <= i < |r| ensures r[i] != '[' {
      assert r[i] == t[i - 2];
      assert t[i - 2] in t;
    }
    assert r[|k| + 2..|k| + 5] == m[..3];
  }

  /** Two strings that differ at a position both reach are compatible neither way round. */
  lemma Differ(a: string, b: string, idx: nat)
    requires idx < |a| && idx < |b| && a[idx] != b[idx]
    ensures !Compatible(a, b) && !Compatible(b, a)
  {
  }

  /** A string that opens only at position 1 admits no copy of a `![`-headed string
      starting inside it, except possibly at its very start. */
  lemma NoStartWithinFromShape(a: string, b: string)
    requires OpensOnlyAtOne(a) && OpensOnlyAtOne(b) && b[0] == '!' && !Compatible(a, b)
    ensures NoStartWithin(a, b)
  {
    NoLaterStart(a, b);
    assert a[0..] == a;
  }

  /** No copy of a `![`-headed string that opens only at position 1 can begin after
      the first position of a string that also opens only at position 1. */
  lemma NoLaterStart(a: string, b: string)
    requires OpensOnlyAtOne(a) && OpensOnlyAtOne(b) && b[0] == '!'
    ensures forall j :: 1 <= j < |a| ==> !Compatible(a[j..], b)
  {
    forall j | 1 <= j < |a| ensures !Compatible(a[j..], b) {
      if a[j] != '!' {
        assert a[j..][0] != b[0];
      } else {
        assert j + 1 < |a|;
        assert a[j..][1] == a[j + 1] != b[1];
      }
    }
  }

  /** No copy of a pattern that opens only at position 1 can straddle the seam before
      a text that begins with `![`. */
  lemma NoCopyIntoOpening(x: string, y: string, pat: string)
    requires OpensOnlyAtOne(pat) && |y| >= 2 && y[0] == '!' && y[1] == '['
    ensures NoCopyAcross(x, y, pat)
  {
    forall j | 0 <= j < |x| < j + |pat| ensures !StartsWith((x + y)[j..], pat) {
      var t := |x| - j;
      var u := (x + y)[j..];
      var idx := if t + 1 < |pat| then t + 1 else t;
      assert idx < |u| && u[idx] == y[idx - t];
      assert u[idx] != pat[idx];
    }
  }

  /** A placeholder and a replacement never overlap, in either order. */
  lemma PlaceholderMeetsReplacement(k: string, k': string, v': string)
    requires BracketFree(k) && BracketFree(k') && BracketFree(v')
    ensures NoStartWithin(Placeholder(k), Replacement(k', v'))
    ensures NoStartWithin(Replacement(k', v'), Placeholder(k))
  {
    var q, r := Placeholder(k), Replacement(k', v');
    PlaceholderShape(k);
    ReplacementShape(k', v');
    var idx := if |k| < |k'| then |k| + 2 else if |k| > |k'| then |k'| + 2 else |k| + 4;
    assert q[idx] != r[idx] by {
      if |k| < |k'| {
        assert r[idx] == k'[|k|];
      } else if |k| > |k'| {
        assert q[idx] == k[|k'|];
      }
    }
    Differ(q, r, idx);
    NoStartWithinFromShape(q, r);
    NoStartWithinFromShape(r, q);
  }

  /** Placeholders of two different ids never overlap. */
  lemma DistinctPlaceholders(k: string, k': string)
    requires BracketFree(k) && BracketFree(k') && k != k'
    ensures NoStartWithin(Placeholder(k), Placeholder(k'))
  {
    var q, q' := Placeholder(k), Placeholder(k');
    PlaceholderShape(k);
    PlaceholderShape(k');
    var idx: nat;
    if |k| < |k'| {
      idx := |k| + 2;
      assert q'[idx] == k'[|k|];
    } else if |k| > |k'| {
      idx := |k'| + 2;
      assert q[idx] == k[|k'|];
    } else {
      assert exists m :: 0 <= m < |k| && k[m] != k'[m];
      var m :| 0 <= m < |k| && k[m] != k'[m];
      idx := m + 2;
    }
    Differ(q, q', idx);
    NoStartWithinFromShape(q, q');
  }

  // ---------------------------------------------------------------------------
  // The replacement loop
  // ---------------------------------------------------------------------------

  /** The text once the loop of `replace_images_in_markdown` has visited the
      entries of `d` in insertion order, each rewriting all copies of its placeholder. */
  function Resolve(s: string, d: ImageDict): string
    decreases |d|
  {
    if |d| == 0 then s
    else
      var (id, payload) := d[|d| - 1];
      ReplaceAll(Resolve(s, d[..|d| - 1]), Placeholder(id), Replacement(id, payload))
  }

  method ReplaceImagesInMarkdown(markdown: string, images: ImageDict) returns (result: string)
    ensures result == Resolve(markdown, images)
  {
    result := markdown;
    var i := 0;
    while i < |images|
      invariant 0 <= i <= |images|
      invariant result == Resolve(markdown, images[..i])
    {
      var (imgName, base64Str) := images[i];
      var placeholder := Placeholder(imgName);
      var replacement := Replacement(imgName, base64Str);
      assert images[..i + 1][..i] == images[..i];
      result := ReplaceAll(result, placeholder, replacement);
      i := i + 1;
    }
    assert images[..|images|] == images;
  }

  lemma WellFormedInit(d: ImageDict)
    requires |d| > 0 && WellFormedDict(d)
    ensures WellFormedDict(d[..|d| - 1])
  {
    var init := d[..|d| - 1];
    forall i | 0 <= i < |init| ensures BracketFree(init[i].0) && BracketFree(init[i].1) {
      assert init[i] == d[i];
    }
  }

  // ---------------------------------------------------------------------------
  // Each placeholder is resolved where it stands
  // ---------------------------------------------------------------------------

  /** What a placeholder of `k` becomes under the dict `d`: the replacement carrying
      the payload `d.get(k)` finds, or the placeholder itself when there is none. */
  function Resolution(d: ImageDict, k: string): string {
    match Lookup(d, k)
    case Some(v) => Replacement(k, v)
    case None => Placeholder(k)
  }

  /** One `str.replace` with a placeholder over a text with a placeholder or a
      replacement `m` in the middle acts on the three parts separately. */
  lemma ReplaceAround(x: string, m: string, y: string, pat: string, rep: string)
    requires OpensOnlyAtOne(pat) && |m| >= 2 && m[0] == '!' && m[1] == '['
    requires NoCopyOverhangs(m, pat)
    ensures ReplaceAll(x + m + y, pat, rep)
      == ReplaceAll(x, pat, rep) + ReplaceAll(m, pat, rep) + ReplaceAll(y, pat, rep)
  {
    AppendAssociative(x, m, y);
    NoCopyIntoOpening(x, m + y, pat);
    ReplaceAllConcat(x, m + y, pat, rep);
    NoCopyOutOf(m, y, pat);
    ReplaceAllConcat(m, y, pat, rep);
    AppendAssociative(ReplaceAll(x, pat, rep), ReplaceAll(m, pat, rep), ReplaceAll(y, pat, rep));
  }

  /** Another id's placeholder leaves a replacement as it is. */
  lemma ReplacementUntouched(k: string, v: string, kn: string, vn: string)
    requires BracketFree(k) && BracketFree(v) && BracketFree(kn)
    ensures NoCopyOverhangs(Replacement(k, v), Placeholder(kn))
    ensures ReplaceAll(Replacement(k, v), Placeholder(kn), Replacement(kn, vn)) == Replacement(k, v)
  {
    PlaceholderMeetsReplacement(kn, k, v);
    LacksWhatCannotBegin(Replacement(k, v), Placeholder(kn));
  }

  /** Another id's placeholder leaves a placeholder as it is. */
  lemma PlaceholderUntouched(k: string, kn: string, vn: string)
    requires BracketFree(k) && BracketFree(kn) && k != kn
    ensures NoCopyOverhangs(Placeholder(k), Placeholder(kn))
    ensures ReplaceAll(Placeholder(k), Placeholder(kn), Replacement(kn, vn)) == Placeholder(k)
  {
    DistinctPlaceholders(k, kn);
    LacksWhatCannotBegin(Placeholder(k), Placeholder(kn));
  }

  /** A placeholder's own replacement takes its place. */
  lemma PlaceholderTaken(k: string, v: string)
    requires BracketFree(k)
    ensures NoCopyOverhangs(Placeholder(k), Placeholder(k))
    ensures ReplaceAll(Placeholder(k), Placeholder(k), Replacement(k, v)) == Replacement(k, v)
  {
    var q := Placeholder(k);
    PlaceholderShape(k);
    NoLaterStart(q, q);
    ReplaceAllStep(q, q, Replacement(k, v));
    assert StartsWith(q, q) && q[|q|..] == [];
  }

  /** The last entry `(kn, vn)` of the dict turns what a placeholder of `k` had
      become under the entries before it into what it becomes under the whole dict. */
  lemma ResolutionStep(d: ImageDict, k: string)
    requires |d| > 0 && BracketFree(k) && WellFormedDict(d)
    ensures var m, kn, vn := Resolution(d[..|d| - 1], k), d[|d| - 1].0, d[|d| - 1].1;
      && |m| >= 2 && m[0] == '!' && m[1] == '['
      && NoCopyOverhangs(m, Placeholder(kn))
      && ReplaceAll(m, Placeholder(kn), Replacement(kn, vn)) == Resolution(d, k)
  {
    var init, kn, vn := d[..|d| - 1], d[|d| - 1].0, d[|d| - 1].1;
    LookupLast(d, k);
    WellFormedInit(d);
    match Lookup(init, k)
    case Some(v) =>
      var i :| 0 <= i < |init| && init[i] == (k, v);
      ReplacementShape(k, v);
      ReplacementUntouched(k, v, kn, vn);
    case None =>
      PlaceholderShape(k);
      if kn == k {
        PlaceholderTaken(k, vn);
      } else {
        PlaceholderUntouched(k, kn, vn);
      }
  }

  /** The last entry of the dict is the last one applied. */
  lemma ResolveStep(s: string, d: ImageDict)
    requires |d| > 0
    ensures Resolve(s, d)
      == ReplaceAll(Resolve(s, d[..|d| - 1]), Placeholder(d[|d| - 1].0), Replacement(d[|d| - 1].0, d[|d| - 1].1))
  {
  }

  /** A placeholder is resolved where it stands: the text before it and the text
      after it are resolved on their own, and the placeholder becomes its
      `Resolution`. */
  lemma {:induction false} ResolveAround(a: string, b: string, d: ImageDict, k: string)
    requires BracketFree(k) && WellFormedDict(d)
    ensures Resolve(a + Placeholder(k) + b, d) == Resolve(a, d) + Resolution(d, k) + Resolve(b, d)
    decreases |d|
  {
    if |d| > 0 {
      var init := d[..|d| - 1];
      var kn, vn := d[|d| - 1].0, d[|d| - 1].1;
      WellFormedInit(d);
      ResolveAround(a, b, init, k);
      ResolutionStep(d, k);
      PlaceholderShape(kn);
      ResolveStep(a + Placeholder(k) + b, d);
      ResolveStep(a, d);
      ResolveStep(b, d);
      ReplaceAround(Resolve(a, init), Resolution(init, k), Resolve(b, init), Placeholder(kn), Replacement(kn, vn));
    }
  }

  /** A placeholder of an id in the dict (keys distinct) becomes that entry's
      replacement where it stands, and the rest of the text is resolved around it. */
  lemma PlaceholderReplacedInPlace(a: string, b: string, d: ImageDict, i: nat)
    requires WellFormedDict(d) && DistinctKeys(d) && i < |d|
    ensures Resolve(a + Placeholder(d[i].0) + b, d) == Resolve(a, d) + Replacement(d[i].0, d[i].1) + Resolve(b, d)
  {
    LookupEntry(d, i);
    ResolveAround(a, b, d, d[i].0);
  }

  /** A placeholder of an id without an entry stays where it stands, and the rest of
      the text is resolved around it. */
  lemma UnknownPlaceholderInPlace(a: string, b: string, d: ImageDict, k: string)
    requires BracketFree(k) && WellFormedDict(d) && !HasKey(d, k)
    ensures Resolve(a + Placeholder(k) + b, d) == Resolve(a, d) + Placeholder(k) + Resolve(b, d)
  {
    ResolveAround(a, b, d, k);
  }

  /** Resolving inserts no placeholder that was not already in the text. */
  lemma {:induction false} ResolveAddsNoPlaceholder(s: string, d: ImageDict, k: string)
    requires BracketFree(k) && WellFormedDict(d)
    ensures Contains(Resolve(s, d), Placeholder(k)) ==> Contains(s, Placeholder(k))
    decreases |d|
  {
    if |d| > 0 {
      var n := |d|;
      var (kn, vn) := d[n - 1];
      WellFormedInit(d);
      ResolveAddsNoPlaceholder(s, d[..n - 1], k);
      PlaceholderMeetsReplacement(k, kn, vn);
      ContainsAfterReplace(Resolve(s, d[..n - 1]), Placeholder(kn), Replacement(kn, vn), Placeholder(k));
    }
  }

  /** After resolving, no placeholder of an id in the dict is left. */
  lemma {:induction false} ResolveRemovesPlaceholders(s: string, d: ImageDict, i: nat)
    requires WellFormedDict(d) && i < |d|
    ensures !Contains(Resolve(s, d), Placeholder(d[i].0))
    decreases |d|
  {
    var n := |d|;
    var (kn, vn) := d[n - 1];
    var before := Resolve(s, d[..n - 1]);
    var k := d[i].0;
    WellFormedInit(d);
    PlaceholderMeetsReplacement(k, kn, vn);
    ContainsAfterReplace(before, Placeholder(kn), Replacement(kn, vn), Placeholder(k));
    if i < n - 1 {
      assert d[..n - 1][i] == d[i];
      ResolveRemovesPlaceholders(s, d[..n - 1], i);
    }
  }

  /** A text in which no id of the dict has a placeholder is returned unchanged;
      in particular every text is, when the dict is empty. */
  lemma {:induction false} ResolveWithoutPlaceholders(s: string, d: ImageDict)
    requires forall i :: 0 <= i < |d| ==> !Contains(s, Placeholder(d[i].0))
    ensures Resolve(s, d) == s
    decreases |d|
  {
    if |d| > 0 {
      var n := |d|;
      var init := d[..n - 1];
      forall i | 0 <= i < |init| ensures !Contains(s, Placeholder(init[i].0)) {
        assert init[i] == d[i];
      }
      ResolveWithoutPlaceholders(s, init);
    }
  }

  /** Resolving twice with the same dict gives what resolving once gives. */
  lemma ResolveIdempotent(s: string, d: ImageDict)
    requires WellFormedDict(d)
    ensures Resolve(Resolve(s, d), d) == Resolve(s, d)
  {
    forall i | 0 <= i < |d| ensures !Contains(Resolve(s, d), Placeholder(d[i].0)) {
      ResolveRemovesPlaceholders(s, d, i);
    }
    ResolveWithoutPlaceholders(Resolve(s, d), d);
  }

  /** A placeholder whose id has no entry in the dict is left in the text. */
  lemma {:induction false} UnknownPlaceholderKept(s: string, d: ImageDict, k: string)
    requires BracketFree(k) && WellFormedDict(d) && !HasKey(d, k)
    ensures Contains(s, Placeholder(k)) ==> Contains(Resolve(s, d), Placeholder(k))
    decreases |d|
  {
    if |d| > 0 {
      var n := |d|;
      var (kn, vn) := d[n - 1];
      WellFormedInit(d);
      var init := d[..n - 1];
      assert !HasKey(init, k) by {
        forall i | 0 <= i < |init| ensures init[i].0 != k {
          assert init[i] == d[i];
        }
      }
      UnknownPlaceholderKept(s, d[..n - 1], k);
      assert kn != k;
      DistinctPlaceholders(k, kn);
      DistinctPlaceholders(kn, k);
      ContainsKeptByReplace(Resolve(s, d[..n - 1]), Placeholder(kn), Replacement(kn, vn), Placeholder(k));
    }
  }

  /** A placeholder of an id in the dict (keys distinct) gives way to that entry's replacement. */
  lemma {:induction false} PlaceholderResolved(s: string, d: ImageDict, i: nat)
    requires WellFormedDict(d) && DistinctKeys(d) && i < |d|
    ensures Contains(s, Placeholder(d[i].0)) ==> Contains(Resolve(s, d), Replacement(d[i].0, d[i].1))
    decreases |d|
  {
    var n := |d|;
    var (kn, vn) := d[n - 1];
    var (ki, vi) := d[i];
    var init := d[..n - 1];
    var before := Resolve(s, init);
    WellFormedInit(d);
    assert DistinctKeys(init) by {
      forall a, b | 0 <= a < b < |init| ensures init[a].0 != init[b].0 {
        assert init[a] == d[a] && init[b] == d[b];
      }
    }
    if i == n - 1 {
      assert !HasKey(init, ki) by {
        forall j | 0 <= j < |init| ensures init[j].0 != ki {
          assert init[j] == d[j];
        }
      }
      UnknownPlaceholderKept(s, init, ki);
      ReplaceAllInserts(before, Placeholder(ki), Replacement(ki, vi));
    } else {
      assert init[i] == d[i];
      PlaceholderResolved(s, init, i);
      PlaceholderMeetsReplacement(kn, ki, vi);
      ContainsKeptByReplace(before, Placeholder(kn), Replacement(kn, vn), Replacement(ki, vi));
    }
  }

  /** The placeholder text in `ResolveExample`. */
  lemma ExamplePlaceholder()
    ensures "See ![fig1]()" == "See " + Placeholder("fig1")
  {
  }

  /** The replacement text in `ResolveExample`. */
  lemma ExampleReplacement()
    ensures "See " + Replacement("fig1", "AAAA") == "See ![fig1](data:image/" + "png;base64,AAAA)"
  {
  }

  /** `"See ![fig1]()"` with `{fig1: "AAAA"}` gives `"See ![fig1](data:image/png;base64,AAAA)"`. */
  lemma ResolveExample()
    ensures Resolve("See ![fig1]()", [("fig1", "AAAA")]) == "See ![fig1](data:image/" + "png;base64,AAAA)"
  {
    var d := [("fig1", "AAAA")];
    var pat, r := Placeholder("fig1"), Replacement("fig1", "AAAA");
    assert BracketFree("fig1") && BracketFree("AAAA");
    PlaceholderReplacedInPlace("See ", "", d, 0);
    ContainsLength("See ", pat);
    ResolveWithoutPlaceholders("See ", d);
    ResolveWithoutPlaceholders("", d);
    assert "See " + pat + "" == "See " + pat;
    assert "See " + r + "" == "See " + r;
    ExamplePlaceholder();
    ExampleReplacement();
  }
}
