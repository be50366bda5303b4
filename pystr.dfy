/** Python's str methods that the plugin relies on: find, replace (with and
    without a count) and strip, with the semantics CPython gives them. */
module PyStr {

  /** `pat` occurs in `s` starting at index `k`. */
  predicate OccursAt(s: string, pat: string, k: nat)
  {
    k + |pat| <= |s| && s[k..k + |pat|] == pat
  }

  /** `s.find(pat)`: the lowest index at which `pat` occurs in `s`, or -1.
      What it returns is stated by `FindSpec`. */
  function Find(s: string, pat: string): int
  {
    FindFrom(s, pat, 0)
  }

  /** The scan behind `Find`, from index `i` on. */
  function FindFrom(s: string, pat: string, i: nat): int
    requires i <= |s|
    decreases |s| - i
  {
    if OccursAt(s, pat, i) then i
    else if i == |s| then -1
    else FindFrom(s, pat, i + 1)
  }

  /** `r` is the first occurrence of `pat` in `s` at or after `i`, or -1
      and there is none there. */
  ghost predicate IsFirstFrom(s: string, pat: string, i: nat, r: int)
  {
    (r == -1 && forall k: nat :: i <= k ==> !OccursAt(s, pat, k))
    || (i <= r && OccursAt(s, pat, r) && forall k: nat :: i <= k < r ==> !OccursAt(s, pat, k))
  }

  lemma {:induction false} FindFromSpec(s: string, pat: string, i: nat)
    requires i <= |s|
    ensures IsFirstFrom(s, pat, i, FindFrom(s, pat, i))
    decreases |s| - i
  {
    if !OccursAt(s, pat, i) && i < |s| {
      FindFromSpec(s, pat, i + 1);
    }
  }

  /** `Find` returns the lowest index where `pat` occurs, and -1 exactly
      when it occurs nowhere. */
  lemma FindSpec(s: string, pat: string)
    ensures IsFirstFrom(s, pat, 0, Find(s, pat))
  {
    FindFromSpec(s, pat, 0);
  }

  /** Occurrences in `s[1..]` are the occurrences in `s` moved one place left. */
  lemma ShiftOccurs(s: string, pat: string)
    requires |s| > 0
    ensures forall k: nat :: 0 < k ==> (OccursAt(s, pat, k) <==> OccursAt(s[1..], pat, k - 1))
  {
    forall k: nat | 0 < k ensures OccursAt(s, pat, k) <==> OccursAt(s[1..], pat, k - 1) {
      if k + |pat| <= |s| {
        assert s[1..][k - 1..k - 1 + |pat|] == s[k..k + |pat|];
      }
    }
  }

  /** Where the text does not start with `pat`, searching it is searching
      its tail, one place further on. */
  lemma FindShift(s: string, pat: string)
    requires |s| > 0 && !OccursAt(s, pat, 0)
    ensures Find(s, pat) == if Find(s[1..], pat) < 0 then -1 else Find(s[1..], pat) + 1
  {
    FindSpec(s[1..], pat);
    ShiftOccurs(s, pat);
    var t := Find(s[1..], pat);
    if t < 0 {
      FindNone(s, pat);
    } else {
      FindIs(s, pat, t + 1);
    }
  }

  /** `Find` returns the first occurrence: an occurrence with none before it. */
  lemma FindIs(s: string, pat: string, i: nat)
    requires OccursAt(s, pat, i)
    requires forall k: nat :: k < i ==> !OccursAt(s, pat, k)
    ensures Find(s, pat) == i
  {
    FindSpec(s, pat);
  }

  /** `Find` returns -1 when there is no occurrence at all. */
  lemma FindNone(s: string, pat: string)
    requires forall k: nat :: !OccursAt(s, pat, k)
    ensures Find(s, pat) == -1
  {
    FindSpec(s, pat);
  }

  /** Where `Find` succeeds, `pat` is there. */
  lemma FindFound(s: string, pat: string)
    requires Find(s, pat) >= 0
    ensures OccursAt(s, pat, Find(s, pat))
  {
    FindSpec(s, pat);
  }

  /** `s.replace(pat, rep)`: one left-to-right pass that replaces every
      non-overlapping occurrence of `pat`. The text produced by a replacement
      is never searched again. */
  function ReplaceAll(s: string, pat: string, rep: string): string
    requires |pat| > 0
    decreases |s|
  {
    var i := Find(s, pat);
    if i < 0 then s
    else
      FindFound(s, pat);
      s[..i] + rep + ReplaceAll(s[i + |pat|..], pat, rep)
  }

  /** `s.replace(pat, rep, 1)`: only the first occurrence is replaced. */
  function ReplaceFirst(s: string, pat: string, rep: string): string
  {
    var i := Find(s, pat);
    if i < 0 then s
    else
      FindFound(s, pat);
      s[..i] + rep + s[i + |pat|..]
  }

  /** `str.isspace` for one character, as CPython defines it: the
      characters of Unicode bidirectional class WS, B or S, or category Zs. */
  predicate IsSpace(c: char)
  {
    ('\t' <= c <= '\r') || ('\U{1C}' <= c <= '\U{1F}') || c == ' '
    || c == '\U{85}' || c == '\U{A0}' || c == '\U{1680}'
    || ('\U{2000}' <= c <= '\U{200A}')
    || c == '\U{2028}' || c == '\U{2029}' || c == '\U{202F}'
    || c == '\U{205F}' || c == '\U{3000}'
  }

  predicate AllSpace(s: string)
  {
    forall k :: 0 <= k < |s| ==> IsSpace(s[k])
  }

  /** Every character of `s` in `[lo, hi)` is whitespace. */
  predicate SpaceBetween(s: string, lo: int, hi: int)
    requires 0 <= lo <= hi <= |s|
  {
    forall k :: lo <= k < hi ==> IsSpace(s[k])
  }

  /** `s.lstrip()`: drop the longest all-whitespace prefix. */
  function LStrip(s: string): (r: string)
    ensures |r| <= |s| && r == s[|s| - |r|..]
    ensures SpaceBetween(s, 0, |s| - |r|)
    ensures r == [] || !IsSpace(r[0])
  {
    if |s| > 0 && IsSpace(s[0]) then
      var r := LStrip(s[1..]);
      assert s[1..][|s| - 1 - |r|..] == s[|s| - |r|..];
      r
    else s
  }

  /** `s.rstrip()`: drop the longest all-whitespace suffix. */
  function RStrip(s: string): (r: string)
    ensures |r| <= |s| && r == s[..|r|]
    ensures SpaceBetween(s, |r|, |s|)
    ensures r == [] || !IsSpace(r[|r| - 1])
  {
    if |s| > 0 && IsSpace(s[|s| - 1]) then
      var r := RStrip(s[..|s| - 1]);
      assert s[..|s| - 1][..|r|] == s[..|r|];
      r
    else s
  }

  /** `s.strip()`. */
  function Strip(s: string): string
  {
    RStrip(LStrip(s))
  }

  /** `Strip(s)` is the slice of `s` that starts where `LStrip` starts. */
  lemma StripIsSlice(s: string)
    ensures var r, i := Strip(s), |s| - |LStrip(s)|;
      i + |r| <= |s| && s[i..i + |r|] == r
  {
    PrefixOfSuffix(s, LStrip(s), Strip(s));
  }

  /** Only whitespace lies around that slice. */
  lemma StripSpaceAround(s: string)
    ensures var r, i := Strip(s), |s| - |LStrip(s)|;
      i + |r| <= |s| && SpaceBetween(s, 0, i) && SpaceBetween(s, i + |r|, |s|)
  {
    SpaceInSuffix(s, LStrip(s), |Strip(s)|);
  }

  /** `Strip(s)` neither begins nor ends with whitespace. */
  lemma StripEnds(s: string)
    ensures var r := Strip(s); r == [] || (!IsSpace(r[0]) && !IsSpace(r[|r| - 1]))
  {
    var l := LStrip(s);
    var r := RStrip(l);
    if r != [] {
      assert r[0] == l[0];
    }
  }

  /** Text that neither begins nor ends with whitespace is its own strip. */
  lemma StripKeeps(s: string)
    requires s != [] && !IsSpace(s[0]) && !IsSpace(s[|s| - 1])
    ensures Strip(s) == s
  {
  }

  /** A prefix of a suffix of `s` is a slice of `s`. */
  lemma PrefixOfSuffix(s: string, l: string, r: string)
    requires |l| <= |s| && l == s[|s| - |l|..] && |r| <= |l| && r == l[..|r|]
    ensures s[|s| - |l|..|s| - |l| + |r|] == r
  {
    var i := |s| - |l|;
    forall k | 0 <= k < |r| ensures s[i..i + |r|][k] == r[k] {
      assert r[k] == l[k] == s[i + k];
    }
  }

  /** Whitespace at the end of a suffix `l` of `s` is whitespace at the end of `s`. */
  lemma SpaceInSuffix(s: string, l: string, n: nat)
    requires |l| <= |s| && l == s[|s| - |l|..] && n <= |l| && SpaceBetween(l, n, |l|)
    ensures SpaceBetween(s, |s| - |l| + n, |s|)
  {
    var i := |s| - |l|;
    forall k | i + n <= k < |s| ensures IsSpace(s[k]) {
      assert s[k] == l[k - i];
    }
  }

  /** Stripping leaves nothing exactly when the text is all whitespace. */
  lemma StripEmptyIff(s: string)
    ensures Strip(s) == [] <==> AllSpace(s)
  {
    if AllSpace(s) {
      AllSpaceLStrip(s);
    }
    if Strip(s) == [] {
      SpaceInSuffix(s, LStrip(s), 0);
    }
  }

  lemma AllSpaceLStrip(s: string)
    requires AllSpace(s)
    ensures LStrip(s) == []
  {
  }

  /** `s` is made of whitespace characters and whole copies of `pat` only. */
  predicate SpaceAndCopies(s: string, pat: string)
    requires |pat| > 0
    decreases |s|
  {
    s == []
    || (IsSpace(s[0]) && SpaceAndCopies(s[1..], pat))
    || (OccursAt(s, pat, 0) && SpaceAndCopies(s[|pat|..], pat))
  }

  /** Replacing when the text does not start with `pat`: the first character
      is kept and the pass continues on the rest. */
  lemma ReplaceAllSkip(s: string, pat: string, rep: string)
    requires |pat| > 0 && |s| > 0 && !OccursAt(s, pat, 0)
    ensures ReplaceAll(s, pat, rep) == [s[0]] + ReplaceAll(s[1..], pat, rep)
  {
    FindShift(s, pat);
    if Find(s[1..], pat) >= 0 {
      ReplaceAllSkipFound(s, pat, rep);
    } else {
      assert s == [s[0]] + s[1..];
    }
  }

  lemma ReplaceAllSkipFound(s: string, pat: string, rep: string)
    requires |pat| > 0 && |s| > 0 && !OccursAt(s, pat, 0) && Find(s[1..], pat) >= 0
    ensures ReplaceAll(s, pat, rep) == [s[0]] + ReplaceAll(s[1..], pat, rep)
  {
    var t := Find(s[1..], pat);
    FindShift(s, pat);
    ReplaceAllAt(s[1..], pat, rep);
    ReplaceAllAt(s, pat, rep);
    var a, b := s[1..][..t], ReplaceAll(s[1..][t + |pat|..], pat, rep);
    DropFirst(s, t, |pat|);
    Regroup([s[0]], a, rep, b);
  }

  /** One step of the replacing pass. */
  lemma ReplaceAllAt(s: string, pat: string, rep: string)
    requires |pat| > 0 && Find(s, pat) >= 0
    ensures var i := Find(s, pat);
      i + |pat| <= |s| && ReplaceAll(s, pat, rep) == s[..i] + rep + ReplaceAll(s[i + |pat|..], pat, rep)
  {
    FindFound(s, pat);
  }

  lemma DropFirst(s: string, t: nat, n: nat)
    requires 0 < |s| && t + 1 + n <= |s|
    ensures s[..t + 1] == [s[0]] + s[1..][..t]
    ensures s[t + 1 + n..] == s[1..][t + n..]
  {
  }

  lemma {:induction false} SpacesThenCopies(w: string, t: string, pat: string)
    requires |pat| > 0 && AllSpace(w) && SpaceAndCopies(t, pat)
    ensures SpaceAndCopies(w + t, pat)
    decreases |w|
  {
    if w != [] {
      assert (w + t)[0] == w[0];
      assert (w + t)[1..] == w[1..] + t;
      SpacesThenCopies(w[1..], t, pat);
    } else {
      assert w + t == t;
    }
  }

  lemma AllSpaceCopies(s: string, pat: string)
    requires |pat| > 0 && AllSpace(s)
    ensures SpaceAndCopies(s, pat)
  {
    SpacesThenCopies(s, [], pat);
    assert s + [] == s;
  }

  /** Removing the copies of `pat` from text made of whitespace and copies
      leaves whitespace only. */
  lemma {:induction false} RemovalOfCopiesIsSpace(s: string, pat: string)
    requires |pat| > 0 && !IsSpace(pat[0]) && SpaceAndCopies(s, pat)
    ensures AllSpace(ReplaceAll(s, pat, ""))
    decreases |s|
  {
    if s == [] {
    } else if OccursAt(s, pat, 0) {
      assert Find(s, pat) == 0;
      RemovalOfCopiesIsSpace(s[|pat|..], pat);
      assert ReplaceAll(s, pat, "") == [] + "" + ReplaceAll(s[|pat|..], pat, "");
    } else {
      ReplaceAllSkip(s, pat, "");
      RemovalOfCopiesIsSpace(s[1..], pat);
    }
  }

  /** Text whose copies of `pat` removed are whitespace is made of
      whitespace and copies of `pat`. */
  lemma {:induction false} SpaceAfterRemovalIsCopies(s: string, pat: string)
    requires |pat| > 0 && AllSpace(ReplaceAll(s, pat, ""))
    ensures SpaceAndCopies(s, pat)
    decreases |s|
  {
    var i := Find(s, pat);
    if i < 0 {
      AllSpaceCopies(s, pat);
    } else {
      FindFound(s, pat);
      var rest := s[i + |pat|..];
      assert ReplaceAll(s, pat, "") == s[..i] + "" + ReplaceAll(rest, pat, "");
      assert s[..i] + "" == s[..i];
      AllSpaceSplit(s[..i], ReplaceAll(rest, pat, ""));
      SpaceAfterRemovalIsCopies(rest, pat);
      CopyThenCopies(pat, rest);
      SplitAround(s, pat, i);
      SpacesThenCopies(s[..i], pat + rest, pat);
    }
  }

  lemma SplitAround(s: string, pat: string, i: nat)
    requires OccursAt(s, pat, i)
    ensures s == s[..i] + (pat + s[i + |pat|..])
  {
    assert s[i..] == s[i..i + |pat|] + s[i + |pat|..];
    assert s == s[..i] + s[i..];
  }

  lemma AllSpaceSplit(a: string, b: string)
    requires AllSpace(a + b)
    ensures AllSpace(a) && AllSpace(b)
  {
    forall k | 0 <= k < |a| ensures IsSpace(a[k]) {
      assert (a + b)[k] == a[k];
    }
    forall k | 0 <= k < |b| ensures IsSpace(b[k]) {
      assert (a + b)[|a| + k] == b[k];
    }
  }

  lemma CopyThenCopies(pat: string, rest: string)
    requires |pat| > 0 && SpaceAndCopies(rest, pat)
    ensures SpaceAndCopies(pat + rest, pat)
  {
    assert (pat + rest)[|pat|..] == rest;
  }

  /** When `pat` does not begin with whitespace, removing every copy of it
      leaves only whitespace exactly when the text is whitespace and copies
      of `pat` and nothing else. */
  lemma RemovalAllSpaceIff(s: string, pat: string)
    requires |pat| > 0 && !IsSpace(pat[0])
    ensures AllSpace(ReplaceAll(s, pat, "")) <==> SpaceAndCopies(s, pat)
  {
    if SpaceAndCopies(s, pat) {
      RemovalOfCopiesIsSpace(s, pat);
    }
    if AllSpace(ReplaceAll(s, pat, "")) {
      SpaceAfterRemovalIsCopies(s, pat);
    }
  }

  /** Occurrences that end within `a` are the same in `a` and in `a + b`. */
  lemma OccursInPrefix(a: string, b: string, pat: string, k: nat)
    requires k + |pat| <= |a|
    ensures OccursAt(a + b, pat, k) <==> OccursAt(a, pat, k)
  {
    assert (a + b)[k..k + |pat|] == a[k..k + |pat|];
  }

  /** Text appended after the first occurrence does not move it. */
  lemma FindPrefix(a: string, b: string, pat: string)
    requires Find(a, pat) >= 0
    ensures Find(a + b, pat) == Find(a, pat)
  {
    var i := Find(a, pat);
    FindSpec(a, pat);
    OccursInPrefix(a, b, pat, i);
    forall k: nat | k < i ensures !OccursAt(a + b, pat, k) {
      OccursInPrefix(a, b, pat, k);
    }
    FindIs(a + b, pat, i);
  }

  /** Occurrences that start within `b` are the same in `a + b` and in `b`. */
  lemma OccursInSuffix(a: string, b: string, pat: string, k: nat)
    requires |a| <= k
    ensures OccursAt(a + b, pat, k) <==> OccursAt(b, pat, k - |a|)
  {
    if k + |pat| <= |a + b| {
      assert (a + b)[k..k + |pat|] == b[k - |a|..k - |a| + |pat|];
    }
  }

  /** Searching for a pattern whose first character does not occur in `a`
      skips all of `a`. */
  lemma FindSkip(a: string, b: string, pat: string)
    requires |pat| > 0 && pat[0] !in a
    ensures Find(a + b, pat) == if Find(b, pat) < 0 then -1 else |a| + Find(b, pat)
  {
    FindSpec(b, pat);
    forall k: nat | k < |a| ensures !OccursAt(a + b, pat, k) {
      assert (a + b)[k] == a[k];
      if k + |pat| <= |a + b| {
        assert (a + b)[k..k + |pat|][0] == a[k];
      }
    }
    forall k: nat | |a| <= k ensures OccursAt(a + b, pat, k) <==> OccursAt(b, pat, k - |a|) {
      OccursInSuffix(a, b, pat, k);
    }
    if Find(b, pat) < 0 {
      FindNone(a + b, pat);
    } else {
      FindIs(a + b, pat, |a| + Find(b, pat));
    }
  }

  /** Cutting the text after its first occurrence does not move it. */
  lemma FindInPrefix(s: string, pat: string, j: nat)
    requires Find(s, pat) >= 0 && Find(s, pat) + |pat| <= j <= |s|
    ensures Find(s[..j], pat) == Find(s, pat)
  {
    var i := Find(s, pat);
    FindSpec(s, pat);
    var a, b := s[..j], s[j..];
    assert a + b == s;
    OccursInPrefix(a, b, pat, i);
    forall k: nat | k < i ensures !OccursAt(a, pat, k) {
      OccursInPrefix(a, b, pat, k);
    }
    FindIs(a, pat, i);
  }

  /** Text put in at `|a|` moves an occurrence after it by its own length. */
  lemma OccursAfterInsert(a: string, extra: string, b: string, pat: string, k: nat)
    requires |a| <= k && OccursAt(a + b, pat, k)
    ensures OccursAt(a + (extra + b), pat, k + |extra|)
  {
    OccursInSuffix(a, b, pat, k);
    OccursInSuffix(a + extra, b, pat, k + |extra|);
    assert a + (extra + b) == (a + extra) + b;
  }

  /** Replacing the first occurrence of `pat` by `pat + extra` puts `extra`
      right after that occurrence. */
  lemma ReplaceFirstAppends(s: string, pat: string, extra: string)
    requires Find(s, pat) >= 0
    ensures var j := Find(s, pat) + |pat|;
      j <= |s| && ReplaceFirst(s, pat, pat + extra) == s[..j] + (extra + s[j..])
  {
    var i := Find(s, pat);
    FindFound(s, pat);
    TakeThroughMatch(s, pat, i);
    Regroup(s[..i], pat, extra, s[i + |pat|..]);
  }

  lemma Regroup(a: string, b: string, c: string, d: string)
    ensures a + (b + c) + d == (a + b) + (c + d)
    ensures (a + b) + c + d == a + (b + c + d)
  {
  }

  lemma TakeThroughMatch(s: string, pat: string, i: nat)
    requires OccursAt(s, pat, i)
    ensures s[..i + |pat|] == s[..i] + pat
  {
    assert s[..i + |pat|] == s[..i] + s[i..i + |pat|];
  }

  /** Replacing the first occurrence of `pat` by `pat + extra` leaves that
      occurrence first. */
  lemma ReplaceFirstKeepsFirst(s: string, pat: string, extra: string)
    requires Find(s, pat) >= 0
    ensures Find(ReplaceFirst(s, pat, pat + extra), pat) == Find(s, pat)
  {
    var j := Find(s, pat) + |pat|;
    FindFound(s, pat);
    var head, tail := s[..j], extra + s[j..];
    assert ReplaceFirst(s, pat, pat + extra) == head + tail by {
      ReplaceFirstAppends(s, pat, extra);
    }
    assert Find(head, pat) == Find(s, pat) by {
      FindInPrefix(s, pat, j);
    }
    FindPrefix(head, tail, pat);
  }
}
