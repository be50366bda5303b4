/** The parts of Python's `posixpath` (`os.path` on POSIX systems) that the
    plugin relies on: `basename`, `splitext` and two-argument `join`. */
module PosixPath {

  /** `s.rfind(c)`: the highest index holding `c`, or -1. */
  function RFind(s: string, c: char): (r: int)
    ensures -1 <= r < |s|
    ensures r >= 0 ==> s[r] == c
    ensures forall k :: r < k < |s| ==> s[k] != c
  {
    if |s| == 0 then -1
    else if s[|s| - 1] == c then |s| - 1
    else RFind(s[..|s| - 1], c)
  }

  /** `RFind` is pinned down by its contract: a `c` at `r` and none after. */
  lemma RFindIs(s: string, c: char, r: int)
    requires -1 <= r < |s| && (r >= 0 ==> s[r] == c)
    requires forall k :: r < k < |s| ==> s[k] != c
    ensures RFind(s, c) == r
  {
  }

  /** `posixpath.basename`: everything after the last `/`. */
  function Basename(p: string): (b: string)
    ensures |b| <= |p| && b == p[|p| - |b|..] && '/' !in b
  {
    var sep := RFind(p, '/');
    NoneAfterLast(p, '/');
    p[sep + 1..]
  }

  /** The base name is the whole last component: it is the whole path, or a
      `/` comes right before it. */
  lemma BasenameIsLastComponent(p: string)
    ensures var b := Basename(p); b == p || p[|p| - |b| - 1] == '/'
  {
  }

  /** Nothing after the last `c` is a `c`. */
  lemma NoneAfterLast(s: string, c: char)
    ensures c !in s[RFind(s, c) + 1..]
  {
    var r := RFind(s, c);
    var t := s[r + 1..];
    forall k | 0 <= k < |t| ensures t[k] != c {
      assert t[k] == s[r + 1 + k];
    }
  }

  predicate AllDots(s: string)
  {
    forall k :: 0 <= k < |s| ==> s[k] == '.'
  }

  lemma NotAllDots(p: string, lo: int, hi: int, k: int)
    requires 0 <= lo <= k < hi <= |p| && p[k] != '.'
    ensures !AllDots(p[lo..hi])
  {
    assert p[lo..hi][k - lo] == p[k];
  }

  lemma OnlyDots(p: string, lo: int, hi: int)
    requires 0 <= lo <= hi <= |p| && forall j :: lo <= j < hi ==> p[j] == '.'
    ensures AllDots(p[lo..hi])
  {
    var stem := p[lo..hi];
    forall j | 0 <= j < |stem| ensures stem[j] == '.' {
      assert stem[j] == p[lo + j];
    }
  }

  /** `posixpath.splitext`: the extension starts at the last dot of the base
      name, unless everything before that dot in the base name is dots
      (a leading dot starts no extension); otherwise the extension is empty. */
  function SplitExt(p: string): (r: (string, string))
    ensures r.0 + r.1 == p
  {
    var sep := RFind(p, '/');
    var dot := RFind(p, '.');
    if dot > sep && !AllDots(p[sep + 1..dot]) then (p[..dot], p[dot..]) else (p, [])
  }

  /** The extension is empty, or it is one dot followed by neither dots nor
      separators. */
  lemma SplitExtShape(p: string)
    ensures var ext := SplitExt(p).1;
      ext == [] || (ext[0] == '.' && '.' !in ext[1..] && '/' !in ext)
  {
    var sep := RFind(p, '/');
    var dot := RFind(p, '.');
    var ext := SplitExt(p).1;
    if ext != [] {
      assert ext == p[dot..];
      forall k | 1 <= k < |ext| ensures ext[k] != '.' {
        assert ext[k] == p[dot + k];
      }
      assert '.' !in ext[1..] by {
        forall k | 0 <= k < |ext| - 1 ensures ext[1..][k] != '.' {
          assert ext[1..][k] == ext[k + 1];
        }
      }
      forall k | 0 <= k < |ext| ensures ext[k] != '/' {
        assert ext[k] == p[dot + k];
      }
    }
  }

  /** The base name `b` has a dot with some character other than a dot
      before it. */
  predicate DotAfterNonDot(b: string)
  {
    exists i, j :: 0 <= i < j < |b| && b[i] != '.' && b[j] == '.'
  }

  /** The extension is non-empty exactly when the base name has a dot with
      some character other than a dot before it. */
  lemma SplitExtFindsExtension(p: string)
    ensures SplitExt(p).1 != [] <==> DotAfterNonDot(Basename(p))
  {
    if SplitExt(p).1 != [] {
      ExtensionHasDotAfterNonDot(p);
    }
    if DotAfterNonDot(Basename(p)) {
      DotAfterNonDotGivesExtension(p);
    }
  }

  lemma ExtensionHasDotAfterNonDot(p: string)
    requires SplitExt(p).1 != []
    ensures DotAfterNonDot(Basename(p))
  {
    StemHasNonDot(p, RFind(p, '/'), RFind(p, '.'));
  }

  /** A base name whose stem before a dot is not all dots has a dot after a
      non-dot. */
  lemma StemHasNonDot(p: string, sep: int, dot: int)
    requires -1 <= sep < dot < |p| && p[dot] == '.' && !AllDots(p[sep + 1..dot])
    ensures DotAfterNonDot(p[sep + 1..])
  {
    var k :| 0 <= k < dot - sep - 1 && p[sep + 1..dot][k] != '.';
    var b := p[sep + 1..];
    assert b[k] == p[sep + 1..dot][k];
    assert b[dot - sep - 1] == p[dot];
    DotAfterNonDotAt(b, k, dot - sep - 1);
  }

  lemma DotAfterNonDotAt(b: string, i: int, j: int)
    requires 0 <= i < j < |b| && b[i] != '.' && b[j] == '.'
    ensures DotAfterNonDot(b)
  {
  }

  lemma DotAfterNonDotGivesExtension(p: string)
    requires DotAfterNonDot(Basename(p))
    ensures SplitExt(p).1 != []
  {
    var sep, dot := RFind(p, '/'), RFind(p, '.');
    var b := Basename(p);
    assert b == p[sep + 1..];
    var i, j :| 0 <= i < j < |b| && b[i] != '.' && b[j] == '.';
    assert sep + 1 + j < |p| && p[sep + 1 + i] != '.' && p[sep + 1 + j] == '.' by {
      assert p[sep + 1 + i] == b[i] && p[sep + 1 + j] == b[j];
    }
    StemWithNonDot(p, sep, dot, sep + 1 + i, sep + 1 + j);
  }

  /** A non-dot at `i` and a dot at `j` after the separator put the last dot
      after the separator, with a non-dot in the stem before it. */
  lemma StemWithNonDot(p: string, sep: int, dot: int, i: int, j: int)
    requires -1 <= sep < |p| && dot == RFind(p, '.')
    requires sep + 1 <= i < j < |p| && p[i] != '.' && p[j] == '.'
    ensures sep < dot && !AllDots(p[sep + 1..dot])
  {
    assert dot >= j;
    NotAllDots(p, sep + 1, dot, i);
  }

  /** `posixpath.join(a, b)`: an absolute `b` replaces `a`; otherwise `b` is
      appended, with a `/` between unless `a` is empty or already ends in one. */
  function Join(a: string, b: string): (r: string)
    ensures |b| <= |r| && r[|r| - |b|..] == b
    ensures [ '/' ] <= b ==> r == b
    ensures (b == [] || b[0] != '/') ==>
      a <= r && |a| + |b| <= |r| <= |a| + |b| + 1
      && (a != [] ==> r[|r| - |b| - 1] == '/')
    ensures (b == [] || b[0] != '/') ==>
      |r| == |a| + |b| + (if a == [] || a[|a| - 1] == '/' then 0 else 1)
  {
    if [ '/' ] <= b then b
    else if a == [] || a[|a| - 1] == '/' then a + b
    else a + "/" + b
  }

  /** Joining two relative parts onto a directory puts one `/` before each. */
  lemma JoinTwo(a: string, d: string, f: string)
    requires a != [] && a[|a| - 1] != '/'
    requires d != [] && d[0] != '/' && d[|d| - 1] != '/'
    requires f == [] || f[0] != '/'
    ensures Join(Join(a, d), f) == a + "/" + d + "/" + f
  {
    var ad := a + "/" + d;
    assert Join(a, d) == ad;
    assert ad[|ad| - 1] == d[|d| - 1];
  }
}
