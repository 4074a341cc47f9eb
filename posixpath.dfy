/** The two `os.path` functions that `optimize_images` calls, with their
    POSIX meaning: `splitext` and two-argument `join`. */
module PosixPath {

  const Sep: char := '/'
  const ExtSep: char := '.'

  /** Every character of `s` is `c`. */
  predicate AllChar(s: string, c: char) {
    forall k :: 0 <= k < |s| ==> s[k] == c
  }

  /** `s.rfind(c)`: the index of the last `c` in `s`, or -1 if none. */
  function RFind(s: string, c: char): (r: int)
    ensures -1 <= r < |s|
    ensures 0 <= r ==> s[r] == c
    ensures forall k :: r < k < |s| ==> s[k] != c
    decreases |s|
  {
    if s == [] then -1
    else if s[|s| - 1] == c then |s| - 1
    else RFind(s[..|s| - 1], c)
  }

  /** The contract of `RFind` determines its result: any index with `c`
      there and no `c` after it is the one `RFind` returns. */
  lemma RFindUnique(s: string, c: char, r: int)
    requires -1 <= r < |s| && (0 <= r ==> s[r] == c)
    requires forall k :: r < k < |s| ==> s[k] != c
    ensures RFind(s, c) == r
  {
  }

  /** `os.path.splitext(p)`: splits at the last dot of the last path
      component, unless every character of that component before the dot
      is itself a dot, in which case the extension is empty. */
  function SplitExt(p: string): (r: (string, string))
    ensures r.0 + r.1 == p
    ensures r.1 == "" || (r.1[0] == ExtSep && ExtSep !in r.1[1..] && Sep !in r.1)
  {
    var d := ExtStart(p);
    (p[..d], p[d..])
  }

  /** Where `splitext` splits `p`: at the last dot of the last path
      component when some character of that component before the dot is
      not a dot, and otherwise at the end of `p`. */
  function ExtStart(p: string): (d: nat)
    ensures d <= |p|
    ensures d < |p| ==> p[d] == ExtSep && (forall k :: d < k < |p| ==> p[k] != ExtSep && p[k] != Sep)
  {
    var sepIndex := RFind(p, Sep);
    var dotIndex := RFind(p, ExtSep);
    if dotIndex > sepIndex && !AllChar(p[sepIndex + 1..dotIndex], ExtSep) then
      dotIndex
    else
      |p|
  }

  /** The extension is non-empty exactly when the last path component has
      a character that is not a dot with a dot somewhere after it. */
  lemma SplitExtFindsExtension(p: string)
    ensures SplitExt(p).1 != "" <==>
            exists j :: RFind(p, Sep) < j < |p| && p[j] != ExtSep && ExtSep in p[j + 1..]
  {
    ExtStartFindsExtension(p);
  }

  lemma ExtStartFindsExtension(p: string)
    ensures ExtStart(p) < |p| <==>
            exists j :: RFind(p, Sep) < j < |p| && p[j] != ExtSep && ExtSep in p[j + 1..]
  {
    if exists j :: RFind(p, Sep) < j < |p| && p[j] != ExtSep && ExtSep in p[j + 1..] {
      var j :| RFind(p, Sep) < j < |p| && p[j] != ExtSep && ExtSep in p[j + 1..];
      ExtStartFromWitness(p, j);
    }
    if ExtStart(p) < |p| {
      var j := WitnessFromExtStart(p);
    }
  }

  lemma ExtStartFromWitness(p: string, j: int)
    requires RFind(p, Sep) < j < |p| && p[j] != ExtSep && ExtSep in p[j + 1..]
    ensures ExtStart(p) < |p|
  {
    var sepIndex := RFind(p, Sep);
    var dotIndex := RFind(p, ExtSep);
    var i :| 0 <= i < |p[j + 1..]| && p[j + 1..][i] == ExtSep;
    assert p[j + 1 + i] == ExtSep;
    assert j < dotIndex;
    assert p[sepIndex + 1..dotIndex][j - sepIndex - 1] == p[j];
  }

  lemma WitnessFromExtStart(p: string) returns (j: int)
    requires ExtStart(p) < |p|
    ensures RFind(p, Sep) < j < |p| && p[j] != ExtSep && ExtSep in p[j + 1..]
  {
    var sepIndex := RFind(p, Sep);
    var dotIndex := RFind(p, ExtSep);
    assert sepIndex < dotIndex && !AllChar(p[sepIndex + 1..dotIndex], ExtSep);
    j := NonDotBefore(p, sepIndex, dotIndex);
  }

  /** A dot at `d` with a non-dot between `s` and `d` gives a non-dot with a
      dot after it. */
  lemma NonDotBefore(p: string, s: int, d: int) returns (j: int)
    requires -1 <= s < d < |p| && p[d] == ExtSep
    requires !AllChar(p[s + 1..d], ExtSep)
    ensures s < j < d && p[j] != ExtSep && ExtSep in p[j + 1..]
  {
    var piece := p[s + 1..d];
    var k :| 0 <= k < |piece| && piece[k] != ExtSep;
    j := s + 1 + k;
    assert p[j] == piece[k];
    assert p[j + 1..][d - j - 1] == ExtSep;
  }

  /** When there is an extension, the split is at the last dot of the path:
      the root is everything before it. */
  lemma SplitExtAtLastDot(p: string)
    requires SplitExt(p).1 != ""
    ensures 0 <= RFind(p, ExtSep)
    ensures SplitExt(p).0 == p[..RFind(p, ExtSep)] && SplitExt(p).1 == p[RFind(p, ExtSep)..]
  {
  }

  /** A name made of a root without dots or separators, a dot and an
      extension without dots or separators splits into that root and the
      dotted extension. */
  lemma SplitExtSimple(root: string, ext: string)
    requires root != [] && ExtSep !in root && Sep !in root
    requires ExtSep !in ext && Sep !in ext
    ensures SplitExt(root + [ExtSep] + ext) == (root, [ExtSep] + ext)
  {
    var p := root + [ExtSep] + ext;
    var n := |root|;
    assert forall k :: 0 <= k < n ==> p[k] == root[k];
    assert forall k :: n < k < |p| ==> p[k] == ext[k - n - 1];
    RFindUnique(p, Sep, -1);
    RFindUnique(p, ExtSep, n);
    assert p[0..n] == root;
    assert p[0..n][0] != ExtSep;
    assert p[..n] == root && p[n..] == [ExtSep] + ext;
  }

  /** A non-empty name without separators keeps a non-empty root that
      starts with the name's first character. */
  lemma SplitExtRoot(p: string)
    requires p != [] && Sep !in p
    ensures SplitExt(p).0 != [] && SplitExt(p).0[0] == p[0]
  {
    var sepIndex := RFind(p, Sep);
    var dotIndex := RFind(p, ExtSep);
    assert sepIndex == -1;
    if SplitExt(p).1 != "" {
      assert dotIndex > 0;
    }
  }

  /** `a` as a directory prefix: unchanged when empty or already ending in a
      separator, otherwise with a separator appended. */
  function AsDir(a: string): (d: string)
    ensures d == [] || d[|d| - 1] == Sep
    ensures |a| <= |d| && d[..|a|] == a
  {
    if a == [] || a[|a| - 1] == Sep then a else a + [Sep]
  }

  /** `os.path.join(a, b)`: an absolute `b` replaces `a`; otherwise `b` is
      appended to `a`, with a separator between them when needed. */
  function Join(a: string, b: string): string {
    if |b| > 0 && b[0] == Sep then b else AsDir(a) + b
  }

  /** The joined path always ends with `b`. */
  lemma JoinEndsWithName(a: string, b: string)
    ensures |b| <= |Join(a, b)| && Join(a, b)[|Join(a, b)| - |b|..] == b
  {
  }

  /** A relative `b` lands inside `a`: the result starts with `a` and ends
      with `b`, and `a` and `b` are separated by exactly one separator or
      `a` is empty. */
  lemma JoinRelative(a: string, b: string)
    requires b == [] || b[0] != Sep
    ensures Join(a, b) == AsDir(a) + b
    ensures |a| <= |Join(a, b)| && Join(a, b)[..|a|] == a
    ensures Join(a, b)[|Join(a, b)| - |b|..] == b
  {
  }

  /** Two joins that produce the same path from names without separators
      used the same name and the same directory (up to a trailing
      separator). */
  lemma JoinDetermines(d1: string, n1: string, d2: string, n2: string)
    requires Sep !in n1 && Sep !in n2
    requires Join(d1, n1) == Join(d2, n2)
    ensures n1 == n2 && AsDir(d1) == AsDir(d2)
  {
    var x, y := AsDir(d1), AsDir(d2);
    var s := x + n1;
    assert n1 != [] ==> n1[0] != Sep;
    assert n2 != [] ==> n2[0] != Sep;
    assert s == y + n2;
    assert s[|x|..] == n1 && s[|y|..] == n2;
    assert s[..|x|] == x && s[..|y|] == y;
  }
}
