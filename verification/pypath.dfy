/**
 * The `os.path` operations the converter uses, with the POSIX rules of
 * Python's `posixpath`: the separator is '/', the extension separator '.'.
 */
module PyPath {
  import opened PyStr

  const Sep: char := '/'
  const ExtSep: char := '.'

  /** Some character in `p[lo..hi]` is not a dot. */
  predicate HasNonDot(p: string, lo: int, hi: int)
    requires 0 <= lo && hi <= |p|
  {
    exists i :: lo <= i < hi && p[i] != ExtSep
  }

  /**
   * `os.path.splitext(p)`: the extension starts at the last dot of the last
   * path component, unless every character before that dot in the component
   * is itself a dot (so `.heic` and `..heic` have no extension).
   */
  function SplitExt(p: string): (r: (string, string))
    ensures r.0 + r.1 == p
    ensures r.1 == [] || (r.1[0] == ExtSep && ExtSep !in r.1[1..] && Sep !in r.1)
  {
    var sepIndex := RFind(p, Sep);
    var dotIndex := RFind(p, ExtSep);
    RFindLast(p, Sep);
    RFindLast(p, ExtSep);
    if dotIndex > sepIndex && HasNonDot(p, sepIndex + 1, dotIndex) then
      assert p[..dotIndex] + p[dotIndex..] == p;
      assert forall i :: 0 <= i < |p[dotIndex..]| ==> p[dotIndex..][i] == p[dotIndex + i];
      (p[..dotIndex], p[dotIndex..])
    else
      assert p + "" == p;
      (p, "")
  }

  /** `os.path.splitext(p)[1]`. */
  function Ext(p: string): string {
    SplitExt(p).1
  }

  /** `os.path.splitext(p)[0]`. */
  function Stem(p: string): string {
    SplitExt(p).0
  }

  /** `os.path.basename(p)`: what follows the last separator. */
  function Basename(p: string): string {
    if p == [] || p[|p| - 1] == Sep then [] else Basename(p[..|p| - 1]) + [p[|p| - 1]]
  }

  /** The base name is the part of `p` after the position `p.rfind('/')` reports. */
  lemma {:induction false} BasenameAfterLastSep(p: string)
    ensures Basename(p) == p[RFind(p, Sep) + 1..]
  {
    if p != [] && p[|p| - 1] != Sep {
      var q := p[..|p| - 1];
      BasenameAfterLastSep(q);
      var k := RFind(q, Sep);
      assert RFind(p, Sep) == k;
      assert p == q + [p[|p| - 1]];
      assert p[k + 1..] == q[k + 1..] + [p[|p| - 1]];
    }
  }

  /** A base name holds no separator, and a path without separators is its own base name. */
  lemma {:induction false} BasenameHasNoSep(p: string)
    ensures Sep !in Basename(p)
    ensures Sep !in p ==> Basename(p) == p
  {
    if p != [] && p[|p| - 1] != Sep {
      var q := p[..|p| - 1];
      BasenameHasNoSep(q);
      assert Sep !in p ==> Sep !in q by {
        if Sep !in p {
          assert forall c :: c in q ==> c in p;
        }
      }
      assert p == q + [p[|p| - 1]];
    }
  }

  /**
   * `os.path.join(a, b)`: an absolute `b` replaces `a`; otherwise `b` is
   * appended, with a separator unless `a` is empty or already ends in one.
   */
  function Join(a: string, b: string): (r: string)
    ensures |b| > 0 && b[0] == Sep ==> r == b
    ensures !(|b| > 0 && b[0] == Sep) ==> r == a + b || r == a + [Sep] + b
  {
    if |b| > 0 && b[0] == Sep then b
    else if a == [] || a[|a| - 1] == Sep then a + b
    else a + [Sep] + b
  }

  /** Joining a name without separators onto any directory gives a path whose base name is that name. */
  lemma JoinBasename(a: string, b: string)
    requires Sep !in b
    ensures Basename(Join(a, b)) == b
  {
    BasenameOfSuffix(Join(a, b), b);
  }

  /** The base name of a path that ends with a separator followed by `b` (or is `b`) is `b`. */
  lemma {:induction false} BasenameOfSuffix(r: string, b: string)
    requires Sep !in b
    requires |b| <= |r| && r[|r| - |b|..] == b
    requires |r| == |b| || r[|r| - |b| - 1] == Sep
    ensures Basename(r) == b
  {
    if b != [] {
      var b' := b[..|b| - 1];
      var r' := r[..|r| - 1];
      assert r[|r| - 1] == b[|b| - 1];
      assert r'[|r'| - |b'|..] == r[|r| - |b|..][..|b| - 1];
      assert forall c :: c in b' ==> c in b;
      BasenameOfSuffix(r', b');
      assert b == b' + [b[|b| - 1]];
    }
  }
}
