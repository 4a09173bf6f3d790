/**
 * The string operations the dataset loader applies to file names:
 * str.lower and os.path.splitext (POSIX flavour, '/' as the only separator).
 */
module Paths {

  /** str.lower on one character, for the ASCII letters. */
  function LowerChar(c: char): char {
    if 'A' <= c <= 'Z' then (c as int + 32) as char else c
  }

  /**
   * `s.lower()`: same length, each upper-case ASCII letter replaced by its
   * lower-case form and every other character kept.
   */
  function Lower(s: string): (r: string)
    ensures |r| == |s|
    ensures forall i :: 0 <= i < |r| ==>
      if 'A' <= s[i] <= 'Z' then r[i] as int == s[i] as int + 32 else r[i] == s[i]
  {
    seq(|s|, i requires 0 <= i < |s| => LowerChar(s[i]))
  }

  /**
   * `[f.lower() for f in names]`: a name is in the result exactly when it is
   * the lower-cased form of some listed name.
   */
  function LowerAll(names: seq<string>): (r: seq<string>)
    ensures |r| == |names|
    ensures forall n :: n in r <==> exists f :: f in names && Lower(f) == n
  {
    var r := seq(|names|, i requires 0 <= i < |names| => Lower(names[i]));
    assert forall n :: n in r ==> exists f :: f in names && Lower(f) == n by {
      forall n | n in r ensures exists f :: f in names && Lower(f) == n {
        var i :| 0 <= i < |r| && r[i] == n;
        assert names[i] in names;
      }
    }
    assert forall f :: f in names ==> Lower(f) in r by {
      forall f | f in names ensures Lower(f) in r {
        var i :| 0 <= i < |names| && names[i] == f;
        assert r[i] == Lower(f);
      }
    }
    r
  }

  /** The index of the last occurrence of `c` in `s`, or -1 (str.rfind). */
  function LastIndex(s: string, c: char): (r: int)
    ensures -1 <= r < |s|
    ensures r >= 0 ==> s[r] == c
    ensures forall k :: r < k < |s| ==> s[k] != c
    decreases |s|
  {
    if |s| == 0 then -1
    else if s[|s| - 1] == c then |s| - 1
    else LastIndex(s[..|s| - 1], c)
  }

  /**
   * os.path.splitext(p) == (root, ext): ext starts at the last '.' of the last
   * path component, unless everything before that dot in the component is a
   * dot as well (".bashrc", "..x"), in which case ext is empty.
   */
  function SplitExt(p: string): (r: (string, string))
    ensures r.0 + r.1 == p
    ensures r.1 == [] || (r.1[0] == '.' && forall k :: 0 < k < |r.1| ==> r.1[k] != '.' && r.1[k] != '/')
    ensures r.1 != [] ==> exists m :: LastIndex(p, '/') < m < |r.0| && r.0[m] != '.'
    ensures r.1 == [] ==>
      forall k :: LastIndex(p, '/') < k < |p| && p[k] == '.' ==>
        forall m :: LastIndex(p, '/') < m < k ==> p[m] == '.'
  {
    (p[..ExtStart(p)], p[ExtStart(p)..])
  }

  /** Where `SplitExt` cuts: at the last dot of the last component, or at the end. */
  function ExtStart(p: string): (n: nat)
    ensures n <= |p|
  {
    var sep := LastIndex(p, '/');
    var dot := LastIndex(p, '.');
    if dot > sep && exists k :: sep < k < dot && p[k] != '.' then dot else |p|
  }

  /** Lower-casing twice is lower-casing once. */
  lemma LowerIdempotent(s: string)
    ensures Lower(Lower(s)) == Lower(s)
  {
  }

  lemma LowerConcat(a: string, b: string)
    ensures Lower(a + b) == Lower(a) + Lower(b)
  {
    assert Lower(a + b) == Lower(a) + Lower(b) by {
      forall i | 0 <= i < |a| + |b| ensures Lower(a + b)[i] == (Lower(a) + Lower(b))[i] {
        if i < |a| { assert (a + b)[i] == a[i]; } else { assert (a + b)[i] == b[i - |a|]; }
      }
    }
  }

  lemma LowerPrefix(s: string, n: nat)
    requires n <= |s|
    ensures Lower(s)[..n] == Lower(s[..n]) && Lower(s)[n..] == Lower(s[n..])
  {
  }

  /** Lower-casing never creates or removes a '.' or a '/'. */
  lemma {:induction false} LastIndexLower(s: string, c: char)
    requires !('A' <= c <= 'Z') && !('a' <= c <= 'z')
    ensures LastIndex(Lower(s), c) == LastIndex(s, c)
    decreases |s|
  {
    if |s| > 0 {
      LowerPrefix(s, |s| - 1);
      LastIndexLower(s[..|s| - 1], c);
    }
  }

  /**
   * Splitting after lower-casing is lower-casing after splitting, so the
   * lower-cased stem the loader computes does not depend on the case of the
   * image id it was given.
   */
  lemma SplitExtLower(p: string)
    ensures SplitExt(Lower(p)) == (Lower(SplitExt(p).0), Lower(SplitExt(p).1))
  {
    ExtStartLower(p);
    LowerPrefix(p, ExtStart(p));
  }

  lemma ExtStartLower(p: string)
    ensures ExtStart(Lower(p)) == ExtStart(p)
  {
    var q := Lower(p);
    LastIndexLower(p, '/');
    LastIndexLower(p, '.');
    var sep := LastIndex(p, '/');
    var dot := LastIndex(p, '.');
    assert (exists k :: sep < k < dot && q[k] != '.') <==> (exists k :: sep < k < dot && p[k] != '.') by {
      forall k | sep < k < dot ensures q[k] != '.' <==> p[k] != '.' {
        assert q[k] == LowerChar(p[k]);
      }
    }
  }

  lemma {:induction false} LastIndexAt(s: string, c: char, i: int)
    requires -1 <= i < |s|
    requires i >= 0 ==> s[i] == c
    requires forall k :: i < k < |s| ==> s[k] != c
    ensures LastIndex(s, c) == i
    decreases |s|
  {
    if |s| > 0 && i < |s| - 1 {
      LastIndexAt(s[..|s| - 1], c, i);
    }
  }

  /** An image id keeps its root; the final extension goes, whatever its case. */
  lemma SplitExtDropsLastExtension()
    ensures SplitExt("Leaf_01.JPG") == ("Leaf_01", ".JPG")
  {
    var p := "Leaf_01.JPG";
    LastIndexAt(p, '/', -1);
    LastIndexAt(p, '.', 7);
    assert p[0] != '.';
    assert p[..7] == "Leaf_01" && p[7..] == ".JPG";
  }

  /** Only the last extension is stripped. */
  lemma SplitExtKeepsInnerDots()
    ensures SplitExt("leaf.v2.png") == ("leaf.v2", ".png")
  {
    var p := "leaf.v2.png";
    LastIndexAt(p, '/', -1);
    LastIndexAt(p, '.', 7);
    assert p[0] != '.';
    assert p[..7] == "leaf.v2" && p[7..] == ".png";
  }

  /** A name made of a leading dot and no other dot has no extension. */
  lemma SplitExtLeadingDot()
    ensures SplitExt(".hidden") == (".hidden", "")
  {
    LastIndexAt(".hidden", '/', -1);
    LastIndexAt(".hidden", '.', 0);
    assert ExtStart(".hidden") == 7;
    assert ".hidden"[..7] == ".hidden";
  }

  /** A dot in a directory name is not an extension. */
  lemma SplitExtDotInDirectory()
    ensures SplitExt("dir.d/leaf") == ("dir.d/leaf", "")
  {
    LastIndexAt("dir.d/leaf", '/', 5);
    LastIndexAt("dir.d/leaf", '.', 3);
    assert ExtStart("dir.d/leaf") == 10;
    assert "dir.d/leaf"[..10] == "dir.d/leaf";
  }
}
