/**
 * `path.extname` of Node's POSIX path module: the extension of the last
 * path segment, from its last '.' to the end, ignoring trailing '/'
 * separators; empty when the segment has no '.', when its only '.' is its
 * first character (a dot-file such as ".png") or when the segment is "..".
 */
module Paths {
  import opened Options
  import opened Strings

  /** The index of the last occurrence of `c` in `s`, if any. */
  function LastIndexOf(s: string, c: char): (r: Option<nat>)
    ensures r.Some? ==> r.value < |s| && s[r.value] == c
    ensures r.Some? ==> forall j | r.value < j < |s| :: s[j] != c
    ensures r.None? <==> forall j | 0 <= j < |s| :: s[j] != c
  {
    if |s| == 0 then None
    else if s[|s| - 1] == c then Some(|s| - 1)
    else LastIndexOf(s[..|s| - 1], c)
  }

  /** `p` without its trailing '/' characters. */
  function StripTrailingSlashes(p: string): (r: string)
    ensures IsPrefix(r, p)
    ensures r == "" || r[|r| - 1] != '/'
    ensures forall j | |r| <= j < |p| :: p[j] == '/'
  {
    if |p| > 0 && p[|p| - 1] == '/' then StripTrailingSlashes(p[..|p| - 1]) else p
  }

  /** The last '/'-separated segment of `p` (all of `p` if it has no '/'). */
  function LastSegment(p: string): (r: string)
    ensures NoChar(r, '/')
    ensures |r| <= |p| && p[|p| - |r|..] == r
  {
    match LastIndexOf(p, '/')
    case None => p
    case Some(i) => p[i + 1..]
  }

  predicate NoChar(s: string, c: char) {
    forall j | 0 <= j < |s| :: s[j] != c
  }

  /** What `path.extname` can return: nothing, or a '.' followed by
      characters that are neither '.' nor '/'. */
  predicate IsExtension(e: string) {
    e == "" || (e[0] == '.' && NoChar(e[1..], '.') && NoChar(e[1..], '/'))
  }

  /** The extension of one path segment (a string without '/'). */
  function SegmentExtension(b: string): (r: string)
    requires NoChar(b, '/')
    ensures IsExtension(r)
    ensures |r| <= |b| && b[|b| - |r|..] == r
  {
    match LastIndexOf(b, '.')
    case None => ""
    case Some(k) =>
      if k == 0 || b == ".." then ""
      else
        assert forall j | 1 <= j < |b[k..]| :: b[k..][j] == b[k + j];
        b[k..]
  }

  /** `path.extname(p)` on a POSIX system. */
  function Extname(p: string): (r: string)
    ensures IsExtension(r)
    ensures |r| <= |p|
  {
    SegmentExtension(LastSegment(StripTrailingSlashes(p)))
  }

  /** A path with no '.' at all has no extension. */
  lemma NoDotNoExtension(p: string)
    requires NoChar(p, '.')
    ensures Extname(p) == ""
  {
    var b := LastSegment(StripTrailingSlashes(p));
    var q := StripTrailingSlashes(p);
    assert forall j | 0 <= j < |q| :: q[j] == p[j];
    assert forall j | 0 <= j < |b| :: b[j] == q[|q| - |b| + j];
  }

  /** A name `base` (no '/', not empty) followed by an extension `ext` has
      exactly `ext` as its extension; the only exception is the name "..". */
  lemma ExtnameOfJoin(base: string, ext: string)
    requires base != "" && NoChar(base, '/')
    requires IsExtension(ext) && ext != ""
    requires base + ext != ".."
    ensures Extname(base + ext) == ext
  {
    var p := base + ext;
    assert NoChar(p, '/') by {
      forall j | 0 <= j < |p| ensures p[j] != '/' {
        if j >= |base| {
          assert p[j] == ext[j - |base|];
          if j > |base| {
            assert ext[j - |base|] == ext[1..][j - |base| - 1];
          }
        }
      }
    }
    assert StripTrailingSlashes(p) == p;
    assert LastIndexOf(p, '/').None?;
    assert LastSegment(p) == p;
    var k := |base|;
    assert p[k] == '.';
    assert forall j | k < j < |p| :: p[j] != '.' by {
      forall j | k < j < |p| ensures p[j] != '.' {
        assert p[j] == ext[1..][j - k - 1];
      }
    }
    assert LastIndexOf(p, '.') == Some(k);
    assert p[k..] == ext;
  }

  /** Lower-casing neither creates nor removes a '.' or a '/'. */
  lemma LowerKeepsSeparators(x: char)
    ensures LowerChar(x) == '.' <==> x == '.'
    ensures LowerChar(x) == '/' <==> x == '/'
  {
  }

  lemma {:induction false} LastIndexOfLower(s: string, c: char)
    requires c == '.' || c == '/'
    ensures LastIndexOf(Lower(s), c) == LastIndexOf(s, c)
  {
    if |s| > 0 {
      LowerKeepsSeparators(s[|s| - 1]);
      LowerSlice(s, 0, |s| - 1);
      LastIndexOfLower(s[..|s| - 1], c);
    }
  }

  lemma {:induction false} StripTrailingSlashesLower(p: string)
    ensures StripTrailingSlashes(Lower(p)) == Lower(StripTrailingSlashes(p))
  {
    if |p| > 0 {
      LowerKeepsSeparators(p[|p| - 1]);
      LowerSlice(p, 0, |p| - 1);
      StripTrailingSlashesLower(p[..|p| - 1]);
    }
  }

  lemma LastSegmentLower(p: string)
    ensures LastSegment(Lower(p)) == Lower(LastSegment(p))
  {
    LastIndexOfLower(p, '/');
    match LastIndexOf(p, '/')
    case None =>
    case Some(i) =>
      LowerSlice(p, i + 1, |p|);
      assert Lower(p)[i + 1..] == Lower(p)[i + 1..|p|];
      assert p[i + 1..] == p[i + 1..|p|];
  }

  lemma SegmentExtensionLower(b: string)
    requires NoChar(b, '/')
    ensures NoChar(Lower(b), '/')
    ensures SegmentExtension(Lower(b)) == Lower(SegmentExtension(b))
  {
    forall j | 0 <= j < |b| ensures Lower(b)[j] != '/' {
      LowerKeepsSeparators(b[j]);
    }
    LastIndexOfLower(b, '.');
    match LastIndexOf(b, '.')
    case None =>
    case Some(k) =>
      LowerKeepsSeparators(b[0]);
      assert Lower(b) == ".." <==> b == "..";
      LowerSlice(b, k, |b|);
      assert Lower(b)[k..] == Lower(b)[k..|b|];
      assert b[k..] == b[k..|b|];
  }

  /** The case of the letters plays no part in where an extension starts:
      the extension of the lower-cased path is the lower-cased extension. */
  lemma ExtnameLower(p: string)
    ensures Extname(Lower(p)) == Lower(Extname(p))
  {
    StripTrailingSlashesLower(p);
    LastSegmentLower(StripTrailingSlashes(p));
    SegmentExtensionLower(LastSegment(StripTrailingSlashes(p)));
  }
}
