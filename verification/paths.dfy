/** Path-string helpers: stripping the source-root prefix (`strip_path_prefix`),
    `os.path.splitext`, and `pathlib`'s `name`, `stem` and `suffix`. The
    separator is the POSIX `os.sep`. */
module Paths {
  import opened Text

  const Sep: char := '/'

  /** A string cut in two: the part before an extension and the extension itself. */
  datatype StemExt = StemExt(stem: string, ext: string)

  /** The prefix with a separator appended when it does not already end in one. */
  function WithTrailingSep(prefix: string): (p: string)
    ensures EndsWith(p, [Sep])
    ensures StartsWith(p, prefix)
    ensures |p| <= |prefix| + 1
    ensures EndsWith(prefix, [Sep]) ==> p == prefix
  {
    if EndsWith(prefix, [Sep]) then prefix else prefix + [Sep]
  }

  /** `strip_path_prefix`: the rest of `path` after the source root, or `path`
      itself when it does not lie under that root. */
  function StripPathPrefix(path: string, prefix: string): (r: string)
    ensures StartsWith(path, WithTrailingSep(prefix)) ==> WithTrailingSep(prefix) + r == path
    ensures !StartsWith(path, WithTrailingSep(prefix)) ==> r == path
  {
    var p := WithTrailingSep(prefix);
    if StartsWith(path, p) then
      assert path == p + path[|p|..];
      path[|p|..]
    else path
  }

  /** Stripping the root from a path built under that root gives back the
      relative part, whether or not the root was written with a final separator. */
  lemma StripPathPrefixUnderRoot(prefix: string, relative: string)
    ensures StripPathPrefix(WithTrailingSep(prefix) + relative, prefix) == relative
  {
    var p := WithTrailingSep(prefix);
    assert (p + relative)[..|p|] == p;
    assert p + StripPathPrefix(p + relative, prefix) == p + relative;
    assert (p + StripPathPrefix(p + relative, prefix))[|p|..] == StripPathPrefix(p + relative, prefix);
    assert (p + relative)[|p|..] == relative;
  }

  // ----- os.path.splitext -----

  /** Some character in `s[lo..hi]` is not a dot. */
  predicate HasNonDot(s: string, lo: int, hi: int)
    requires 0 <= lo && hi <= |s|
  {
    exists k :: lo <= k < hi && s[k] != '.'
  }

  /** No character of `s` from index `lo` on is `c`. */
  predicate NoneFrom(s: string, c: char, lo: int) {
    forall k :: 0 <= k < |s| && lo <= k ==> s[k] != c
  }

  /** The last path component contains a dot that comes after a non-dot
      character of the same component: the condition under which
      `os.path.splitext` finds an extension. */
  ghost predicate HasExtension(p: string) {
    exists i, j :: 0 <= i < j < |p| && p[i] != '.' && p[j] == '.' && NoneFrom(p, Sep, i)
  }

  /** `os.path.splitext`: the extension runs from the last dot of the last
      component, provided that component has a non-dot character before that
      dot (so leading dots, as in ".hidden", do not start an extension). */
  function SplitExt(p: string): (r: StemExt)
    ensures r.stem + r.ext == p
    ensures r.ext != [] ==> r.ext[0] == '.' && NoneFrom(r.ext, Sep, 0) && NoneFrom(r.ext, '.', 1)
  {
    var sepIndex := LastIndexOf(p, Sep);
    var dotIndex := LastIndexOf(p, '.');
    if dotIndex > sepIndex && HasNonDot(p, sepIndex + 1, dotIndex) then
      var ext := p[dotIndex..];
      assert forall k :: 0 <= k < |ext| ==> ext[k] == p[dotIndex + k];
      assert p[..dotIndex] + ext == p;
      StemExt(p[..dotIndex], ext)
    else
      assert p + [] == p;
      StemExt(p, [])
  }

  /** `os.path.splitext` finds an extension exactly when there is one to find. */
  lemma SplitExtFindsExtension(p: string)
    ensures SplitExt(p).ext != [] <==> HasExtension(p)
  {
    SplitExtCondition(p);
  }

  lemma SplitExtCondition(p: string)
    ensures HasExtension(p) <==>
      (LastIndexOf(p, '.') > LastIndexOf(p, Sep)
       && HasNonDot(p, LastIndexOf(p, Sep) + 1, LastIndexOf(p, '.')))
  {
    var sepIndex := LastIndexOf(p, Sep);
    var dotIndex := LastIndexOf(p, '.');
    if dotIndex > sepIndex && HasNonDot(p, sepIndex + 1, dotIndex) {
      var k :| sepIndex + 1 <= k < dotIndex && p[k] != '.';
      assert NoneFrom(p, Sep, k);
    }
    if HasExtension(p) {
      var i, j :| 0 <= i < j < |p| && p[i] != '.' && p[j] == '.' && NoneFrom(p, Sep, i);
      assert j <= dotIndex;
      assert sepIndex < i;
      assert HasNonDot(p, sepIndex + 1, dotIndex);
    }
  }

  // ----- pathlib.PurePath name, stem, suffix -----

  /** `PurePath(s).name`: the last component; the path "." has an empty name. */
  function PathName(s: string): (r: string)
    ensures NoneFrom(r, Sep, 0)
    ensures NoneFrom(s, Sep, 0) && s != "." ==> r == s
  {
    var i := LastIndexOf(s, Sep);
    var last := s[i + 1..];
    assert NoneFrom(s, Sep, 0) ==> i == -1 && last == s;
    assert |last| == 1 && last[0] == '.' ==> last == ".";
    if |last| == 1 && last[0] == '.' then [] else last
  }

  /** The name has a dot that is neither its first nor its last character and
      no dot follows it: the condition under which `pathlib` reports a suffix. */
  ghost predicate HasSuffix(name: string) {
    exists i :: 0 < i < |name| - 1 && name[i] == '.' && NoneFrom(name, '.', i + 1)
  }

  /** The suffix of a name: from its last dot when that dot is neither the first
      nor the last character, and empty otherwise. */
  function SplitSuffix(name: string): (r: StemExt)
    ensures r.stem + r.ext == name
    ensures r.ext != [] ==> |r.ext| >= 2 && r.ext[0] == '.' && NoneFrom(r.ext, '.', 1) && r.stem != []
  {
    var i := LastIndexOf(name, '.');
    if 0 < i < |name| - 1 then
      var ext := name[i..];
      assert forall k :: 0 <= k < |ext| ==> ext[k] == name[i + k];
      assert name[..i] + ext == name;
      StemExt(name[..i], ext)
    else
      assert name + [] == name;
      StemExt(name, [])
  }

  /** `PurePath(s).stem` and `PurePath(s).suffix` together, on the last component. */
  function StemAndSuffix(s: string): (r: StemExt)
    ensures r.stem + r.ext == PathName(s)
    ensures r.ext != [] ==> |r.ext| >= 2 && r.ext[0] == '.' && NoneFrom(r.ext, '.', 1) && r.stem != []
  {
    SplitSuffix(PathName(s))
  }

  /** `pathlib` reports a suffix exactly when the name has one. */
  lemma StemAndSuffixFindsSuffix(s: string)
    ensures StemAndSuffix(s).ext != [] <==> HasSuffix(PathName(s))
  {
    SuffixAtLastDot(PathName(s));
  }

  lemma SuffixAtLastDot(name: string)
    ensures HasSuffix(name) <==> 0 < LastIndexOf(name, '.') < |name| - 1
  {
    var i := LastIndexOf(name, '.');
    if HasSuffix(name) {
      var j :| 0 < j < |name| - 1 && name[j] == '.' && NoneFrom(name, '.', j + 1);
      assert i == j;
    }
  }
}
