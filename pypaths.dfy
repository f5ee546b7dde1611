/**
 * The POSIX `os.path` functions the repository relies on: `basename`,
 * `splitext` and two-argument `join`.
 */
module PyPaths {
  import opened PyStrings

  /** `s.rfind(c)`: the greatest index holding `c`, or -1. */
  function RFind(s: string, c: char): (i: int)
    ensures -1 <= i < |s|
    ensures i >= 0 ==> s[i] == c
    ensures forall k :: i < k < |s| ==> s[k] != c
    decreases |s|
  {
    if s == [] then -1
    else if s[|s| - 1] == c then |s| - 1
    else RFind(s[..|s| - 1], c)
  }

  /** `os.path.basename(p)`: whatever follows the last `/`. */
  function Basename(p: string): (b: string)
    ensures '/' !in b
    ensures EndsWith(p, b)
    ensures |b| == |p| - (RFind(p, '/') + 1)
  {
    p[RFind(p, '/') + 1..]
  }

  /** The base name of `dir/name` is `name` when `name` holds no `/`. */
  lemma {:induction false} BasenameOfChild(dir: string, name: string)
    requires '/' !in name
    ensures Basename(dir + "/" + name) == name
  {
    var p := dir + "/" + name;
    assert p[|dir|] == '/';
    assert forall k :: |dir| < k < |p| ==> p[k] == name[k - |dir| - 1];
    assert p[|dir| + 1..] == name;
  }

  /**
   * `os.path.splitext(p)`: the extension runs from the last `.` of the base
   * name to the end, unless every character of the base name before that `.`
   * is itself a `.` (a leading-dot name such as `.bashrc` has no extension).
   */
  function SplitExt(p: string): (parts: (string, string))
    ensures parts.0 + parts.1 == p
    ensures parts.1 == [] || (parts.1[0] == '.' && '/' !in parts.1 && '.' !in parts.1[1..])
    ensures parts.1 != [] ==> |parts.0| == RFind(p, '.') && RFind(p, '.') > RFind(p, '/')
  {
    var sepIndex := RFind(p, '/');
    var dotIndex := RFind(p, '.');
    if dotIndex > sepIndex && exists k :: sepIndex + 1 <= k < dotIndex && p[k] != '.' then
      assert forall k :: 1 <= k < |p[dotIndex..]| ==> p[dotIndex..][k] == p[dotIndex + k];
      (p[..dotIndex], p[dotIndex..])
    else
      (p, [])
  }

  /** A name whose final stem character is neither `/` nor `.` splits before its last dot. */
  lemma {:induction false} SplitExtOfSuffix(root: string, ext: string)
    requires root != [] && root[|root| - 1] != '/' && root[|root| - 1] != '.'
    requires '.' !in ext && '/' !in ext
    ensures SplitExt(root + "." + ext) == (root, "." + ext)
  {
    var dotExt := "." + ext;
    var p := root + dotExt;
    assert p == root + "." + ext;
    assert p[..|root|] == root && p[|root|..] == dotExt;
    assert p[|root|] == '.';
    assert p[|root| - 1] == root[|root| - 1];
    assert forall k :: |root| < k < |p| ==> p[k] == ext[k - |root| - 1];
  }

  /** `os.path.join(a, b)` on POSIX. */
  function PathJoin(a: string, b: string): (r: string)
    ensures EndsWith(r, b)
  {
    if StartsWith(b, "/") then b
    else if a == [] || EndsWith(a, "/") then a + b
    else a + "/" + b
  }
}
