/**
 * Output path derivation: the narration is written next to the subtitle file,
 * under the same base name, with the `.mp3` extension. The path helpers follow
 * the POSIX behaviour of `os.path.dirname`, `basename`, `splitext` and `join`.
 */
module Paths {

  const Sep: char := '/'
  const ExtSep: char := '.'
  const OutputExtension: string := ".mp3"

  /** The index of the last occurrence of `c` in `s`, or -1 (`str.rfind`). */
  function LastIndexOf(s: string, c: char): (r: int)
    ensures -1 <= r < |s|
    ensures r >= 0 ==> s[r] == c
    ensures forall k :: r < k < |s| ==> s[k] != c
  {
    if s == [] then -1
    else if s[|s| - 1] == c then |s| - 1
    else LastIndexOf(s[..|s| - 1], c)
  }

  /** Every character of `s` is a separator. */
  predicate AllSeps(s: string) {
    forall i :: 0 <= i < |s| ==> s[i] == Sep
  }

  /** `s` without its trailing separators (`str.rstrip('/')`). */
  function TrimTrailingSeps(s: string): (r: string)
    ensures |r| <= |s| && r == s[..|r|]
    ensures r == [] || r[|r| - 1] != Sep
    ensures forall k :: |r| <= k < |s| ==> s[k] == Sep
  {
    if s == [] || s[|s| - 1] != Sep then s
    else TrimTrailingSeps(s[..|s| - 1])
  }

  /** The final component of a path: everything after the last separator. */
  function Basename(p: string): (b: string)
    ensures Sep !in b
    ensures |b| <= |p| && p == p[..|p| - |b|] + b
    ensures |b| == |p| || p[|p| - |b| - 1] == Sep
  {
    p[LastIndexOf(p, Sep) + 1..]
  }

  /** The directory part of a path: up to the last separator, with trailing separators
      removed unless it consists of separators only. */
  function Dirname(p: string): (d: string)
    ensures d == [] || AllSeps(d) || d[|d| - 1] != Sep
    ensures |d| + |Basename(p)| <= |p| && p[..|d|] == d
    ensures AllSeps(p[|d|..|p| - |Basename(p)|])
    ensures d == [] <==> Sep !in p
  {
    var i := LastIndexOf(p, Sep);
    var head := p[..i + 1];
    if head != [] && !AllSeps(head) then
      TrimmedHead(p, i);
      TrimTrailingSeps(head)
    else
      head
  }

  /** Trimming the separators off a head that holds something else leaves a non-empty
      prefix of the path followed, up to the head's end, by separators only. */
  lemma TrimmedHead(p: string, i: int)
    requires -1 <= i < |p| && !AllSeps(p[..i + 1])
    ensures var d := TrimTrailingSeps(p[..i + 1]);
      d != [] && |d| <= i + 1 && p[..|d|] == d && AllSeps(p[|d|..i + 1])
  {
    var head := p[..i + 1];
    var d := TrimTrailingSeps(head);
    assert p[|d|..i + 1] == head[|d|..];
    assert p[..|d|] == head[..|d|];
  }

  /** A directory part made of separators only is every separator before the final
      component, as `os.path.dirname("//a")` is `"//"`. */
  lemma DirnameKeepsSeparatorHead(p: string)
    ensures AllSeps(Dirname(p)) ==> |Dirname(p)| + |Basename(p)| == |p|
  {
    var i := LastIndexOf(p, Sep);
    var head := p[..i + 1];
    if head != [] && !AllSeps(head) {
      TrimmedHead(p, i);
      var d := TrimTrailingSeps(head);
      assert d[|d| - 1] != Sep;
    }
  }

  /** Joins a directory and a name; a name starting with a separator replaces the directory. */
  function Join(dir: string, name: string): (r: string)
    ensures |name| > 0 && name[0] == Sep ==> r == name
    ensures !(|name| > 0 && name[0] == Sep) ==> |r| >= |name| && r[|r| - |name|..] == name
  {
    if |name| > 0 && name[0] == Sep then name
    else if dir == [] || dir[|dir| - 1] == Sep then dir + name
    else dir + [Sep] + name
  }

  /** The path without its extension (`os.path.splitext(p)[0]`): cut at the last dot of
      the final component when a character other than a dot comes before it there. */
  function SplitExtRoot(p: string): (root: string)
    ensures |root| <= |p| && root == p[..|root|]
    ensures root != p ==>
      p[|root|] == ExtSep && forall k :: |root| < k < |p| ==> p[k] != ExtSep && p[k] != Sep
    ensures root == p <==> !HasExtension(p)
  {
    var sepIndex := LastIndexOf(p, Sep);
    var dotIndex := LastIndexOf(p, ExtSep);
    if dotIndex > sepIndex && exists k :: sepIndex < k < dotIndex && p[k] != ExtSep then p[..dotIndex]
    else p
  }

  /** The narration's path for a directory and a base name without extension:
      `<root>.mp3` joined to the directory. */
  function PathInDir(dir: string, root: string): (out: string)
    ensures EndsWithExtension(out)
  {
    JoinEndsLikeName(dir, root + OutputExtension, |OutputExtension|);
    Join(dir, root + OutputExtension)
  }

  /** The path ends in `.mp3`. */
  predicate EndsWithExtension(path: string) {
    |path| >= |OutputExtension| && path[|path| - |OutputExtension|..] == OutputExtension
  }

  /** Where the narration of `srtPath` is written: its directory, its base name
      without extension, and `.mp3`. */
  function OutputPath(srtPath: string): (out: string)
    ensures EndsWithExtension(out)
  {
    PathInDir(Dirname(srtPath), SplitExtRoot(Basename(srtPath)))
  }

  /** A joined path ends like the name joined to it. */
  lemma JoinEndsLikeName(dir: string, name: string, n: nat)
    requires n <= |name|
    ensures |Join(dir, name)| >= n
    ensures Join(dir, name)[|Join(dir, name)| - n..] == name[|name| - n..]
  {
    SuffixOfSuffix(Join(dir, name), name, n);
  }

  /** The last `n` characters of a string's suffix are its own last `n` characters. */
  lemma SuffixOfSuffix(s: string, t: string, n: nat)
    requires n <= |t| <= |s| && s[|s| - |t|..] == t
    ensures s[|s| - n..] == t[|t| - n..]
  {
    assert forall j :: |s| - n <= j < |s| ==> s[j] == t[j - (|s| - |t|)];
  }

  /** Some dot of the final component has a character other than a dot before it there. */
  predicate HasExtension(p: string) {
    exists k, i :: 0 <= k < i < |p| && p[k] != ExtSep && p[i] == ExtSep &&
      forall m :: k <= m < |p| ==> p[m] != Sep
  }

  /** Some character of `s` is not a dot. */
  predicate HasNonDot(s: string) {
    exists k :: 0 <= k < |s| && s[k] != ExtSep
  }

  /** Appending text without `c` keeps the last occurrence of `c`. */
  lemma LastIndexOfAppend(a: string, b: string, c: char)
    requires c !in b
    ensures LastIndexOf(a + b, c) == LastIndexOf(a, c)
  {
    assert forall k :: 0 <= k < |a| ==> (a + b)[k] == a[k];
  }

  /** Stripping the separator from a directory that does not end with one gives it back. */
  lemma TrimAppendedSep(d: string)
    requires d != [] && d[|d| - 1] != Sep
    ensures TrimTrailingSeps(d + [Sep]) == d
  {
  }

  /** A name without separators joined to a directory is the joined path's final
      component, and the directory is its directory part. */
  lemma JoinSplits(dir: string, name: string)
    requires name != [] && Sep !in name
    requires dir == [] || AllSeps(dir) || dir[|dir| - 1] != Sep
    ensures Basename(Join(dir, name)) == name
    ensures Dirname(Join(dir, name)) == dir
  {
    if dir == [] {
      assert Join(dir, name) == name;
      assert LastIndexOf(name, Sep) == -1;
    } else if dir[|dir| - 1] == Sep {
      JoinAfterSeps(dir, name);
    } else {
      JoinAfterPlainDir(dir, name);
    }
  }

  /** `JoinSplits` for a directory made of separators only. */
  lemma JoinAfterSeps(dir: string, name: string)
    requires name != [] && Sep !in name
    requires dir != [] && AllSeps(dir)
    ensures Basename(Join(dir, name)) == name
    ensures Dirname(Join(dir, name)) == dir
  {
    var j := dir + name;
    assert Join(dir, name) == j;
    LastIndexOfAppend(dir, name, Sep);
    assert LastIndexOf(dir, Sep) == |dir| - 1;
    assert j[..|dir|] == dir;
    assert j[|dir|..] == name;
  }

  /** `JoinSplits` for a non-empty directory that does not end in a separator. */
  lemma JoinAfterPlainDir(dir: string, name: string)
    requires name != [] && Sep !in name
    requires dir != [] && dir[|dir| - 1] != Sep
    ensures Basename(Join(dir, name)) == name
    ensures Dirname(Join(dir, name)) == dir
  {
    var withSep := dir + [Sep];
    var j := withSep + name;
    assert Join(dir, name) == j;
    LastIndexOfAppend(withSep, name, Sep);
    assert LastIndexOf(withSep, Sep) == |dir|;
    assert j[..|dir| + 1] == withSep;
    assert j[|dir| + 1..] == name;
    assert withSep[|dir| - 1] != Sep;
    TrimAppendedSep(dir);
  }

  /** The narration goes into the subtitle file's own directory, under the subtitle
      file's base name followed by `.mp3`. */
  lemma OutputPathLocation(srtPath: string)
    ensures Dirname(OutputPath(srtPath)) == Dirname(srtPath)
    ensures Basename(OutputPath(srtPath)) == SplitExtRoot(Basename(srtPath)) + OutputExtension
  {
    RootHasNoSep(Basename(srtPath));
    PathInDirSplits(Dirname(srtPath), SplitExtRoot(Basename(srtPath)));
  }

  /** The path built from a directory and a separator-free root splits back into
      that directory and `<root>.mp3`. */
  lemma PathInDirSplits(dir: string, root: string)
    requires Sep !in root
    requires dir == [] || AllSeps(dir) || dir[|dir| - 1] != Sep
    ensures Dirname(PathInDir(dir, root)) == dir
    ensures Basename(PathInDir(dir, root)) == root + OutputExtension
  {
    assert Sep !in OutputExtension;
    JoinSplits(dir, root + OutputExtension);
  }

  /** Adding `.mp3` to a name with no separator and not made of dots only, then
      taking the extension off again, gives the name back. */
  lemma ExtensionRoundTrip(root: string)
    requires Sep !in root && HasNonDot(root)
    ensures SplitExtRoot(root + OutputExtension) == root
  {
    var name := root + OutputExtension;
    LastIndexOfAppend(root, OutputExtension, Sep);
    assert LastIndexOf(OutputExtension, Sep) == -1;
    assert LastIndexOf(name, ExtSep) == |root| by {
      assert name[|root|] == ExtSep;
      assert forall k :: |root| < k < |name| ==> name[k] == OutputExtension[k - |root|];
    }
    var k :| 0 <= k < |root| && root[k] != ExtSep;
    assert name[k] == root[k];
    assert name[..|root|] == root;
  }

  /** Taking the extension off the output's file name gives back the subtitle file's
      base name, whenever that base name is not made of dots only. */
  lemma OutputKeepsBaseName(srtPath: string)
    requires HasNonDot(SplitExtRoot(Basename(srtPath)))
    ensures SplitExtRoot(Basename(OutputPath(srtPath))) == SplitExtRoot(Basename(srtPath))
  {
    var root := SplitExtRoot(Basename(srtPath));
    RootHasNoSep(Basename(srtPath));
    OutputPathLocation(srtPath);
    ExtensionRoundTrip(root);
  }

  /** The extension-free part of a name without separators has none either. */
  lemma RootHasNoSep(base: string)
    requires Sep !in base
    ensures Sep !in SplitExtRoot(base)
  {
  }
}
