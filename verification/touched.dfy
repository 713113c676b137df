/**
  The names of the files a change touches: the basename of every modified
  path, then the basename of every added path, in the order git lists them.
 */
module Touched {

  /** The part of `path` after its last `/`. */
  function Basename(path: string): (r: string)
    ensures |r| <= |path|
    ensures forall k :: 0 <= k < |r| ==> r[k] == path[|path| - |r| + k] && r[k] != '/'
    decreases |path|
  {
    if |path| == 0 || path[|path| - 1] == '/' then ""
    else
      var rest := Basename(path[..|path| - 1]);
      rest + [path[|path| - 1]]
  }

  /** The basename is the longest suffix of the path with no `/` in it. */
  lemma {:induction false} BasenameIsLastSegment(path: string)
    ensures var r := Basename(path);
      |r| == |path| || path[|path| - |r| - 1] == '/'
    decreases |path|
  {
    if |path| > 0 && path[|path| - 1] != '/' {
      BasenameIsLastSegment(path[..|path| - 1]);
    }
  }

  /** The basename never reaches back over a `/`. */
  lemma {:induction false} BasenameAfterSlash(path: string, j: int)
    requires 0 <= j < |path| && path[j] == '/'
    ensures |Basename(path)| < |path| - j
    decreases |path|
  {
    if path[|path| - 1] != '/' {
      BasenameAfterSlash(path[..|path| - 1], j);
    }
  }

  /** The basename takes in every trailing character that is not `/`. */
  lemma {:induction false} BasenameCoversSlashFreeSuffix(path: string, n: nat)
    requires n <= |path|
    requires forall k :: |path| - n <= k < |path| ==> path[k] != '/'
    ensures |Basename(path)| >= n
    decreases n
  {
    if n > 0 {
      BasenameCoversSlashFreeSuffix(path[..|path| - 1], n - 1);
    }
  }

  /** The basename of `dir/name` is `name`, whatever the directory. */
  lemma BasenameOfJoin(dir: string, name: string)
    requires '/' !in name
    ensures Basename(dir + "/" + name) == name
  {
    var p := dir + "/" + name;
    assert p[|dir|] == '/';
    BasenameAfterSlash(p, |dir|);
    forall k | |p| - |name| <= k < |p| ensures p[k] != '/' {
      assert p[k] == name[k - |dir| - 1];
    }
    BasenameCoversSlashFreeSuffix(p, |name|);
    var r := Basename(p);
    forall k | 0 <= k < |name| ensures r[k] == name[k] {
      assert r[k] == p[|dir| + 1 + k];
    }
  }

  /** A name with no directory part is its own basename. */
  lemma BasenameOfPlainName(name: string)
    requires '/' !in name
    ensures Basename(name) == name
  {
    BasenameIsLastSegment(name);
  }

  /** The basename of each path, in order. */
  function Basenames(paths: seq<string>): (r: seq<string>)
    ensures |r| == |paths|
    ensures forall i :: 0 <= i < |paths| ==> r[i] == Basename(paths[i])
    decreases |paths|
  {
    if |paths| == 0 then []
    else [Basename(paths[0])] + Basenames(paths[1..])
  }

  /**
    The touched file names: basenames of the modified files followed by
    basenames of the added files, duplicates kept.
   */
  function TouchedFileNames(modified: seq<string>, added: seq<string>): (r: seq<string>)
    ensures |r| == |modified| + |added|
    ensures forall i :: 0 <= i < |modified| ==> r[i] == Basename(modified[i])
    ensures forall j :: 0 <= j < |added| ==> r[|modified| + j] == Basename(added[j])
  {
    var m := Basenames(modified);
    var a := Basenames(added);
    assert forall j :: 0 <= j < |added| ==> (m + a)[|m| + j] == a[j];
    m + a
  }
}
