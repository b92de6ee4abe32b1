/**
  The file name of a path as the publishing script computes it: the last
  piece of `path.split('/')`. No normalisation is done: a path that ends in
  a separator has an empty file name, and a path without one is its own name.
 */
module Paths {
  import Text

  /**
    True when `name` is the longest suffix of `path` without a '/': it ends
    `path`, and it is either all of `path` or preceded by a '/'.
   */
  ghost predicate IsFileNameOf(name: string, path: string) {
    && '/' !in name
    && |name| <= |path|
    && path[|path| - |name|..] == name
    && (|name| == |path| || path[|path| - |name| - 1] == '/')
  }

  /** `path.split('/')[-1]`: defined for every string, the empty one included. */
  function Basename(path: string): (name: string)
    ensures IsFileNameOf(name, path)
  {
    Text.LastPiece(path, '/');
    var pieces := Text.Split(path, '/');
    pieces[|pieces| - 1]
  }

  /** At most one string is the file name of a path, so the suffix description pins the basename down. */
  lemma FileNameUnique(path: string, name: string)
    requires IsFileNameOf(name, path)
    ensures name == Basename(path)
  {
    var other := Basename(path);
    assert |name| == |other|;
  }

  /** A path without a '/' is its own basename. */
  lemma BasenameWithoutSlash(path: string)
    requires '/' !in path
    ensures Basename(path) == path
  {
    FileNameUnique(path, path);
  }

  /** A path that ends in '/' has the empty basename. */
  lemma BasenameTrailingSlash(path: string)
    requires |path| > 0 && path[|path| - 1] == '/'
    ensures Basename(path) == ""
  {
    assert |Basename(path)| == 0;
  }

  /** Taking the basename twice changes nothing. */
  lemma BasenameIdempotent(path: string)
    ensures Basename(Basename(path)) == Basename(path)
  {
    BasenameWithoutSlash(Basename(path));
  }

  /** Putting a directory in front of a '/'-free name leaves that name as the basename. */
  lemma BasenameUnderDirectory(dir: string, name: string)
    requires '/' !in name
    ensures Basename(dir + "/" + name) == name
  {
    var path := dir + "/" + name;
    assert path[|path| - |name|..] == name;
    assert path[|path| - |name| - 1] == '/';
    FileNameUnique(path, name);
  }
}
