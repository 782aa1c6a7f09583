/**
 * pathe's `basename`: the last segment of a path, where `\` counts as `/`, with an
 * optional extension stripped when the segment ends with it.
 */
module Paths {
  import opened Text

  predicate IsSlash(c: char) {
    c == '/' || c == '\\'
  }

  predicate NoSlash(s: string) {
    forall k :: 0 <= k < |s| ==> !IsSlash(s[k])
  }

  /** What follows the last separator; the whole path when it has none. */
  function LastSegment(p: string): (r: string)
    ensures |r| <= |p| && r == p[|p| - |r|..]
    ensures NoSlash(r)
    ensures |r| < |p| ==> IsSlash(p[|p| - |r| - 1])
  {
    if p == [] then []
    else if IsSlash(p[|p| - 1]) then []
    else
      var q := LastSegment(p[..|p| - 1]);
      SuffixGrows(p, q);
      q + [p[|p| - 1]]
  }

  /** A suffix of all but the last character, extended by that character, is a suffix. */
  lemma SuffixGrows(p: string, q: string)
    requires p != [] && |q| < |p| && q == p[..|p| - 1][|p| - 1 - |q|..]
    ensures q + [p[|p| - 1]] == p[|p| - |q| - 1..]
    ensures |q| < |p| - 1 ==> p[|p| - |q| - 2] == p[..|p| - 1][|p| - 1 - |q| - 1]
  {
  }

  /** A path without separators is its own last segment. */
  lemma LastSegmentOfName(p: string)
    requires NoSlash(p)
    ensures LastSegment(p) == p
  {
  }

  /** Appending a separator and a plain name makes that name the last segment. */
  lemma LastSegmentAfterSlash(dir: string, name: string)
    requires NoSlash(name)
    ensures LastSegment(dir + "/" + name) == name
  {
    var p := dir + "/" + name;
    var r := LastSegment(p);
    assert p[|p| - |name|..] == name;
    assert p[|dir|] == '/';
  }

  /** `basename(p, ext)`. */
  function Basename(p: string, ext: string): (r: string)
    ensures NoSlash(r)
    ensures ext != "" && EndsWith(LastSegment(p), ext) ==> r + ext == LastSegment(p)
    ensures !(ext != "" && EndsWith(LastSegment(p), ext)) ==> r == LastSegment(p)
  {
    var seg := LastSegment(p);
    if ext != "" && EndsWith(seg, ext) then
      assert seg[..|seg| - |ext|] + ext == seg;
      seg[..|seg| - |ext|]
    else seg
  }
}

/** `scanComponents`: the globbed `.svg` files as `{ name, path }` records. */
module Scan {
  import opened Text
  import opened Paths

  datatype ComponentEntry = ComponentEntry(name: string, path: string)

  /** `files.map(path => ({ name: basename(path, '.svg'), path }))`; the glob result is the input. */
  function ScanComponents(files: seq<string>): (r: seq<ComponentEntry>)
    ensures |r| == |files|
    ensures forall i :: 0 <= i < |r| ==> r[i].path == files[i]
  {
    seq(|files|, i requires 0 <= i < |files| => ComponentEntry(Basename(files[i], ".svg"), files[i]))
  }

  /**
   * Each record is named after the file: the name has no separator, and with `.svg`
   * put back it is the path's last segment.
   */
  lemma ScanNamesFiles(files: seq<string>, i: nat)
    requires i < |files| && EndsWith(LastSegment(files[i]), ".svg")
    ensures NoSlash(ScanComponents(files)[i].name)
    ensures ScanComponents(files)[i].name + ".svg" == LastSegment(files[i])
  {
  }

  /** A file in a directory is named after its own file name, its extension dropped. */
  lemma ScanNameOfFile(dir: string, stem: string)
    requires NoSlash(stem)
    ensures ScanComponents([dir + "/" + stem + ".svg"])[0].name == stem
  {
    var name := stem + ".svg";
    assert NoSlash(name);
    assert dir + "/" + stem + ".svg" == dir + "/" + name;
    LastSegmentAfterSlash(dir, name);
    assert EndsWith(name, ".svg");
    assert name[..|name| - 4] == stem;
  }
}
