/**
 * The parts of Rust's `std::path::Path` that the request handler relies on,
 * on Unix paths held as strings: `file_name`, `file_stem` and `extension`.
 */
module Paths {
  import opened Wrappers

  /** Position of the last `c` in `s`, or -1 when `s` has none. */
  function LastIndexOf(s: string, c: char): (i: int)
    ensures -1 <= i < |s|
    ensures i >= 0 ==> s[i] == c
    ensures forall j :: i < j < |s| ==> s[j] != c
  {
    if |s| == 0 then -1
    else if s[|s| - 1] == c then |s| - 1
    else LastIndexOf(s[..|s| - 1], c)
  }

  /**
   * `Path::file_name`: the last component, where empty components (repeated or
   * trailing '/') and "." components are skipped; a final ".." or no component
   * at all gives None.
   */
  function FileName(path: string): (r: Option<string>)
    ensures r.Some? ==> '/' !in r.value
    ensures r.Some? ==> r.value != "" && r.value != "." && r.value != ".."
    decreases |path|
  {
    AfterLastIndexOf(path, '/');
    var i := LastIndexOf(path, '/');
    var last := path[i + 1..];
    if last == "" || last == "." then
      if i < 0 then None else FileName(path[..i])
    else if last == ".." then None
    else Some(last)
  }

  /**
   * `rsplit_file_at_dot`: splits a file name at its final '.' into the part
   * before and the part after. A name without a '.', or whose only '.' is the
   * first character, yields no "before" part; ".." is kept whole.
   */
  function SplitFileAtDot(name: string): (Option<string>, Option<string>)
  {
    if name == ".." then (Some(name), None)
    else
      var i := LastIndexOf(name, '.');
      if i < 0 then (None, Some(name))
      else if i == 0 then (Some(name), None)
      else (Some(name[..i]), Some(name[i + 1..]))
  }

  /** `Path::file_stem`: the "before" part, or the whole name when there is none. */
  function FileStem(path: string): (r: Option<string>)
    ensures r.Some? <==> FileName(path).Some?
    ensures r.Some? ==> r.value != "" && '/' !in r.value
  {
    match FileName(path)
    case None => None
    case Some(name) =>
      var (before, after) := SplitFileAtDot(name);
      if before.Some? then before else after
  }

  /** `Path::extension`: the "after" part, but only when there is a "before" part. */
  function Extension(path: string): (r: Option<string>)
    ensures r.Some? ==> FileName(path).Some? && '.' !in r.value && '/' !in r.value
  {
    match FileName(path)
    case None => None
    case Some(name) =>
      var (before, after) := SplitFileAtDot(name);
      if before.Some? then after else None
  }

  /** A path has a stem exactly when it has a file name. */
  lemma StemIffFileName(path: string)
    ensures FileStem(path).Some? <==> FileName(path).Some?
    ensures FileName(path).None? ==> Extension(path).None?
  {
  }

  /** The last occurrence is unique: a `c` with no `c` after it is the one found. */
  lemma LastIndexOfIs(s: string, c: char, k: int)
    requires 0 <= k < |s| && s[k] == c
    requires forall j :: k < j < |s| ==> s[j] != c
    ensures LastIndexOf(s, c) == k
  {
  }

  lemma LastIndexOfAbsent(s: string, c: char)
    requires c !in s
    ensures LastIndexOf(s, c) == -1
  {
  }

  /** Everything after the last `c` is free of `c`. */
  lemma AfterLastIndexOf(s: string, c: char)
    ensures c !in s[LastIndexOf(s, c) + 1..]
  {
    var i := LastIndexOf(s, c);
    var t := s[i + 1..];
    forall k | 0 <= k < |t| ensures t[k] != c {
      assert t[k] == s[i + 1 + k];
    }
  }

  /** A single ordinary segment is its own file name, also after a directory prefix. */
  lemma SegmentIsFileName(dir: string, name: string)
    requires '/' !in name && name != "" && name != "." && name != ".."
    ensures FileName(name) == Some(name)
    ensures FileName(dir + "/" + name) == Some(name)
  {
    LastIndexOfAbsent(name, '/');
    assert name[0..] == name;
    var p := dir + "/" + name;
    forall j | |dir| < j < |p| ensures p[j] != '/' {
      assert p[j] == name[j - |dir| - 1];
    }
    LastIndexOfIs(p, '/', |dir|);
    assert p[|dir| + 1..] == name;
  }

  /** "stem.ext" splits back into stem and ext (the split is at the final '.'). */
  lemma {:induction false} StemAndExtension(stem: string, ext: string)
    requires stem != "" && '/' !in stem && '/' !in ext && '.' !in ext
    requires !(stem == "." && ext == "")
    ensures FileStem(stem + "." + ext) == Some(stem)
    ensures Extension(stem + "." + ext) == Some(ext)
  {
    var name := stem + "." + ext;
    assert '/' !in name by {
      forall k | 0 <= k < |name| ensures name[k] != '/' {
        if k < |stem| { assert name[k] == stem[k]; }
        else if k > |stem| { assert name[k] == ext[k - |stem| - 1]; }
      }
    }
    assert name[|stem|] == '.';
    assert name[0] == stem[0];
    assert |name| == 2 ==> stem == [name[0]] && ext == "";
    assert name != "..";
    forall j | |stem| < j < |name| ensures name[j] != '.' {
      assert name[j] == ext[j - |stem| - 1];
    }
    LastIndexOfIs(name, '.', |stem|);
    assert name[..|stem|] == stem && name[|stem| + 1..] == ext;
    assert name != "" && name != ".";
    SegmentIsFileName("", name);
  }

  /** A segment without any '.' has itself as stem and no extension. */
  lemma NoExtension(name: string)
    requires name != "" && '/' !in name && '.' !in name
    ensures FileStem(name) == Some(name)
    ensures Extension(name).None?
  {
    assert name != "." && name != ".." by { assert name[0] in name; }
    SegmentIsFileName("", name);
    LastIndexOfAbsent(name, '.');
  }
}
