/** The parts of Rust's `std::path` the core relies on, for the
    '/'-separated paths of a Unix host. A path is modelled as the string that
    `fs::read_dir` yields for a directory entry: `<dir>/<name>`. */
module Paths {
  import opened Outcomes

  const Separator := '/'

  predicate IsAbsolute(p: string) { |p| > 0 && p[0] == Separator }

  /** A directory path with no trailing separator, the form every joined path below starts from. */
  predicate IsPlainDir(p: string) { |p| > 0 && p[|p| - 1] != Separator }

  /** Index of the last occurrence of `c` in `s`, or -1 when there is none. */
  function LastIndexOf(s: string, c: char): (k: int)
    ensures -1 <= k < |s|
    ensures k >= 0 ==> s[k] == c
    ensures forall j :: k < j < |s| ==> s[j] != c
  {
    if s == [] then -1 else if s[|s| - 1] == c then |s| - 1 else LastIndexOf(s[..|s| - 1], c)
  }

  /** `Path::file_name`: everything after the last separator. */
  function FileName(path: string): (name: string)
    ensures Separator !in name
  {
    path[LastIndexOf(path, Separator) + 1..]
  }

  /** The file name is the last component of the path: a suffix of it,
      preceded by a separator unless it is the whole path. */
  lemma FileNameIsLastComponent(path: string)
    ensures |FileName(path)| <= |path|
    ensures FileName(path) == path[|path| - |FileName(path)|..]
    ensures |FileName(path)| < |path| ==> path[|path| - |FileName(path)| - 1] == Separator
  {
  }

  /** `Path::extension` of a file name: the text after the last '.', unless
      that '.' is the first character or there is none ("..", ".bashrc" and
      "README" have no extension; "a." has the empty one). */
  function Extension(name: string): Option<string>
  {
    var k := LastIndexOf(name, '.');
    if name == ".." || k <= 0 then None else Some(name[k + 1..])
  }

  /** `Path::file_stem` of a file name: the name without its extension. */
  function FileStem(name: string): string
  {
    var k := LastIndexOf(name, '.');
    if name == ".." || k <= 0 then name else name[..k]
  }

  /** Stem and extension split a file name at its last dot, losing nothing. */
  lemma StemExtensionSplit(name: string)
    ensures Extension(name).None? ==> FileStem(name) == name
    ensures Extension(name).Some? ==>
      && FileStem(name) + "." + Extension(name).value == name
      && FileStem(name) != ""
      && '.' !in Extension(name).value
  {
    var k := LastIndexOf(name, '.');
    if Extension(name).Some? {
      assert name == name[..k] + "." + name[k + 1..];
    }
  }

  /** A file name has an extension exactly when it holds a '.' after its
      first character and is not "..". */
  lemma ExtensionExists(name: string)
    ensures Extension(name).Some? <==> name != ".." && exists j :: 0 < j < |name| && name[j] == '.'
  {
    var k := LastIndexOf(name, '.');
    if exists j :: 0 < j < |name| && name[j] == '.' {
      var j :| 0 < j < |name| && name[j] == '.';
      assert k >= j;
    }
  }

  /** The file name of `<dir>/<name>` is `name` when `name` has no separator. */
  lemma FileNameOfEntry(dir: string, name: string)
    requires Separator !in name
    ensures FileName(dir + [Separator] + name) == name
  {
    var p := dir + [Separator] + name;
    var k := LastIndexOf(p, Separator);
    assert p[|dir|] == Separator;
    assert forall j :: |dir| < j < |p| ==> p[j] == name[j - |dir| - 1];
    assert p[|dir| + 1..] == name;
  }

  /** `PathBuf::join` on Unix: an absolute `rel` replaces `base`; otherwise a
      separator is put between them unless `base` is empty or already ends in one. */
  function Join(base: string, rel: string): (p: string)
    ensures IsAbsolute(rel) ==> p == rel
    ensures !IsAbsolute(rel) ==> |base| + |rel| <= |p| && p[..|base|] == base && p[|p| - |rel|..] == rel
    ensures !IsAbsolute(rel) && IsPlainDir(base) ==> p == base + [Separator] + rel
    ensures !IsAbsolute(rel) && !IsPlainDir(base) ==> p == base + rel
  {
    if IsAbsolute(rel) then rel
    else if base == [] || base[|base| - 1] == Separator then base + rel
    else base + [Separator] + rel
  }
}
