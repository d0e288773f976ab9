/** The photo materialization loop of `gpx_to_html`: the i-th matched photo
    (0-based) is copied to `<dir>/<i+1>.<ext>` and thumbnailed to
    `<dir>/thumbnails/<i+1>.<ext>`; a failed copy skips the photo but still
    uses up its number. */
module Materialize {
  import opened Outcomes
  import opened Decimal
  import opened Paths
  import opened Catalog

  /** `p.path.extension()`. */
  function Ext(p: Photo): Option<string> { Extension(FileName(p.path)) }

  predicate AllHaveExtensions(photos: seq<Photo>)
  {
    forall k :: 0 <= k < |photos| ==> Ext(photos[k]).Some?
  }

  /** Whether every photo has an extension does not depend on their order. */
  lemma ExtensionsOfPermutation(a: seq<Photo>, b: seq<Photo>)
    requires multiset(a) == multiset(b)
    ensures AllHaveExtensions(a) <==> AllHaveExtensions(b)
  {
    forall k | 0 <= k < |b| && AllHaveExtensions(a) ensures Ext(b[k]).Some? {
      assert b[k] in multiset(a);
      var i :| 0 <= i < |a| && a[i] == b[k];
    }
    forall k | 0 <= k < |a| && AllHaveExtensions(b) ensures Ext(a[k]).Some? {
      assert a[k] in multiset(b);
      var i :| 0 <= i < |b| && b[i] == a[k];
    }
  }

  /** The extension of every photo, in order. */
  function Extensions(photos: seq<Photo>): (exts: seq<string>)
    requires AllHaveExtensions(photos)
  {
    seq(|photos|, k requires 0 <= k < |photos| => Ext(photos[k]).value)
  }

  /** `format!("{}.{}", n, ext)`. */
  function TargetName(n: nat, ext: string): string
  {
    NatToDecimal(n) + "." + ext
  }

  /** The digits in front of the first '.' of a file name. */
  function NumberPart(name: string): string
  {
    if name == [] || name[0] == '.' then [] else [name[0]] + NumberPart(name[1..])
  }

  /** The text after the first '.' of a file name. */
  function ExtensionPart(name: string): string
  {
    if name == [] then [] else if name[0] == '.' then name[1..] else ExtensionPart(name[1..])
  }

  /** The number of a target name, as a natural. */
  function Number(name: string): nat
  {
    var digits := NumberPart(name);
    if AllDigits(digits) then DecimalToNat(digits) else 0
  }

  lemma {:induction false} SplitTargetName(digits: string, ext: string)
    requires AllDigits(digits)
    ensures NumberPart(digits + "." + ext) == digits
    ensures ExtensionPart(digits + "." + ext) == ext
  {
    if digits != [] {
      assert (digits + "." + ext)[1..] == digits[1..] + "." + ext;
      SplitTargetName(digits[1..], ext);
    }
  }

  /** A target name gives back the number and the extension it was built from. */
  lemma TargetNameRoundTrip(n: nat, ext: string)
    ensures Number(TargetName(n, ext)) == n
    ensures ExtensionPart(TargetName(n, ext)) == ext
  {
    SplitTargetName(NatToDecimal(n), ext);
    DecimalRoundTrip(n);
  }

  /** Target names are relative (they begin with a digit), so joining them
      to a directory never leaves it. */
  lemma TargetNameIsRelative(n: nat, ext: string)
    ensures !IsAbsolute(TargetName(n, ext))
  {
    assert TargetName(n, ext)[0] == NatToDecimal(n)[0];
  }

  /** Indices of the photos whose copy succeeded, in loop order. */
  function Successes(ok: seq<bool>): (s: seq<nat>)
    ensures forall j :: 0 <= j < |s| ==> s[j] < |ok| && ok[s[j]]
    ensures forall j, k :: 0 <= j < k < |s| ==> s[j] < s[k]
  {
    if ok == [] then []
    else
      var n := |ok| - 1;
      Successes(ok[..n]) + (if ok[n] then [n] else [])
  }

  /** Every successful copy is listed. */
  lemma {:induction false} SuccessesComplete(ok: seq<bool>)
    ensures forall i :: 0 <= i < |ok| && ok[i] ==> i in Successes(ok)
  {
    if ok != [] {
      var n := |ok| - 1;
      var prev := ok[..n];
      var s, ps := Successes(ok), Successes(prev);
      var tail: seq<nat> := if ok[n] then [n] else [];
      assert s == ps + tail;
      SuccessesComplete(prev);
      forall i | 0 <= i < |ok| && ok[i] ensures i in s {
        if i < n {
          assert prev[i] == ok[i];
          assert i in ps;
        } else {
          assert tail == [n];
        }
      }
    }
  }

  /** There are as many successes as `true` outcomes. */
  lemma {:induction false} SuccessesCount(ok: seq<bool>)
    ensures |Successes(ok)| == multiset(ok)[true] <= |ok|
  {
    if ok != [] {
      var n := |ok| - 1;
      var prev := ok[..n];
      SuccessesCount(prev);
      assert ok == prev + [ok[n]];
      assert multiset(ok) == multiset(prev) + multiset{ok[n]};
      assert multiset(ok)[true] == multiset(prev)[true] + (if ok[n] then 1 else 0);
    }
  }

  /** The name each photo is copied to, `<i+1>.<ext>`, numbered by position. */
  function Numbered(exts: seq<string>): (names: seq<string>)
  {
    seq(|exts|, i requires 0 <= i < |exts| => TargetName(i + 1, exts[i]))
  }

  /** Reading a numbered name back gives its position plus one and its
      photo's extension, so no two photos share a target name. */
  lemma NumberedNames(exts: seq<string>)
    ensures |Numbered(exts)| == |exts|
    ensures forall i :: 0 <= i < |exts| ==>
      Number(Numbered(exts)[i]) == i + 1 && ExtensionPart(Numbered(exts)[i]) == exts[i]
    ensures forall i, j :: 0 <= i < j < |exts| ==> Numbered(exts)[i] != Numbered(exts)[j]
  {
    var names := Numbered(exts);
    forall i | 0 <= i < |exts|
      ensures Number(names[i]) == i + 1 && ExtensionPart(names[i]) == exts[i]
    {
      TargetNameRoundTrip(i + 1, exts[i]);
    }
  }

  /** The elements of `xs` whose outcome in `ok` is true, in order. */
  function Select<T>(xs: seq<T>, ok: seq<bool>): seq<T>
    requires |xs| == |ok|
  {
    if ok == [] then []
    else
      var n := |ok| - 1;
      Select(xs[..n], ok[..n]) + (if ok[n] then [xs[n]] else [])
  }

  /** The `copied_photos` list for photos with extensions `exts`: the target
      names of the photos whose copy succeeded. */
  function CopiedNames(exts: seq<string>, ok: seq<bool>): seq<string>
    requires |exts| == |ok|
  {
    Select(Numbered(exts), ok)
  }

  /** Full paths below `dir` of the given file names. */
  function InDir(dir: string, names: seq<string>): (paths: seq<string>)
  {
    seq(|names|, j requires 0 <= j < |names| => Join(dir, names[j]))
  }

  /** Below a plain directory, the path of a relative name is `<dir>/<name>`. */
  lemma InDirLayout(dir: string, names: seq<string>, j: nat)
    requires IsPlainDir(dir) && j < |names| && !IsAbsolute(names[j])
    ensures |InDir(dir, names)| == |names|
    ensures InDir(dir, names)[j] == dir + [Separator] + names[j]
  {
  }

  /** What the loop produces: the `copied_photos` names, the files `fs::copy`
      wrote and the thumbnails saved. */
  datatype Copies = Copies(copied: seq<string>, targets: seq<string>, thumbnails: seq<string>)

  /** The loop of src/lib.rs:110-136, with `fs::copy`'s outcome for each photo
      given by `copyOk`; decoding and saving thumbnails are taken to succeed. */
  method CopyPhotos(photos: seq<Photo>, copyOk: seq<bool>, photoDir: string) returns (r: Result<Copies>)
    requires |copyOk| == |photos|
    ensures r.Ok? <==> AllHaveExtensions(photos)
    ensures r.Ok? ==> r.value.copied == CopiedNames(Extensions(photos), copyOk)
    ensures r.Ok? ==> r.value.targets == InDir(photoDir, r.value.copied)
    ensures r.Ok? ==> r.value.thumbnails == InDir(Join(photoDir, "thumbnails"), r.value.copied)
    ensures r.Abort? ==> exists k :: 0 <= k < |photos| && r.panic == NoExtension(photos[k].path)
                                     && Ext(photos[k]).None? && AllHaveExtensions(photos[..k])
  {
    var copied: seq<string> := [];
    var targets: seq<string> := [];
    var thumbnails: seq<string> := [];
    ghost var exts: seq<string> := [];
    var thumbDir := Join(photoDir, "thumbnails");
    for i := 0 to |photos|
      invariant |exts| == i
      invariant forall k :: 0 <= k < i ==> Ext(photos[k]) == Some(exts[k])
      invariant copied == CopiedNames(exts, copyOk[..i])
      invariant targets == InDir(photoDir, copied)
      invariant thumbnails == InDir(thumbDir, copied)
    {
      var ext := Ext(photos[i]);
      if ext.None? {
        FirstWithoutExtension(photos, exts, i);
        return Abort(NoExtension(photos[i].path));
      }
      var name := TargetName(i + 1, ext.value);
      CopyStep(exts, copyOk, ext.value, i, copied);
      exts := exts + [ext.value];
      if !copyOk[i] {
        continue;
      }
      InDirAppend(photoDir, copied, name);
      InDirAppend(thumbDir, copied, name);
      targets := targets + [Join(photoDir, name)];
      thumbnails := thumbnails + [Join(thumbDir, name)];
      copied := copied + [name];
    }
    assert copyOk[..|copyOk|] == copyOk;
    AllExtensionsGathered(photos, exts);
    return Ok(Copies(copied, targets, thumbnails));
  }

  /** The loop stops at the first photo without an extension. */
  lemma FirstWithoutExtension(photos: seq<Photo>, exts: seq<string>, i: nat)
    requires |exts| == i < |photos|
    requires forall k :: 0 <= k < i ==> Ext(photos[k]) == Some(exts[k])
    requires Ext(photos[i]).None?
    ensures !AllHaveExtensions(photos) && AllHaveExtensions(photos[..i])
  {
    assert forall k :: 0 <= k < i ==> photos[..i][k] == photos[k];
  }

  /** Extensions gathered for every photo are theirs. */
  lemma AllExtensionsGathered(photos: seq<Photo>, exts: seq<string>)
    requires |exts| == |photos|
    requires forall k :: 0 <= k < |photos| ==> Ext(photos[k]) == Some(exts[k])
    ensures AllHaveExtensions(photos) && exts == Extensions(photos)
  {
  }

  /** One turn of the copy loop extends both lists by the photo's name when
      its copy succeeds. */
  lemma CopyStep(exts: seq<string>, ok: seq<bool>, ext: string, i: nat, copied: seq<string>)
    requires |exts| == i < |ok|
    requires copied == CopiedNames(exts, ok[..i])
    ensures CopiedNames(exts + [ext], ok[..i + 1]) ==
      copied + (if ok[i] then [TargetName(i + 1, ext)] else [])
  {
    var names, names' := Numbered(exts), Numbered(exts + [ext]);
    assert names' == names + [TargetName(i + 1, ext)];
    assert names'[..i] == names && ok[..i + 1][..i] == ok[..i];
  }

  lemma InDirAppend(dir: string, names: seq<string>, name: string)
    ensures InDir(dir, names + [name]) == InDir(dir, names) + [Join(dir, name)]
  {
  }

  lemma {:induction false} SelectLength<T>(xs: seq<T>, ok: seq<bool>)
    requires |xs| == |ok|
    ensures |Select(xs, ok)| == |Successes(ok)|
  {
    if ok != [] {
      var n := |ok| - 1;
      SelectLength(xs[..n], ok[..n]);
    }
  }

  /** The j-th selected element is the one at the j-th successful index. */
  lemma {:induction false} SelectAt<T>(xs: seq<T>, ok: seq<bool>, j: nat)
    requires |xs| == |ok| && j < |Successes(ok)|
    ensures |Select(xs, ok)| == |Successes(ok)|
    ensures Select(xs, ok)[j] == xs[Successes(ok)[j]]
  {
    var n := |ok| - 1;
    var front, oks := xs[..n], ok[..n];
    var prev := Select(front, oks);
    var last := if ok[n] then [xs[n]] else [];
    assert Select(xs, ok) == prev + last;
    SelectLength(front, oks);
    SelectLength(xs, ok);
    var succ, prevSucc := Successes(ok), Successes(oks);
    assert succ == prevSucc + (if ok[n] then [n] else []);
    if j < |prevSucc| {
      SelectAt(front, oks, j);
      assert succ[j] == prevSucc[j];
    } else {
      assert succ[j] == n;
    }
  }

  lemma CopiedLength(exts: seq<string>, ok: seq<bool>)
    requires |exts| == |ok|
    ensures |CopiedNames(exts, ok)| == |Successes(ok)|
  {
    SelectLength(Numbered(exts), ok);
  }

  /** The j-th copied name is numbered after the j-th successful photo and
      carries that photo's extension. */
  lemma CopiedNameAt(exts: seq<string>, ok: seq<bool>, j: nat)
    requires |exts| == |ok| && j < |Successes(ok)|
    ensures |CopiedNames(exts, ok)| == |Successes(ok)|
    ensures CopiedNames(exts, ok)[j] == TargetName(Successes(ok)[j] + 1, exts[Successes(ok)[j]])
  {
    SelectAt(Numbered(exts), ok, j);
  }

  /** The number and extension of the j-th copied name. */
  lemma CopiedPartsAt(exts: seq<string>, ok: seq<bool>, j: nat)
    requires |exts| == |ok| && j < |Successes(ok)|
    ensures |CopiedNames(exts, ok)| == |Successes(ok)|
    ensures Number(CopiedNames(exts, ok)[j]) == Successes(ok)[j] + 1
    ensures ExtensionPart(CopiedNames(exts, ok)[j]) == exts[Successes(ok)[j]]
  {
    var i := Successes(ok)[j];
    CopiedNameAt(exts, ok, j);
    TargetNameRoundTrip(i + 1, exts[i]);
  }

  /** Numbering of `copied_photos`: as many names as successful copies; each
      name's number is one more than the index of a photo whose copy
      succeeded, so numbers lie in 1..N and strictly increase; each name keeps
      that photo's extension. */
  lemma CopiedNumbering(exts: seq<string>, ok: seq<bool>)
    requires |exts| == |ok|
    ensures |CopiedNames(exts, ok)| == multiset(ok)[true] <= |ok|
    ensures forall j :: 0 <= j < |CopiedNames(exts, ok)| ==>
      var m := Number(CopiedNames(exts, ok)[j]);
      1 <= m <= |ok| && ok[m - 1] && ExtensionPart(CopiedNames(exts, ok)[j]) == exts[m - 1]
    ensures forall j, k :: 0 <= j < k < |CopiedNames(exts, ok)| ==>
      Number(CopiedNames(exts, ok)[j]) < Number(CopiedNames(exts, ok)[k])
  {
    var names, succ := CopiedNames(exts, ok), Successes(ok);
    CopiedLength(exts, ok);
    SuccessesCount(ok);
    forall j | 0 <= j < |names|
      ensures var m := Number(names[j]);
              1 <= m <= |ok| && ok[m - 1] && ExtensionPart(names[j]) == exts[m - 1]
    {
      CopiedPartsAt(exts, ok, j);
      assert succ[j] < |ok| && ok[succ[j]];
      assert Number(names[j]) - 1 == succ[j];
    }
    forall j, k | 0 <= j < k < |names|
      ensures Number(names[j]) < Number(names[k])
    {
      CopiedPartsAt(exts, ok, j);
      CopiedPartsAt(exts, ok, k);
      assert succ[j] < succ[k];
    }
  }

  /** A failed copy leaves a gap: its number appears in no name, while every
      successful copy's name is present. */
  lemma CopyGaps(exts: seq<string>, ok: seq<bool>, i: nat)
    requires |exts| == |ok| && i < |ok|
    ensures !ok[i] ==> forall j :: 0 <= j < |CopiedNames(exts, ok)| ==> Number(CopiedNames(exts, ok)[j]) != i + 1
    ensures ok[i] ==> TargetName(i + 1, exts[i]) in CopiedNames(exts, ok)
  {
    var names := CopiedNames(exts, ok);
    CopiedLength(exts, ok);
    if ok[i] {
      SuccessesComplete(ok);
      var j :| 0 <= j < |Successes(ok)| && Successes(ok)[j] == i;
      CopiedNameAt(exts, ok, j);
      assert names[j] == TargetName(i + 1, exts[i]);
    } else {
      forall j | 0 <= j < |names| ensures Number(names[j]) != i + 1 {
        CopiedPartsAt(exts, ok, j);
      }
    }
  }

  /** Thumbnails sit in `<dir>/thumbnails/` under the same names as the copies. */
  lemma ThumbnailLayout(photoDir: string, names: seq<string>, j: nat)
    requires IsPlainDir(photoDir) && j < |names| && !IsAbsolute(names[j])
    ensures |InDir(Join(photoDir, "thumbnails"), names)| == |names|
    ensures InDir(Join(photoDir, "thumbnails"), names)[j] == photoDir + "/thumbnails/" + names[j]
  {
    var t := Join(photoDir, "thumbnails");
    assert !IsAbsolute("thumbnails");
    assert t == photoDir + "/" + "thumbnails";
    assert t[|t| - 1] == 's';
    InDirLayout(t, names, j);
  }
}
