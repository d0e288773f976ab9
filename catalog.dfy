/** The photo catalog: `Photo` and the filter loop of `parse_photos`.
    Reading EXIF data and parsing its DateTime field are foreign calls; each
    directory entry arrives with the outcome of those calls already decided. */
module Catalog {
  import opened Outcomes

  /** A photo and its capture time in whole seconds (`NaiveDateTime::timestamp`,
      which reads the naive local time as if it were UTC). */
  datatype Photo = Photo(path: string, datetime: int)

  /** What probing one directory entry produced. */
  datatype Probe =
    | Unopenable            // the entry or the file cannot be opened: the program panics
    | NoExif                // `exif::Reader::new` fails: warned about and skipped
    | NoDateTime            // no DateTime tag: `unwrap()` panics
    | BadDate               // the tag does not parse as "%Y-%m-%d %H:%M:%S": warned about and skipped
    | Dated(timestamp: int) // the tag parses to this many seconds

  datatype DirEntry = DirEntry(path: string, probe: Probe)

  predicate Panics(e: DirEntry) { e.probe.Unopenable? || e.probe.NoDateTime? }

  function PanicOf(e: DirEntry): Panic
    requires Panics(e)
  {
    if e.probe.Unopenable? then UnreadableEntry(e.path) else NoDateTimeField(e.path)
  }

  /** The photos `parse_photos` pushes, in directory-iteration order. */
  function Kept(entries: seq<DirEntry>): seq<Photo>
  {
    if entries == [] then []
    else
      var e := entries[|entries| - 1];
      Kept(entries[..|entries| - 1]) + (if e.probe.Dated? then [Photo(e.path, e.probe.timestamp)] else [])
  }

  /** `parse_photos` over already-listed entries. */
  method ParsePhotos(entries: seq<DirEntry>) returns (r: Result<seq<Photo>>)
    ensures r.Ok? <==> forall i :: 0 <= i < |entries| ==> !Panics(entries[i])
    ensures r.Ok? ==> r.value == Kept(entries)
    ensures r.Abort? ==> exists k :: 0 <= k < |entries| && Panics(entries[k]) && r.panic == PanicOf(entries[k])
                                     && forall i :: 0 <= i < k ==> !Panics(entries[i])
  {
    var photos: seq<Photo> := [];
    for i := 0 to |entries|
      invariant forall j :: 0 <= j < i ==> !Panics(entries[j])
      invariant photos == Kept(entries[..i])
    {
      var entry := entries[i];
      assert entries[..i + 1][..i] == entries[..i];
      match entry.probe
      case Unopenable =>
        return Abort(UnreadableEntry(entry.path));
      case NoExif =>
        continue;
      case NoDateTime =>
        return Abort(NoDateTimeField(entry.path));
      case BadDate =>
        continue;
      case Dated(t) =>
        photos := photos + [Photo(entry.path, t)];
    }
    assert entries[..|entries|] == entries;
    return Ok(photos);
  }

  /** Iteration order is kept: the catalog of a concatenated listing is the
      concatenation of the catalogs. */
  lemma {:induction false} KeptAppend(a: seq<DirEntry>, b: seq<DirEntry>)
    ensures Kept(a + b) == Kept(a) + Kept(b)
  {
    if b == [] {
      assert a + b == a;
    } else {
      var n := |b| - 1;
      assert (a + b)[..|a + b| - 1] == a + b[..n];
      assert (a + b)[|a + b| - 1] == b[n];
      KeptAppend(a, b[..n]);
    }
  }

  /** A photo is in the catalog exactly when some entry with its path probed
      to its timestamp. */
  lemma {:induction false} KeptMembership(entries: seq<DirEntry>, q: Photo)
    ensures q in Kept(entries) <==> exists i :: 0 <= i < |entries| && entries[i] == DirEntry(q.path, Dated(q.datetime))
  {
    if entries != [] {
      var n := |entries| - 1;
      var init := entries[..n];
      KeptMembership(init, q);
      if q in Kept(init) {
        var i :| 0 <= i < |init| && init[i] == DirEntry(q.path, Dated(q.datetime));
        assert entries[i] == init[i];
      }
      if exists i :: 0 <= i < |entries| && entries[i] == DirEntry(q.path, Dated(q.datetime)) {
        var i :| 0 <= i < |entries| && entries[i] == DirEntry(q.path, Dated(q.datetime));
        if i < n {
          assert init[i] == entries[i];
        }
      }
    }
  }

  /** The catalog never holds more photos than the listing has entries. */
  lemma {:induction false} KeptLength(entries: seq<DirEntry>)
    ensures |Kept(entries)| <= |entries|
  {
    if entries != [] {
      KeptLength(entries[..|entries| - 1]);
    }
  }

  /** Paths in a directory listing are distinct. */
  predicate DistinctPaths(entries: seq<DirEntry>)
  {
    forall i, j :: 0 <= i < j < |entries| ==> entries[i].path != entries[j].path
  }

  /** An entry that was skipped (no EXIF data, or a date that does not parse)
      leaves no photo in the catalog. */
  lemma SkippedNeverAppear(entries: seq<DirEntry>, k: nat)
    requires DistinctPaths(entries)
    requires k < |entries| && (entries[k].probe.NoExif? || entries[k].probe.BadDate?)
    ensures forall q :: q in Kept(entries) ==> q.path != entries[k].path
  {
    forall q | q in Kept(entries)
      ensures q.path != entries[k].path
    {
      KeptMembership(entries, q);
    }
  }
}
