/** One run of `gpx_to_html` on an already-parsed GPX file: time window,
    title and slug, photo matching, materialization and the page location. */
module Track {
  import opened Outcomes
  import opened Paths
  import opened Catalog
  import opened Correlate
  import opened Naming
  import opened Materialize

  /** What the core reads from a GPX file: its path, its metadata, and the
      times (whole seconds, when present) of the points of its first segment
      of its first track. */
  datatype Gpx = Gpx(path: string, metadata: Option<Metadata>, pointTimes: seq<Option<int>>)

  datatype Window = Window(start: int, end: int)

  /** `start_time`/`end_time`: the times of the first and the last point,
      not a minimum and maximum; a missing point or time panics. */
  function TimeWindow(times: seq<Option<int>>): (r: Result<Window>)
    ensures r.Ok? <==> |times| > 0 && times[0].Some? && times[|times| - 1].Some?
    ensures r.Ok? ==> r.value.start == times[0].value && r.value.end == times[|times| - 1].value
    ensures r.Abort? ==> r.panic == (if |times| == 0 then NoTrackPoint else NoPointTime)
  {
    if |times| == 0 then Abort(NoTrackPoint)
    else if times[0].None? || times[|times| - 1].None? then Abort(NoPointTime)
    else Ok(Window(times[0].value, times[|times| - 1].value))
  }

  /** A track whose last point is older than its first gets no photo at all,
      since the window is not reordered. */
  lemma BackwardsTrackMatchesNothing(times: seq<Option<int>>, photos: seq<Photo>)
    requires TimeWindow(times).Ok? && TimeWindow(times).value.end < TimeWindow(times).value.start
    ensures Filter(photos, TimeWindow(times).value.start, TimeWindow(times).value.end) == []
  {
    var w := TimeWindow(times).value;
    FilterEmptyIff(photos, w.start, w.end);
  }

  /** `fs::copy`'s outcome for each matched photo: it fails for the source paths in `copyFails`. */
  function CopyOutcomes(photos: seq<Photo>, copyFails: set<string>): (ok: seq<bool>)
  {
    seq(|photos|, i requires 0 <= i < |photos| => photos[i].path !in copyFails)
  }

  /** An order `find_photos` may return the matches in. */
  predicate IsMatchOrder(order: seq<Photo>, matched: seq<Photo>)
  {
    SortedByTime(order) && multiset(order) == multiset(matched)
  }

  /** The values `gpx_to_html` puts into the page context or onto the disk. */
  datatype TrackPage = TrackPage(
    title: string,
    window: Window,
    photoDirRelative: string,
    createdDirs: seq<string>,
    copiedPhotos: seq<string>,
    photoFiles: seq<string>,
    thumbnails: seq<string>,
    pagePath: string)

  /** What the photo part of `gpx_to_html` leaves behind for the matches,
      i.e. src/lib.rs:103-141 as seen by the page: the directories created, the
      copied names, the files copied and the thumbnails written. */
  ghost predicate PhotoOutputs(matched: seq<Photo>, dir: string, copyFails: set<string>,
                         created: seq<string>, copied: seq<string>, files: seq<string>,
                         thumbnails: seq<string>)
  {
    && (matched == [] ==> created == [] && copied == [] && files == [] && thumbnails == [])
    && (matched != [] ==> created == [dir, Join(dir, "thumbnails")])
    && |copied| <= |matched|
    && files == InDir(dir, copied)
    && thumbnails == InDir(Join(dir, "thumbnails"), copied)
    && (matched != [] ==>
          exists order :: && IsMatchOrder(order, matched) && AllHaveExtensions(order)
                          && copied == CopiedNames(Extensions(order), CopyOutcomes(order, copyFails)))
  }

  /** The `match photos` of src/lib.rs:103-141. */
  method PlacePhotos(photos: Option<seq<Photo>>, ghost matched: seq<Photo>, dir: string, copyFails: set<string>)
    returns (r: Result<(seq<string>, seq<string>, seq<string>, seq<string>)>)
    requires photos.None? <==> matched == []
    requires photos.Some? ==> IsMatchOrder(photos.value, matched)
    ensures r.Ok? <==> AllHaveExtensions(matched)
    ensures r.Abort? ==> exists q :: q in matched && Ext(q).None? && r.panic == NoExtension(q.path)
    ensures r.Ok? ==> PhotoOutputs(matched, dir, copyFails, r.value.0, r.value.1, r.value.2, r.value.3)
  {
    match photos {
      case Some(order) =>
        var ok := CopyOutcomes(order, copyFails);
        var copies := CopyPhotos(order, ok, dir);
        ExtensionsOfPermutation(order, matched);
        if copies.Abort? {
          ghost var k :| 0 <= k < |order| && copies.panic == NoExtension(order[k].path) && Ext(order[k]).None?;
          assert order[k] in multiset(matched);
          return Abort(copies.panic);
        }
        CopiedNumbering(Extensions(order), ok);
        assert |copies.value.copied| <= |order| == |multiset(order)| == |multiset(matched)| == |matched|;
        return Ok(([dir, Join(dir, "thumbnails")], copies.value.copied, copies.value.targets, copies.value.thumbnails));
      case None =>
        return Ok(([], [], [], []));
    }
  }

  method GpxToHtml(gpx: Gpx, targetDir: string, imgEntries: seq<DirEntry>, copyFails: set<string>)
    returns (r: Result<TrackPage>)
    ensures TimeWindow(gpx.pointTimes).Abort? ==> r == Abort(TimeWindow(gpx.pointTimes).panic)
    ensures TimeWindow(gpx.pointTimes).Ok? && Title(gpx.metadata, gpx.path).Abort? ==>
      r == Abort(Title(gpx.metadata, gpx.path).panic)
    ensures TimeWindow(gpx.pointTimes).Ok? && Title(gpx.metadata, gpx.path).Ok? &&
            (exists i :: 0 <= i < |imgEntries| && Panics(imgEntries[i])) ==>
      r.Abort? && exists k :: 0 <= k < |imgEntries| && Panics(imgEntries[k]) && r.panic == PanicOf(imgEntries[k])
                              && forall i :: 0 <= i < k ==> !Panics(imgEntries[i])
    ensures TimeWindow(gpx.pointTimes).Ok? && Title(gpx.metadata, gpx.path).Ok? &&
            (forall i :: 0 <= i < |imgEntries| ==> !Panics(imgEntries[i])) ==>
      var w := TimeWindow(gpx.pointTimes).value;
      var matched := Filter(Kept(imgEntries), w.start, w.end);
      && (r.Ok? <==> AllHaveExtensions(matched))
      && (r.Abort? ==> exists q :: q in matched && Ext(q).None? && r.panic == NoExtension(q.path))
    ensures r.Ok? ==>
      && TimeWindow(gpx.pointTimes) == Ok(r.value.window)
      && Title(gpx.metadata, gpx.path) == Ok(r.value.title)
      && (forall i :: 0 <= i < |imgEntries| ==> !Panics(imgEntries[i]))
      && r.value.photoDirRelative == PhotoTargetDirRelative(Slug(r.value.title))
      && r.value.pagePath == TrackPagePath(targetDir, Slug(r.value.title))
      && PhotoOutputs(Filter(Kept(imgEntries), r.value.window.start, r.value.window.end),
                      PhotoTargetDir(targetDir, Slug(r.value.title)), copyFails,
                      r.value.createdDirs, r.value.copiedPhotos, r.value.photoFiles, r.value.thumbnails)
  {
    var window := TimeWindow(gpx.pointTimes);
    if window.Abort? {
      return Abort(window.panic);
    }
    var title := Title(gpx.metadata, gpx.path);
    if title.Abort? {
      return Abort(title.panic);
    }
    var slug := Slug(title.value);
    var dates := ParsePhotos(imgEntries);
    if dates.Abort? {
      return Abort(dates.panic);
    }
    var start, end := window.value.start, window.value.end;
    var photos := FindPhotos(dates.value, start, end);
    var photoDir := PhotoTargetDir(targetDir, slug);
    ghost var matched := Filter(dates.value, start, end);
    FilterEmptyIff(dates.value, start, end);
    var placed := PlacePhotos(photos, matched, photoDir, copyFails);
    if placed.Abort? {
      return Abort(placed.panic);
    }
    var (created, copied, files, thumbnails) := placed.value;
    return Ok(TrackPage(title.value, window.value, PhotoTargetDirRelative(slug), created, copied, files,
                        thumbnails, TrackPagePath(targetDir, slug)));
  }
}
