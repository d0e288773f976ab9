/** Title, slug and output locations of one track (`gpx_to_html` and `render_html`). */
module Naming {
  import opened Outcomes
  import opened Paths

  /** The `<metadata>` element of a GPX file, reduced to its optional `<name>`. */
  datatype Metadata = Metadata(name: Option<string>)

  /** The page title: the metadata name when there is one, else the GPX
      file's stem; a file without metadata makes `unwrap()` panic. */
  function Title(metadata: Option<Metadata>, gpxFile: string): (r: Result<string>)
    ensures r.Abort? <==> metadata.None? || (metadata.value.name.None? && FileName(gpxFile) == "")
    ensures metadata.None? ==> r == Abort(NoMetadata)
    ensures metadata.Some? && metadata.value.name.None? && FileName(gpxFile) == "" ==> r == Abort(NoFileStem(gpxFile))
    ensures r.Ok? && metadata.value.name.Some? ==> r.value == metadata.value.name.value
    ensures r.Ok? && metadata.value.name.None? ==>
      var file := FileName(gpxFile);
      match Extension(file)
      case None => r.value == file
      case Some(ext) => r.value + "." + ext == file && r.value != ""
  {
    StemExtensionSplit(FileName(gpxFile));
    match metadata
    case None => Abort(NoMetadata)
    case Some(m) =>
      match m.name
      case Some(name) => Ok(name)
      case None =>
        var file := FileName(gpxFile);
        if file == "" then Abort(NoFileStem(gpxFile)) else Ok(FileStem(file))
  }

  /** `title.replace(" ", "_")`. */
  function Slug(title: string): (slug: string)
    ensures |slug| == |title|
    ensures forall i :: 0 <= i < |title| ==> slug[i] == if title[i] == ' ' then '_' else title[i]
  {
    if title == [] then []
    else [if title[0] == ' ' then '_' else title[0]] + Slug(title[1..])
  }

  /** The slug contains no space, and slugging it again changes nothing. */
  lemma SlugIsSpaceFree(title: string)
    ensures ' ' !in Slug(title)
    ensures Slug(Slug(title)) == Slug(title)
  {
    var s := Slug(title);
    assert forall i :: 0 <= i < |s| ==> s[i] != ' ';
  }

  /** Only spaces change: two titles that differ outside their spaces have different slugs. */
  lemma SlugKeepsOtherCharacters(t1: string, t2: string, i: nat)
    requires |t1| == |t2| && i < |t1| && t1[i] != t2[i] && t1[i] != ' ' && t2[i] != ' '
    ensures Slug(t1) != Slug(t2)
  {
    assert Slug(t1)[i] != Slug(t2)[i];
  }

  /** The directory names `gpx_to_html` joins below the target directory. */
  const PhotosDir := "static/photos"
  const TracksDir := "tracks"

  /** `target_dir.join("static/photos").join(slug)`. */
  function PhotoTargetDir(targetDir: string, slug: string): string
  {
    Join(Join(targetDir, PhotosDir), slug)
  }

  /** `Path::new("static/photos").join(slug)`, handed to the page template. */
  function PhotoTargetDirRelative(slug: string): string
  {
    Join(PhotosDir, slug)
  }

  /** `format!("{}/{}.html", target_dir.join("tracks"), slug)`. */
  function TrackPagePath(targetDir: string, slug: string): string
  {
    Join(targetDir, TracksDir) + "/" + slug + ".html"
  }

  /** `<target>/static/photos` is itself a plain directory. */
  lemma PhotosRootLayout(targetDir: string)
    requires IsPlainDir(targetDir)
    ensures Join(targetDir, PhotosDir) == targetDir + [Separator] + PhotosDir
    ensures IsPlainDir(Join(targetDir, PhotosDir))
  {
    assert !IsAbsolute(PhotosDir);
    var base := Join(targetDir, PhotosDir);
    assert base[|base| - 1] == PhotosDir[|PhotosDir| - 1] == 's';
  }

  /** For a relative slug the photo directory is `<target>/static/photos/<slug>`,
      and the relative one handed to the page names the same place under the
      target directory. */
  lemma PhotoDirLayout(targetDir: string, slug: string)
    requires IsPlainDir(targetDir) && !IsAbsolute(slug)
    ensures PhotoTargetDir(targetDir, slug) == targetDir + [Separator] + PhotosDir + [Separator] + slug
    ensures PhotoTargetDirRelative(slug) == PhotosDir + [Separator] + slug
    ensures PhotoTargetDir(targetDir, slug) == targetDir + [Separator] + PhotoTargetDirRelative(slug)
  {
    PhotosRootLayout(targetDir);
    var rel := PhotoTargetDirRelative(slug);
    assert rel == PhotosDir + [Separator] + slug;
    var abs := PhotoTargetDir(targetDir, slug);
    assert abs == targetDir + [Separator] + PhotosDir + [Separator] + slug;
    assert targetDir + [Separator] + rel == targetDir + [Separator] + (PhotosDir + [Separator] + slug);
  }

  /** The page of a track is `<target>/tracks/<slug>.html`. */
  lemma PageLayout(targetDir: string, slug: string)
    requires IsPlainDir(targetDir)
    ensures TrackPagePath(targetDir, slug) == targetDir + [Separator] + TracksDir + "/" + slug + ".html"
  {
    assert !IsAbsolute(TracksDir);
  }

  /** A title beginning with '/' gives an absolute slug; `join` then drops the
      target directory, so photos are written outside the site while the page
      stays under `<target>/tracks/`. */
  lemma AbsoluteTitleEscapesTarget(targetDir: string, title: string)
    requires IsPlainDir(targetDir) && IsAbsolute(title)
    ensures PhotoTargetDir(targetDir, Slug(title)) == Slug(title)
    ensures PhotoTargetDirRelative(Slug(title)) == Slug(title)
    ensures TrackPagePath(targetDir, Slug(title)) == targetDir + [Separator] + TracksDir + "/" + Slug(title) + ".html"
  {
    var slug := Slug(title);
    assert slug[0] == Separator;
    assert !IsAbsolute(TracksDir);
  }
}
