# apacheta photo matching and naming, in Dafny

apacheta turns GPX tracks into static HTML pages and attaches the photos taken
while each track was recorded. This project models the part of `src/lib.rs`
that decides which photos belong to a track and where everything is written:

- **catalog** (`parse_photos`): walk the image directory. Keep the entries
  whose EXIF DateTime parses, skip entries without EXIF data or with a
  malformed date, and panic on an entry that cannot be opened or has no
  DateTime field;
- **matching** (`find_photos`): keep the photos whose whole-second timestamp
  lies in the closed window `[start_time, end_time]`. Return `None` when there
  are none, otherwise the matches sorted by timestamp with an unstable sort;
- **naming** (`gpx_to_html`): the title is the metadata name or the file stem.
  The slug replaces each space with `_`. From the slug come the photo
  directory `<target>/static/photos/<slug>`, its relative form for the page,
  and the page `<target>/tracks/<slug>.html`;
- **materialization** (the copy loop): the i-th match (0-based) is copied to
  `<i+1>.<ext>` and thumbnailed under `thumbnails/` with the same name. A
  failed copy is skipped but still uses up its number.

Files, one module each:

| file | module | contents |
|---|---|---|
| `outcomes.dfy` | `Outcomes` | `Option`, and `Result` with the panics of the core |
| `decimal.dfy` | `Decimal` | `format!("{}", n)` for naturals and its inverse |
| `paths.dfy` | `Paths` | `file_name`, `extension`, `file_stem`, `join` on Unix paths |
| `catalog.dfy` | `Catalog` | `Photo`, directory entries with probed outcomes, `parse_photos` |
| `correlate.dfy` | `Correlate` | the window filter, an in-place sort on an array, `find_photos` |
| `naming.dfy` | `Naming` | title, slug, output paths |
| `materialize.dfy` | `Materialize` | the copy/thumbnail loop and its numbering |
| `track.dfy` | `Track` | one `gpx_to_html` run, with its sequence of panics |
| `scenarios.dfy` | `Scenarios` | two concrete runs worked out |

Inputs the program gets from outside are parameters of the model:

- the GPX file arrives already parsed, as its path, its metadata and the
  times of the first segment's points (`Track.Gpx`);
- each directory entry comes with the outcome of opening it, reading its EXIF
  data and parsing its DateTime (`Catalog.Probe`);
- the outcome of `fs::copy` is a set of source paths whose copy fails, or a
  `seq<bool>` per photo.

A panic (`unwrap`/`expect` on `None` or `Err`) is an `Abort` carrying which
call panicked. Timestamps are `int` seconds, the value of `.timestamp()`.

Behaviour of the code that the model keeps and a reader might not expect:

- the track page is rendered even when no photo matches the window;
- the slug replaces only the ASCII space; every other character, `/` included, is kept;
- a photo with EXIF data but no DateTime tag panics;
- the sort is `sort_unstable_by_key`, so only "a sorted permutation" is
  promised and nothing about the order of equal timestamps;
- the image directory is read once per track (`parse_photos` sits inside
  `gpx_to_html`).

## Model

| member | source | states |
|---|---|---|
| Decimal.NatToDecimal | src/lib.rs:112 | `format!("{}", n)`: a non-empty digit string without leading zeros, and "0" exactly for 0 |
| Decimal.DecimalRoundTrip | src/lib.rs:112 | reading the rendered digits back gives the number |
| Decimal.CanonicalRoundTrip | src/lib.rs:112 | every digit string without leading zeros is the rendering of its own value |
| Decimal.DecimalInjective | src/lib.rs:112 | different numbers render as different strings, so photo names never collide |
| Paths.FileName | src/lib.rs:91 | `Path::file_name` on a '/'-separated path holds no separator |
| Paths.FileNameIsLastComponent | src/lib.rs:91 | the file name is a suffix of the path, preceded by a separator unless it is the whole path; with FileName's contract, it is the text after the last separator |
| Paths.StemExtensionSplit | src/lib.rs:89-92 | `file_stem` and `extension` split a file name at its last dot: stem + "." + extension is the name, the stem is non-empty and the extension has no dot; with no extension the stem is the whole name |
| Paths.ExtensionExists | src/lib.rs:111 | a file name has an extension iff it is not ".." and holds a '.' after its first character, which decides the `NoExtension` panic |
| Paths.FileNameOfEntry | src/lib.rs:193-194 | the file name of a directory entry `<dir>/<name>` is `name` |
| Paths.Join | src/lib.rs:100-101 | `PathBuf::join`: an absolute part replaces the base; otherwise the base is a prefix, the part a suffix, and a plain directory gets one separator between them, and an empty base or one ending in '/' is followed directly by the part |
| Catalog.ParsePhotos | src/lib.rs:190-222 | the loop succeeds iff no entry is unopenable or lacks a DateTime field; then it returns the dated photos in iteration order; otherwise it panics at the first such entry |
| Catalog.KeptAppend | src/lib.rs:193-219 | the catalog of a concatenated listing is the concatenation of the catalogs, so iteration order is kept |
| Catalog.KeptMembership | src/lib.rs:215-218 | a photo is in the catalog iff some entry with its path parsed to its timestamp |
| Catalog.KeptLength | src/lib.rs:191-221 | the catalog has no more photos than the listing has entries |
| Catalog.SkippedNeverAppear | src/lib.rs:196-213 | an entry skipped for missing EXIF data or an unparsable date leaves no photo with its path |
| Correlate.Filter | src/lib.rs:174-180 | the matches are no more than the catalog |
| Correlate.FilterSnoc | src/lib.rs:174-180 | one more catalog photo adds itself to the matches iff it lies in the window |
| Correlate.FilterCount | src/lib.rs:172-180 | each photo occurs among the matches as often as in the catalog if it is in the window, and never otherwise (soundness and completeness) |
| Correlate.FilterMembership | src/lib.rs:175-178 | a photo is matched iff it is in the catalog and in the window |
| Correlate.FilterEmptyIff | src/lib.rs:182-187 | nothing matches iff no catalog photo is in the window |
| Correlate.WindowIsClosed | src/lib.rs:175-176 | a photo exactly at the start or the end is matched; one second before the start or after the end is not |
| Correlate.FilterPermutation | src/lib.rs:174-180 | reordering the catalog does not change which photos match |
| Correlate.SortByTimestamp | src/lib.rs:183 | the array ends up sorted by timestamp and is a permutation of what it held |
| Correlate.FindPhotos | src/lib.rs:167-188 | `None` iff no photo is in the window; otherwise a non-empty result, no longer than the catalog, sorted by timestamp and a permutation of the matches |
| Correlate.SortedUnique | src/lib.rs:183 | with distinct timestamps there is only one sorted permutation |
| Correlate.Deterministic | src/lib.rs:183 | when catalog timestamps are distinct, any two sorted answers for the same catalog contents are equal, whatever order the directory listed them in |
| Naming.Title | src/lib.rs:89-92 | no metadata panics with `NoMetadata`; a metadata name is the title; otherwise the title is the GPX file's stem, and only an empty file name panics, with `NoFileStem` |
| Naming.Slug | src/lib.rs:94 | same length as the title; each space becomes '_' and every other character is kept |
| Naming.SlugIsSpaceFree | src/lib.rs:94 | the slug has no space and replacing again changes nothing |
| Naming.SlugKeepsOtherCharacters | src/lib.rs:94 | two titles of equal length that differ at a position where neither has a space have different slugs |
| Naming.PhotosRootLayout | src/lib.rs:100 | `<target>/static/photos` is the target joined with the photo root and ends without a separator |
| Naming.PhotoDirLayout | src/lib.rs:100-101 | for a relative slug the photo directory is `<target>/static/photos/<slug>`, the same place as the relative directory handed to the page |
| Naming.PageLayout | src/lib.rs:155-161 | the page is written to `<target>/tracks/<slug>.html` |
| Naming.AbsoluteTitleEscapesTarget | src/lib.rs:100-101 | a title starting with '/' makes both photo directories the slug itself, outside the target, while the page stays under `<target>/tracks/` |
| Materialize.ExtensionsOfPermutation | src/lib.rs:111 | whether every matched photo has an extension does not depend on the order the sort leaves them in |
| Materialize.TargetNameRoundTrip | src/lib.rs:112 | a target name `<n>.<ext>` gives back `n` from its digits and `ext` from the text after its first dot |
| Materialize.TargetNameIsRelative | src/lib.rs:112 | target names never start with '/', so joining keeps them inside the photo directory |
| Materialize.Successes | src/lib.rs:114-120 | the indices of the successful copies, valid and strictly increasing |
| Materialize.SuccessesComplete | src/lib.rs:114-120 | every successful copy's index is listed |
| Materialize.SuccessesCount | src/lib.rs:114-120 | there are as many listed indices as successful copies, at most N |
| Materialize.NumberedNames | src/lib.rs:112 | the i-th photo's target name reads back as number i+1 with that photo's extension, so no two photos share a target name |
| Materialize.InDirLayout | src/lib.rs:112-114 | below a plain directory, the path of a relative name is `<dir>/<name>` |
| Materialize.CopyPhotos | src/lib.rs:110-136 | succeeds iff every photo has an extension, panicking at the first one without; the copied list is the numbered names of the successful copies, each copied to `photoDir` joined with its name, and the thumbnails are the same names under `thumbnails/` |
| Materialize.SelectAt | src/lib.rs:114-135 | the j-th kept element is the one at the j-th successful index |
| Materialize.CopiedLength | src/lib.rs:135 | one copied name per successful copy |
| Materialize.CopiedNameAt | src/lib.rs:112-135 | the j-th copied name is `<i+1>.<ext_i>` for the j-th successful photo i |
| Materialize.CopiedPartsAt | src/lib.rs:112-135 | the j-th copied name's number and extension are those of the j-th successful photo |
| Materialize.CopiedNumbering | src/lib.rs:110-135 | as many names as successful copies, at most N; each number lies in 1..N, names a successful photo and carries its extension; numbers strictly increase |
| Materialize.CopyGaps | src/lib.rs:114-120 | a failed copy's number appears in no name, and every successful copy's name is present |
| Materialize.ThumbnailLayout | src/lib.rs:127-133 | under a plain photo directory the j-th thumbnail is `<dir>/thumbnails/<name_j>` |
| Track.TimeWindow | src/lib.rs:86-87 | the window is the times of the first and the last point; an empty segment or a missing time at either end panics |
| Track.BackwardsTrackMatchesNothing | src/lib.rs:86-98 | a track ending earlier than it starts matches no photo, since the window is not reordered |
| Track.PlacePhotos | src/lib.rs:103-141 | no match creates and copies nothing; a match creates the photo and thumbnail directories and copies as the loop does over some sorted order of the matches; panics iff some match has no extension, and then names such a match's path; the photo files are the copied names in the photo directory |
| Track.GpxToHtml | src/lib.rs:61-156 | panics in source order: a bad window first, then a missing title, then the first catalog entry that panics; past those, it succeeds iff every match has an extension, and otherwise panics naming a match without one; on success the page carries the title, the window, the derived paths and the photo outputs (names, copied files, thumbnails) for the matches of the catalog |
| Scenarios.MorningFilter | src/lib.rs:174-180 | of five photos at start-1, start, start+2h, end and end+1, the middle three match |
| Scenarios.MorningTrack | src/lib.rs:167-188 | sorting those matches gives exactly start, start+2h, end |
| Scenarios.SecondCopyFails | src/lib.rs:110-135 | three photos whose second copy fails give the names "1.<ext>" and "3.<ext>": number 2 is skipped, not reused |

## Left out

- `read_config` (src/lib.rs:49-59): file reading and TOML decoding by a foreign crate.
- Opening and parsing the GPX file, and indexing `tracks[0]` and `segments[0]` (src/lib.rs:62-67). The model starts from the point times of the first segment. A file with no track or no segment, which panics at the index, is not represented.
- The centroid (src/lib.rs:69-84): `f64` sums and divisions that only feed the template.
- EXIF reading and `NaiveDateTime::parse_from_str` (src/lib.rs:195-213). They are foreign calls, so their outcome per entry is an input.
- `fs::read_dir(dir).unwrap()` failing on the directory itself (src/lib.rs:193). The listing arrives as a sequence of entries.
- `to_str().unwrap()` on non-UTF-8 names (src/lib.rs:91, 111, 161). Strings are `seq<char>`.
- `fs::create_dir_all` (src/lib.rs:107-108). The directories are recorded as created, and its failure panic is not modelled.
- Image decoding, `thumbnail(300, 300)` and saving the thumbnail (src/lib.rs:122-133), together with their `expect`/`unwrap` panics. The model takes them to succeed.
- Building the Tera context, rendering and writing the page (src/lib.rs:143-165). The model returns the values the page receives and the path it is written to.
- src/main.rs: start-up, logging, iteration over the GPX directory and the index page. src/main.rs is not part of this model.
- `fs::copy`'s outcome is an input. `Track.CopyOutcomes` turns a set of failing source paths into one outcome per photo.
- Logging (`warn!`, `error!`, `info!`) has no observable effect on the outputs here.
- Paths are '/'-separated with no `.`/`..` components and no trailing separator. `Path::file_name` returns nothing for a path ending in `..`, and it ignores a trailing '/'; neither case is modelled.
- Correlate.SortByTimestamp: it is an insertion sort. The source uses the standard library's unstable sort, and both are specified only by sortedness and permutation.
- Integer widths: `.timestamp()` is an `i64` and the photo counter `i + 1` a `usize`; the model uses unbounded `int` and `nat`. Neither can overflow on realistic inputs (timestamps of real photos and far fewer than 2^64 photos), so wrap-around is not modelled.
- A panic part-way through a run leaves any files already copied on disk. The model only reports the panic.
