/**
 * The catalog kept by an album: the `videos`, `crop_definitions` and
 * `images` tables with the three identifier counters, the conditions the
 * album keeps on them, and the bookkeeping operations (open, add and remove
 * videos and crop definitions) as functions from one catalog state to the
 * next. The Album class in album.dfy performs these operations in place and
 * is proved to follow these functions.
 */
module Catalog {
  import opened Wrappers
  import opened Naming
  import opened Frames

  // ---------------------------------------------------------------------
  // Rows and states
  // ---------------------------------------------------------------------

  /** A row of the `videos` table: the stored file name in the video folder. */
  datatype Video = Video(id: int, name: string)

  /**
   * A row of the `crop_definitions` table. `rect` is None when the four
   * pixel columns are NULL (the whole frame is wanted).
   */
  datatype CropDefinition = CropDefinition(
    id: int, videoId: int, description: string, done: bool,
    start: int, end: int, step: int, rect: Option<Rect>)

  /** A row of the `images` table: one extracted still. */
  datatype Image = Image(id: int, definitionId: int, name: string, indexInDefinition: int)

  /** The exceptions the album raises. */
  datatype Error =
    | NotFound           // an id that is not in its table
    | FileNotFound       // the video file to add does not exist
    | VideoUnreadable    // the decoder cannot open the video
    | EmptyCropRegion    // the clipped rectangle has no pixel
    | InvalidFrameRange  // negative start or step below 1

  datatype Result<+T> = Ok(value: T) | Err(error: Error)

  /** The catalog tables, in row order, and the album's three id counters. */
  datatype AlbumState = AlbumState(
    videos: seq<Video>, definitions: seq<CropDefinition>, images: seq<Image>,
    maxIdVideo: int, maxIdDefinition: int, maxIdImage: int)

  /** The catalog after an operation, and what the operation returned or raised. */
  datatype Outcome<+T> = Outcome(after: AlbumState, result: Result<T>)

  // ---------------------------------------------------------------------
  // Row sequences
  // ---------------------------------------------------------------------

  /** The rows of `s` that satisfy `keep`, in their order: a filtered query. */
  function Keep<T(!new)>(s: seq<T>, keep: T -> bool): (r: seq<T>)
    ensures |r| <= |s|
    ensures forall x :: x in r <==> x in s && keep(x)
    ensures (forall x :: x in s ==> !keep(x)) ==> r == []
  {
    if s == [] then []
    else
      assert s == s[..|s| - 1] + [s[|s| - 1]];
      Keep(s[..|s| - 1], keep) + (if keep(s[|s| - 1]) then [s[|s| - 1]] else [])
  }

  /** Filtering keeps a table whole when every row passes. */
  lemma {:induction false} KeepAll<T(!new)>(s: seq<T>, keep: T -> bool)
    requires forall x | x in s :: keep(x)
    ensures Keep(s, keep) == s
    decreases |s|
  {
    if s != [] {
      assert s == s[..|s| - 1] + [s[|s| - 1]];
      KeepAll(s[..|s| - 1], keep);
    }
  }

  /** Every row of `s` stands in relation `before` to every later row. */
  ghost predicate Ordered<T>(s: seq<T>, before: (T, T) -> bool)
  {
    forall i, j :: 0 <= i < j < |s| ==> before(s[i], s[j])
  }

  lemma {:induction false} KeepOrdered<T(!new)>(s: seq<T>, keep: T -> bool, before: (T, T) -> bool)
    requires Ordered(s, before)
    ensures Ordered(Keep(s, keep), before)
    decreases |s|
  {
    if s != [] {
      var init, last := s[..|s| - 1], s[|s| - 1];
      var r := Keep(s, keep);
      var r' := Keep(init, keep);
      KeepOrdered(init, keep, before);
      if keep(last) {
        assert r == r' + [last];
        forall i | 0 <= i < |r'|
          ensures before(r[i], last)
        {
          assert r'[i] in init;
          var k :| 0 <= k < |init| && init[k] == r'[i];
          assert s[k] == r'[i];
        }
      } else {
        assert r == r';
      }
    }
  }

  lemma OrderedAppend<T>(s: seq<T>, x: T, before: (T, T) -> bool)
    requires Ordered(s, before)
    requires forall i :: 0 <= i < |s| ==> before(s[i], x)
    ensures Ordered(s + [x], before)
  {
  }

  predicate VideoBefore(a: Video, b: Video) { a.id < b.id && a.name != b.name }

  predicate DefinitionBefore(a: CropDefinition, b: CropDefinition) { a.id < b.id }

  predicate ImageBefore(a: Image, b: Image) { a.id < b.id && a.name != b.name }

  function VideoIds(vs: seq<Video>): set<int> { set v | v in vs :: v.id }

  function VideoNames(vs: seq<Video>): set<string> { set v | v in vs :: v.name }

  function DefinitionIds(ds: seq<CropDefinition>): set<int> { set d | d in ds :: d.id }

  /** Ids of the definitions whose extraction has completed. */
  function DoneIds(ds: seq<CropDefinition>): set<int> { set d | d in ds && d.done :: d.id }

  function ImageNames(ms: seq<Image>): set<string> { set m | m in ms :: m.name }

  /** The id column of a table, in row order: `id` reads a row's id. */
  function IdList<T>(rows: seq<T>, id: T -> int): (ids: seq<int>)
    ensures |ids| == |rows| && forall i :: 0 <= i < |rows| ==> ids[i] == id(rows[i])
  {
    seq(|rows|, i requires 0 <= i < |rows| => id(rows[i]))
  }

  function VideoIdList(vs: seq<Video>): seq<int> { IdList(vs, (v: Video) => v.id) }

  function DefinitionIdList(ds: seq<CropDefinition>): seq<int> { IdList(ds, (d: CropDefinition) => d.id) }

  function ImageIdList(ms: seq<Image>): seq<int> { IdList(ms, (m: Image) => m.id) }

  /** The position of the first video row with this id (`.first()`), or -1. */
  function IndexOfVideo(vs: seq<Video>, id: int): (k: int)
    ensures -1 <= k < |vs|
    ensures k >= 0 ==> vs[k].id == id && forall j :: 0 <= j < k ==> vs[j].id != id
    ensures k < 0 <==> id !in VideoIds(vs)
  {
    if vs == [] then -1
    else if vs[0].id == id then 0
    else
      var k := IndexOfVideo(vs[1..], id);
      assert id in VideoIds(vs) ==> id in VideoIds(vs[1..]) by {
        if id in VideoIds(vs) {
          var v :| v in vs && v.id == id;
          assert v in vs[1..];
        }
      }
      if k < 0 then -1 else k + 1
  }

  /** The position of the first definition row with this id (`.first()`), or -1. */
  function IndexOfDefinition(ds: seq<CropDefinition>, id: int): (k: int)
    ensures -1 <= k < |ds|
    ensures k >= 0 ==> ds[k].id == id && forall j :: 0 <= j < k ==> ds[j].id != id
    ensures k < 0 <==> id !in DefinitionIds(ds)
  {
    if ds == [] then -1
    else if ds[0].id == id then 0
    else
      var k := IndexOfDefinition(ds[1..], id);
      assert id in DefinitionIds(ds) ==> id in DefinitionIds(ds[1..]) by {
        if id in DefinitionIds(ds) {
          var d :| d in ds && d.id == id;
          assert d in ds[1..];
        }
      }
      if k < 0 then -1 else k + 1
  }

  /** The video rows left after deleting the row with id `id`. */
  function VideosExcept(vs: seq<Video>, id: int): seq<Video>
  {
    Keep(vs, (v: Video) => v.id != id)
  }

  /** The definition rows left after deleting the row with id `id`. */
  function DefinitionsExcept(ds: seq<CropDefinition>, id: int): seq<CropDefinition>
  {
    Keep(ds, (d: CropDefinition) => d.id != id)
  }

  /** The image rows left after deleting every image of definition `id`. */
  function ImagesExcept(ms: seq<Image>, id: int): seq<Image>
  {
    Keep(ms, (m: Image) => m.definitionId != id)
  }

  /** Filtering one more row: the images kept from `ms[..i + 1]`. */
  lemma ImagesExceptStep(ms: seq<Image>, i: int, id: int)
    requires 0 <= i < |ms|
    ensures ImagesExcept(ms[..i + 1], id)
         == ImagesExcept(ms[..i], id) + (if ms[i].definitionId != id then [ms[i]] else [])
  {
    assert ms[..i + 1][..i] == ms[..i];
  }

  // ---------------------------------------------------------------------
  // Read views: get_crop_definitions, get_definition_images, get_video_images
  // ---------------------------------------------------------------------

  function DefinitionsOfVideo(ds: seq<CropDefinition>, videoId: int): seq<CropDefinition>
  {
    Keep(ds, (d: CropDefinition) => d.videoId == videoId)
  }

  function ImagesOfDefinition(ms: seq<Image>, id: int): seq<Image>
  {
    Keep(ms, (m: Image) => m.definitionId == id)
  }

  /** The images joined with their definitions and filtered on the definition's video. */
  function ImagesOfVideo(s: AlbumState, videoId: int): seq<Image>
  {
    var owned := DefinitionIds(DefinitionsOfVideo(s.definitions, videoId));
    Keep(s.images, (m: Image) => m.definitionId in owned)
  }

  /** The definition rows with id `id` (`get_crop_definition`). */
  function DefinitionById(ds: seq<CropDefinition>, id: int): seq<CropDefinition>
  {
    Keep(ds, (d: CropDefinition) => d.id == id)
  }

  // ---------------------------------------------------------------------
  // What the album keeps true
  // ---------------------------------------------------------------------

  /**
   * The tables hold their rows in increasing id order (so ids are unique),
   * video names and image names are unique, every definition belongs to a
   * stored video, and every image belongs to a stored definition whose
   * extraction has completed.
   */
  ghost predicate WellFormedTables(vs: seq<Video>, ds: seq<CropDefinition>, ms: seq<Image>)
  {
    && Ordered(vs, VideoBefore)
    && Ordered(ds, DefinitionBefore)
    && Ordered(ms, ImageBefore)
    && (forall d | d in ds :: d.videoId in VideoIds(vs))
    && (forall m | m in ms :: m.definitionId in DoneIds(ds))
  }

  /** The tables are well formed and each counter is at least every id of its table. */
  ghost predicate Valid(s: AlbumState)
  {
    && WellFormedTables(s.videos, s.definitions, s.images)
    && (forall v | v in s.videos :: v.id <= s.maxIdVideo)
    && (forall d | d in s.definitions :: d.id <= s.maxIdDefinition)
    && (forall m | m in s.images :: m.id <= s.maxIdImage)
  }

  /** No counter goes down from `s` to `t`. */
  predicate CountersKept(s: AlbumState, t: AlbumState)
  {
    s.maxIdVideo <= t.maxIdVideo && s.maxIdDefinition <= t.maxIdDefinition && s.maxIdImage <= t.maxIdImage
  }

  // ---------------------------------------------------------------------
  // Opening an album
  // ---------------------------------------------------------------------

  /** `max(id)` over a table, or -1 when the table is empty. */
  function MaxIdOr(ids: seq<int>): (m: int)
    ensures ids == [] ==> m == -1
    ensures ids != [] ==> m in ids
    ensures forall i :: 0 <= i < |ids| ==> ids[i] <= m
  {
    if ids == [] then -1
    else if |ids| == 1 then ids[0]
    else Max(ids[0], MaxIdOr(ids[1..]))
  }

  /** The state `__init__` reaches on stored tables: counters seeded from the tables. */
  function OpenAlbum(vs: seq<Video>, ds: seq<CropDefinition>, ms: seq<Image>): AlbumState
  {
    AlbumState(vs, ds, ms, MaxIdOr(VideoIdList(vs)), MaxIdOr(DefinitionIdList(ds)), MaxIdOr(ImageIdList(ms)))
  }

  /**
   * Opening well-formed tables gives a valid album whose counters are the
   * largest stored ids, or -1 for an empty table, so the first allocation of
   * each kind is 0 or one past the largest stored id.
   */
  lemma OpenAlbumValid(vs: seq<Video>, ds: seq<CropDefinition>, ms: seq<Image>)
    requires WellFormedTables(vs, ds, ms)
    ensures Valid(OpenAlbum(vs, ds, ms))
    ensures vs == [] ==> OpenAlbum(vs, ds, ms).maxIdVideo == -1
    ensures vs != [] ==> OpenAlbum(vs, ds, ms).maxIdVideo in VideoIds(vs)
    ensures ds == [] ==> OpenAlbum(vs, ds, ms).maxIdDefinition == -1
    ensures ds != [] ==> OpenAlbum(vs, ds, ms).maxIdDefinition in DefinitionIds(ds)
    ensures ms == [] ==> OpenAlbum(vs, ds, ms).maxIdImage == -1
    ensures ms != [] ==> exists m :: m in ms && m.id == OpenAlbum(vs, ds, ms).maxIdImage
  {
    var s := OpenAlbum(vs, ds, ms);
    forall v | v in vs ensures v.id <= s.maxIdVideo {
      var i :| 0 <= i < |vs| && vs[i] == v;
      assert VideoIdList(vs)[i] == v.id;
    }
    forall d | d in ds ensures d.id <= s.maxIdDefinition {
      var i :| 0 <= i < |ds| && ds[i] == d;
      assert DefinitionIdList(ds)[i] == d.id;
    }
    forall m | m in ms ensures m.id <= s.maxIdImage {
      var i :| 0 <= i < |ms| && ms[i] == m;
      assert ImageIdList(ms)[i] == m.id;
    }
    if vs != [] {
      var i :| 0 <= i < |vs| && VideoIdList(vs)[i] == s.maxIdVideo;
      assert vs[i] in vs;
    }
    if ds != [] {
      var i :| 0 <= i < |ds| && DefinitionIdList(ds)[i] == s.maxIdDefinition;
      assert ds[i] in ds;
    }
    if ms != [] {
      var i :| 0 <= i < |ms| && ImageIdList(ms)[i] == s.maxIdImage;
      assert ms[i] in ms;
    }
  }

  // ---------------------------------------------------------------------
  // Videos and crop definitions
  // ---------------------------------------------------------------------

  /**
   * `add_video`: refuse a missing source file; otherwise store the file
   * under its base name, resolved against the stored video names, with the
   * next video id.
   */
  function AddVideo(s: AlbumState, path: string, pathExists: bool): Outcome<int>
  {
    if !pathExists then Outcome(s, Err(FileNotFound))
    else
      var name := Resolve(BaseName(path), VideoNames(s.videos));
      var id := s.maxIdVideo + 1;
      Outcome(s.(videos := s.videos + [Video(id, name)], maxIdVideo := id), Ok(id))
  }

  /**
   * Adding a video keeps the album valid. A missing file changes nothing.
   * Otherwise the new id is one past the counter, above every id the album
   * holds, and becomes the counter; the stored name is new in the video
   * folder and is the file's own base name whenever that one is free.
   */
  lemma AddVideoSpec(s: AlbumState, path: string, pathExists: bool)
    requires Valid(s)
    ensures var o := AddVideo(s, path, pathExists);
      && Valid(o.after) && CountersKept(s, o.after)
      && (!pathExists <==> o.result == Err(FileNotFound))
      && (!pathExists ==> o.after == s)
      && (pathExists ==>
            && o.result == Ok(s.maxIdVideo + 1)
            && o.after.maxIdVideo == s.maxIdVideo + 1
            && (forall v | v in s.videos :: v.id < o.result.value)
            && |o.after.videos| == |s.videos| + 1
            && o.after.videos[..|s.videos|] == s.videos
            && o.after.videos[|s.videos|].id == o.result.value
            && o.after.videos[|s.videos|].name !in VideoNames(s.videos)
            && (BaseName(path) !in VideoNames(s.videos) ==> o.after.videos[|s.videos|].name == BaseName(path))
            && o.after.definitions == s.definitions && o.after.images == s.images)
  {
    if pathExists {
      var o := AddVideo(s, path, pathExists);
      var nv := o.after.videos[|s.videos|];
      forall i | 0 <= i < |s.videos| ensures VideoBefore(s.videos[i], nv) {
        assert s.videos[i] in s.videos;
      }
      OrderedAppend(s.videos, nv, VideoBefore);
      assert o.after.videos == s.videos + [nv];
      assert VideoIds(s.videos) <= VideoIds(o.after.videos);
    }
  }

  /** Adding a video keeps the album valid. */
  lemma AddVideoValid(s: AlbumState, path: string, pathExists: bool)
    requires Valid(s)
    ensures Valid(AddVideo(s, path, pathExists).after)
  {
    AddVideoSpec(s, path, pathExists);
  }

  lemma ClipBaseNames()
    ensures BaseName("/a/clip.mp4") == "clip.mp4"
    ensures BaseName("/b/clip.mp4") == "clip.mp4"
  {
    assert "/a/clip.mp4"[2] == '/' && forall j :: 2 < j < 11 ==> "/a/clip.mp4"[j] != '/';
    assert "/b/clip.mp4"[2] == '/' && forall j :: 2 < j < 11 ==> "/b/clip.mp4"[j] != '/';
    assert RFind("/a/clip.mp4", '/') == 2;
    assert RFind("/b/clip.mp4", '/') == 2;
  }

  lemma ClipResolves()
    ensures Resolve("clip.mp4", {}) == "clip.mp4"
    ensures Resolve("clip.mp4", {"clip.mp4"}) == "clip(1).mp4"
  {
    assert "clip.mp4"[4] == '.' && forall j :: 4 < j < 8 ==> "clip.mp4"[j] != '.';
    assert RFind("clip.mp4", '.') == 4;
    assert NatToString(1) == "1";
    assert Candidate("clip.mp4", 1) == "clip(1).mp4";
    ResolveIsLeastFree("clip.mp4", {"clip.mp4"}, 1);
  }

  /** `add_video` twice on files both named clip.mp4 stores clip.mp4 and clip(1).mp4. */
  lemma AddVideoTwiceExample(s: AlbumState)
    requires s.videos == []
    ensures var o1 := AddVideo(s, "/a/clip.mp4", true);
      var o2 := AddVideo(o1.after, "/b/clip.mp4", true);
      && o2.after.videos == [Video(s.maxIdVideo + 1, "clip.mp4"), Video(s.maxIdVideo + 2, "clip(1).mp4")]
  {
    ClipBaseNames();
    ClipResolves();
    var o1 := AddVideo(s, "/a/clip.mp4", true);
    StoredRow(s, "/a/clip.mp4", "clip.mp4");
    assert o1.after.videos == [Video(s.maxIdVideo + 1, "clip.mp4")];
    assert VideoNames(o1.after.videos) == {"clip.mp4"};
    StoredRow(o1.after, "/b/clip.mp4", "clip(1).mp4");
  }

  /** The row `add_video` appends for an existing file whose resolved name is `name`. */
  lemma StoredRow(s: AlbumState, path: string, name: string)
    requires Resolve(BaseName(path), VideoNames(s.videos)) == name
    ensures AddVideo(s, path, true).after.videos == s.videos + [Video(s.maxIdVideo + 1, name)]
    ensures AddVideo(s, path, true).after.maxIdVideo == s.maxIdVideo + 1
  {
  }

  /**
   * `add_crop_definition`: refuse an unknown video; otherwise store the
   * definition, not yet done, with the next definition id. The frame range
   * and rectangle are stored as given.
   */
  function AddCropDefinition(s: AlbumState, videoId: int, start: int, end: int, step: int,
                             rect: Option<Rect>, description: string): Outcome<int>
  {
    if videoId !in VideoIds(s.videos) then Outcome(s, Err(NotFound))
    else
      var id := s.maxIdDefinition + 1;
      var d := CropDefinition(id, videoId, description, false, start, end, step, rect);
      Outcome(s.(definitions := s.definitions + [d], maxIdDefinition := id), Ok(id))
  }

  /**
   * Adding a definition keeps the album valid; it fails, changing nothing,
   * exactly when the video is not stored; otherwise the new definition has
   * an id above every stored one, is not done, and belongs to the video.
   */
  lemma AddCropDefinitionSpec(s: AlbumState, videoId: int, start: int, end: int, step: int,
                              rect: Option<Rect>, description: string)
    requires Valid(s)
    ensures var o := AddCropDefinition(s, videoId, start, end, step, rect, description);
      && Valid(o.after) && CountersKept(s, o.after)
      && (o.result.Err? <==> videoId !in VideoIds(s.videos))
      && (o.result.Err? ==> o.after == s && o.result.error == NotFound)
      && (o.result.Ok? ==>
            && o.result.value == s.maxIdDefinition + 1 == o.after.maxIdDefinition
            && (forall d | d in s.definitions :: d.id < o.result.value)
            && o.after.definitions == s.definitions
                 + [CropDefinition(o.result.value, videoId, description, false, start, end, step, rect)]
            && o.after.videos == s.videos && o.after.images == s.images)
  {
    var o := AddCropDefinition(s, videoId, start, end, step, rect, description);
    if o.result.Ok? {
      var nd := o.after.definitions[|s.definitions|];
      forall i | 0 <= i < |s.definitions| ensures DefinitionBefore(s.definitions[i], nd) {
        assert s.definitions[i] in s.definitions;
      }
      OrderedAppend(s.definitions, nd, DefinitionBefore);
      assert DoneIds(o.after.definitions) == DoneIds(s.definitions);
    }
  }

  /**
   * `remove_crop_definition`: refuse an unknown id; delete the definition's
   * images when it is done (an image file already missing from disk is no
   * error), then the definition row.
   */
  function RemoveCropDefinition(s: AlbumState, id: int): Outcome<bool>
  {
    var k := IndexOfDefinition(s.definitions, id);
    if k < 0 then Outcome(s, Err(NotFound))
    else
      var images := if s.definitions[k].done then ImagesExcept(s.images, id) else s.images;
      Outcome(s.(images := images, definitions := DefinitionsExcept(s.definitions, id)), Ok(true))
  }

  lemma DefinitionIdsUnique(ds: seq<CropDefinition>, i: int, j: int)
    requires Ordered(ds, DefinitionBefore)
    requires 0 <= i < |ds| && 0 <= j < |ds| && ds[i].id == ds[j].id
    ensures i == j
  {
    assert i < j ==> DefinitionBefore(ds[i], ds[j]);
    assert j < i ==> DefinitionBefore(ds[j], ds[i]);
  }

  /** In a valid album, the images of an unfinished definition do not exist. */
  lemma NoImagesOfUnfinished(s: AlbumState, k: int)
    requires Valid(s) && 0 <= k < |s.definitions| && !s.definitions[k].done
    ensures forall m | m in s.images :: m.definitionId != s.definitions[k].id
  {
    forall m | m in s.images ensures m.definitionId != s.definitions[k].id {
      var x :| x in s.definitions && x.done && x.id == m.definitionId;
      var i :| 0 <= i < |s.definitions| && s.definitions[i] == x;
      if x.id == s.definitions[k].id {
        DefinitionIdsUnique(s.definitions, i, k);
      }
    }
  }

  /**
   * Removing a definition fails, changing nothing, exactly when the id is
   * unknown. Otherwise exactly that definition row goes, and exactly the
   * images that referenced it go with it: an unfinished definition has none.
   */
  lemma RemoveCropDefinitionRows(s: AlbumState, id: int)
    requires Valid(s)
    ensures var o := RemoveCropDefinition(s, id);
      && (o.result.Err? <==> id !in DefinitionIds(s.definitions))
      && (o.result.Err? ==> o.after == s && o.result.error == NotFound)
      && o.after.videos == s.videos
      && o.after.maxIdVideo == s.maxIdVideo && o.after.maxIdDefinition == s.maxIdDefinition
      && o.after.maxIdImage == s.maxIdImage
      && (forall d :: d in o.after.definitions <==> d in s.definitions && d.id != id)
      && (forall m :: m in o.after.images <==> m in s.images && m.definitionId != id)
  {
    var k := IndexOfDefinition(s.definitions, id);
    if k >= 0 && !s.definitions[k].done {
      NoImagesOfUnfinished(s, k);
    }
  }

  /** Removing a definition keeps the album valid. */
  lemma RemoveCropDefinitionValid(s: AlbumState, id: int)
    requires Valid(s)
    ensures Valid(RemoveCropDefinition(s, id).after)
  {
    var o := RemoveCropDefinition(s, id);
    var k := IndexOfDefinition(s.definitions, id);
    if k >= 0 {
      RemoveCropDefinitionRows(s, id);
      var ds' := o.after.definitions;
      KeepOrdered(s.definitions, (x: CropDefinition) => x.id != id, DefinitionBefore);
      KeepOrdered(s.images, (m: Image) => m.definitionId != id, ImageBefore);
      forall m | m in o.after.images
        ensures m.definitionId in DoneIds(ds')
      {
        var x :| x in s.definitions && x.done && x.id == m.definitionId;
        assert x in ds';
      }
    }
  }

  /** `remove_crop_definition` applied to each id in turn. */
  function RemoveCropDefinitions(s: AlbumState, ids: seq<int>): AlbumState
    decreases |ids|
  {
    if ids == [] then s else RemoveCropDefinitions(RemoveCropDefinition(s, ids[0]).after, ids[1..])
  }

  /** Removing a list of definitions keeps the album valid and changes no video and no counter. */
  lemma {:induction false} RemoveCropDefinitionsValid(s: AlbumState, ids: seq<int>)
    requires Valid(s)
    ensures var t := RemoveCropDefinitions(s, ids);
      && Valid(t)
      && t.videos == s.videos
      && t.maxIdVideo == s.maxIdVideo && t.maxIdDefinition == s.maxIdDefinition && t.maxIdImage == s.maxIdImage
    decreases |ids|
  {
    if ids != [] {
      RemoveCropDefinitionRows(s, ids[0]);
      RemoveCropDefinitionValid(s, ids[0]);
      RemoveCropDefinitionsValid(RemoveCropDefinition(s, ids[0]).after, ids[1..]);
    }
  }

  /**
   * Removing a list of definitions deletes exactly the definitions with
   * those ids and the images that referenced them.
   */
  lemma {:induction false} RemoveCropDefinitionsRows(s: AlbumState, ids: seq<int>)
    requires Valid(s)
    ensures var t := RemoveCropDefinitions(s, ids);
      && (forall d :: d in t.definitions <==> d in s.definitions && d.id !in ids)
      && (forall m :: m in t.images <==> m in s.images && m.definitionId !in ids)
    decreases |ids|
  {
    if ids != [] {
      var s1 := RemoveCropDefinition(s, ids[0]).after;
      RemoveCropDefinitionRows(s, ids[0]);
      RemoveCropDefinitionValid(s, ids[0]);
      RemoveCropDefinitionsRows(s1, ids[1..]);
      forall x ensures x in ids <==> x == ids[0] || x in ids[1..] {
        assert ids == [ids[0]] + ids[1..];
      }
    }
  }

  /** The ids of a video's definitions, in row order. */
  function OwnedDefinitionIds(ds: seq<CropDefinition>, videoId: int): (ids: seq<int>)
    ensures forall x :: x in ids <==> exists d :: d in ds && d.videoId == videoId && d.id == x
  {
    var owned := DefinitionsOfVideo(ds, videoId);
    var ids := DefinitionIdList(owned);
    assert forall x :: x in ids <==> exists d :: d in owned && d.id == x by {
      forall x ensures x in ids <==> exists d :: d in owned && d.id == x {
        if x in ids {
          var i :| 0 <= i < |ids| && ids[i] == x;
          assert owned[i] in owned;
        }
        if exists d :: d in owned && d.id == x {
          var d :| d in owned && d.id == x;
          var i :| 0 <= i < |owned| && owned[i] == d;
          assert ids[i] == x;
        }
      }
    }
    ids
  }

  /**
   * `remove_video`: refuse an unknown id; remove each of the video's
   * definitions (with their images), then the video row.
   */
  function RemoveVideo(s: AlbumState, id: int): Outcome<bool>
  {
    if IndexOfVideo(s.videos, id) < 0 then Outcome(s, Err(NotFound))
    else
      var t := RemoveCropDefinitions(s, OwnedDefinitionIds(s.definitions, id));
      Outcome(t.(videos := VideosExcept(t.videos, id)), Ok(true))
  }

  /** A definition of another video is not among the ids owned by this one. */
  lemma OwnedIdsExact(s: AlbumState, id: int)
    requires Valid(s)
    ensures forall d | d in s.definitions :: d.id in OwnedDefinitionIds(s.definitions, id) <==> d.videoId == id
  {
    var owned := OwnedDefinitionIds(s.definitions, id);
    forall d | d in s.definitions && d.id in owned ensures d.videoId == id {
      var e :| e in s.definitions && e.videoId == id && e.id == d.id;
      var i :| 0 <= i < |s.definitions| && s.definitions[i] == d;
      var j :| 0 <= j < |s.definitions| && s.definitions[j] == e;
      DefinitionIdsUnique(s.definitions, i, j);
    }
  }

  /**
   * Removing a video fails, changing nothing, exactly when the id is
   * unknown. Otherwise the video row, its definitions and their images go,
   * and every other video, definition and image stays.
   */
  lemma RemoveVideoRows(s: AlbumState, id: int)
    requires Valid(s)
    ensures var o := RemoveVideo(s, id);
      && CountersKept(s, o.after)
      && (o.result.Err? <==> id !in VideoIds(s.videos))
      && (o.result.Err? ==> o.after == s && o.result.error == NotFound)
      && (o.result.Ok? ==>
            && (forall v :: v in o.after.videos <==> v in s.videos && v.id != id)
            && (forall d :: d in o.after.definitions <==> d in s.definitions && d.videoId != id)
            && (forall m :: m in o.after.images <==> m in s.images && m.definitionId !in OwnedDefinitionIds(s.definitions, id)))
  {
    var o := RemoveVideo(s, id);
    if o.result.Ok? {
      RemoveCropDefinitionsValid(s, OwnedDefinitionIds(s.definitions, id));
      RemoveCropDefinitionsRows(s, OwnedDefinitionIds(s.definitions, id));
      OwnedIdsExact(s, id);
    }
  }

  /**
   * Removing a video keeps the album valid and leaves no trace of it: the
   * video is gone and the views of its definitions and images are empty.
   */
  lemma RemoveVideoLeavesNoTrace(s: AlbumState, id: int)
    requires Valid(s)
    ensures var o := RemoveVideo(s, id);
      && Valid(o.after)
      && id !in VideoIds(o.after.videos)
      && DefinitionsOfVideo(o.after.definitions, id) == []
      && ImagesOfVideo(o.after, id) == []
  {
    var o := RemoveVideo(s, id);
    if o.result.Ok? {
      var t := RemoveCropDefinitions(s, OwnedDefinitionIds(s.definitions, id));
      RemoveCropDefinitionsValid(s, OwnedDefinitionIds(s.definitions, id));
      RemoveCropDefinitionsRows(s, OwnedDefinitionIds(s.definitions, id));
      RemoveVideoRows(s, id);
      KeepOrdered(t.videos, (v: Video) => v.id != id, VideoBefore);
      forall d | d in o.after.definitions ensures d.videoId in VideoIds(o.after.videos) {
        var v :| v in t.videos && v.id == d.videoId;
        assert v in o.after.videos;
      }
    } else {
      forall d | d in s.definitions ensures d.videoId != id {
        assert d.videoId in VideoIds(s.videos);
      }
    }
  }

  /**
   * Ids are not reused within one open album: after a definition has been
   * added and removed again, the next definition, whatever its fields, gets
   * a larger id than the removed one.
   */
  lemma DefinitionIdNotReused(s: AlbumState, videoId: int,
                              start1: int, end1: int, step1: int, rect1: Option<Rect>, description1: string,
                              start2: int, end2: int, step2: int, rect2: Option<Rect>, description2: string)
    requires Valid(s) && videoId in VideoIds(s.videos)
    ensures var o1 := AddCropDefinition(s, videoId, start1, end1, step1, rect1, description1);
      var o2 := RemoveCropDefinition(o1.after, o1.result.value);
      var o3 := AddCropDefinition(o2.after, videoId, start2, end2, step2, rect2, description2);
      o3.result.Ok? && o3.result.value > o1.result.value
  {
    var o1 := AddCropDefinition(s, videoId, start1, end1, step1, rect1, description1);
    AddCropDefinitionSpec(s, videoId, start1, end1, step1, rect1, description1);
    RemoveCropDefinitionRows(o1.after, o1.result.value);
    RemoveCropDefinitionValid(o1.after, o1.result.value);
    var o2 := RemoveCropDefinition(o1.after, o1.result.value);
    AddCropDefinitionSpec(o2.after, videoId, start2, end2, step2, rect2, description2);
  }

  /**
   * Within one session ids are never reused, but opening an album seeds the
   * counters from the stored tables. So when the album's definition counter
   * is the largest stored definition id (as right after opening), a
   * definition that is added and removed again leaves no trace of its id:
   * once the album is reopened, the next definition gets the same id.
   */
  lemma ReopenReusesDefinitionId(s: AlbumState, videoId: int, start: int, end: int, step: int,
                                 rect: Option<Rect>, description: string)
    requires videoId in VideoIds(s.videos)
    requires s.maxIdDefinition == MaxIdOr(DefinitionIdList(s.definitions))
    ensures var o1 := AddCropDefinition(s, videoId, start, end, step, rect, description);
      var o2 := RemoveCropDefinition(o1.after, o1.result.value);
      var reopened := OpenAlbum(o2.after.videos, o2.after.definitions, o2.after.images);
      var o3 := AddCropDefinition(reopened, videoId, start, end, step, rect, description);
      && o1.result.Ok?
      && o3.result == o1.result
  {
    MaxDefinitionIdBounds(s.definitions);
    AddThenRemoveDefinition(s, videoId, start, end, step, rect, description);
    ReopenedAdd(s.videos, s.definitions, s.images, videoId, start, end, step, rect, description);
  }

  /** Every stored definition id is at most the largest one. */
  lemma MaxDefinitionIdBounds(ds: seq<CropDefinition>)
    ensures forall d | d in ds :: d.id <= MaxIdOr(DefinitionIdList(ds))
  {
    forall d | d in ds ensures d.id <= MaxIdOr(DefinitionIdList(ds)) {
      var i :| 0 <= i < |ds| && ds[i] == d;
      assert DefinitionIdList(ds)[i] == d.id;
    }
  }

  /** In an album just opened, a new definition gets one past the largest stored definition id. */
  lemma ReopenedAdd(vs: seq<Video>, ds: seq<CropDefinition>, ms: seq<Image>, videoId: int,
                    start: int, end: int, step: int, rect: Option<Rect>, description: string)
    requires videoId in VideoIds(vs)
    ensures AddCropDefinition(OpenAlbum(vs, ds, ms), videoId, start, end, step, rect, description).result
         == Ok(MaxIdOr(DefinitionIdList(ds)) + 1)
  {
  }

  /**
   * Removing the definition just added gives back the album as it was,
   * except that the definition counter stays advanced.
   */
  lemma AddThenRemoveDefinition(s: AlbumState, videoId: int, start: int, end: int, step: int,
                                rect: Option<Rect>, description: string)
    requires videoId in VideoIds(s.videos)
    requires forall d | d in s.definitions :: d.id <= s.maxIdDefinition
    ensures var o1 := AddCropDefinition(s, videoId, start, end, step, rect, description);
      && o1.result == Ok(s.maxIdDefinition + 1)
      && RemoveCropDefinition(o1.after, o1.result.value)
         == Outcome(s.(maxIdDefinition := s.maxIdDefinition + 1), Ok(true))
  {
    var id := s.maxIdDefinition + 1;
    var ds := s.definitions;
    var nd := CropDefinition(id, videoId, description, false, start, end, step, rect);
    var added := ds + [nd];
    assert AddCropDefinition(s, videoId, start, end, step, rect, description).after.definitions == added;
    assert id in DefinitionIds(added);
    assert added[..|ds|] == ds;
    KeepAll(ds, (d: CropDefinition) => d.id != id);
    assert DefinitionsExcept(added, id) == ds;
    assert added[IndexOfDefinition(added, id)] == nd;
  }

  // ---------------------------------------------------------------------
  // The read views on a valid album
  // ---------------------------------------------------------------------

  /** A definition id selects the stored definition with that id, or no row at all. */
  lemma DefinitionByIdSpec(s: AlbumState, id: int)
    requires Valid(s)
    ensures var r := DefinitionById(s.definitions, id);
      && (id !in DefinitionIds(s.definitions) <==> r == [])
      && (id in DefinitionIds(s.definitions) ==> r == [s.definitions[IndexOfDefinition(s.definitions, id)]])
  {
    var r := DefinitionById(s.definitions, id);
    KeepOrdered(s.definitions, (d: CropDefinition) => d.id == id, DefinitionBefore);
    forall i | 0 <= i < |r| ensures r[i].id == id {
      assert r[i] in r;
    }
    assert |r| >= 2 ==> DefinitionBefore(r[0], r[1]);
    assert |r| <= 1;
    if id in DefinitionIds(s.definitions) {
      var k := IndexOfDefinition(s.definitions, id);
      assert s.definitions[k] in s.definitions;
      assert s.definitions[k] in r;
    }
  }

  /**
   * A stored image is among the images of a video (`get_video_images`, a
   * join through the definitions) exactly when its definition belongs to
   * that video.
   */
  lemma ImageOfVideo(s: AlbumState, videoId: int, m: Image)
    requires Valid(s) && m in s.images
    ensures m in ImagesOfVideo(s, videoId) <==>
      s.definitions[IndexOfDefinition(s.definitions, m.definitionId)].videoId == videoId
  {
    assert m.definitionId in DefinitionIds(s.definitions);
    OwnedByVideo(s.definitions, videoId, IndexOfDefinition(s.definitions, m.definitionId));
  }

  /** A definition's id is among the ids of a video's definitions exactly when it belongs to that video. */
  lemma OwnedByVideo(ds: seq<CropDefinition>, videoId: int, k: int)
    requires Ordered(ds, DefinitionBefore) && 0 <= k < |ds|
    ensures ds[k].id in DefinitionIds(DefinitionsOfVideo(ds, videoId)) <==> ds[k].videoId == videoId
  {
    if ds[k].id in DefinitionIds(DefinitionsOfVideo(ds, videoId)) {
      var d :| d in DefinitionsOfVideo(ds, videoId) && d.id == ds[k].id;
      var i :| 0 <= i < |ds| && ds[i] == d;
      DefinitionIdsUnique(ds, i, k);
    }
    if ds[k].videoId == videoId {
      assert ds[k] in ds;
      assert ds[k] in DefinitionsOfVideo(ds, videoId);
    }
  }

  /** The images of a video are stored images, kept in row order. */
  lemma ImagesOfVideoOrdered(s: AlbumState, videoId: int)
    requires Valid(s)
    ensures forall m | m in ImagesOfVideo(s, videoId) :: m in s.images
    ensures Ordered(ImagesOfVideo(s, videoId), ImageBefore)
  {
    var owned := DefinitionIds(DefinitionsOfVideo(s.definitions, videoId));
    KeepOrdered(s.images, (m: Image) => m.definitionId in owned, ImageBefore);
  }

  /**
   * The images of a definition (`get_definition_images`) are the stored
   * images that reference it, in row order. A definition that is not done,
   * or not stored at all, has none, and once the definition is removed its
   * view is empty.
   */
  lemma ImagesOfDefinitionSpec(s: AlbumState, id: int)
    requires Valid(s)
    ensures forall m :: m in ImagesOfDefinition(s.images, id) <==> m in s.images && m.definitionId == id
    ensures Ordered(ImagesOfDefinition(s.images, id), ImageBefore)
    ensures id !in DoneIds(s.definitions) ==> ImagesOfDefinition(s.images, id) == []
    ensures ImagesOfDefinition(RemoveCropDefinition(s, id).after.images, id) == []
  {
    KeepOrdered(s.images, (m: Image) => m.definitionId == id, ImageBefore);
    RemoveCropDefinitionRows(s, id);
  }
}
