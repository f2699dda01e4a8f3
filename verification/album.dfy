/**
 * The `Album` object: the three tables and the three id counters it keeps,
 * and its operations as methods that update them in place. Each method is
 * proved to leave the album in the state the corresponding function of the
 * catalog or the crop engine describes, and to keep the album valid.
 */
module Database {
  import opened Wrappers
  import opened Naming
  import opened Frames
  import opened Catalog
  import opened CropEngine

  class Album {
    var videos: seq<Video>
    var definitions: seq<CropDefinition>
    var images: seq<Image>
    var maxIdVideo: int
    var maxIdDefinition: int
    var maxIdImage: int

    /** The album's tables and counters as one value. */
    function State(): AlbumState
      reads this
    {
      AlbumState(videos, definitions, images, maxIdVideo, maxIdDefinition, maxIdImage)
    }

    ghost predicate Valid()
      reads this
    {
      Catalog.Valid(State())
    }

    /**
     * Opening an album on stored tables: each counter starts at the largest
     * stored id of its table, or -1 when the table is empty.
     */
    constructor (vs: seq<Video>, ds: seq<CropDefinition>, ms: seq<Image>)
      requires WellFormedTables(vs, ds, ms)
      ensures State() == OpenAlbum(vs, ds, ms)
      ensures Valid()
    {
      videos, definitions, images := vs, ds, ms;
      maxIdVideo := MaxIdOr(VideoIdList(vs));
      maxIdDefinition := MaxIdOr(DefinitionIdList(ds));
      maxIdImage := MaxIdOr(ImageIdList(ms));
      new;
      OpenAlbumValid(vs, ds, ms);
    }

    /**
     * `add_video`: `pathExists` is whether the source file exists. The
     * stored name is found by probing the video table one candidate name at
     * a time; the id is the pre-incremented video counter.
     */
    method AddVideo(path: string, pathExists: bool) returns (r: Result<int>)
      requires Valid()
      modifies this
      ensures Valid()
      ensures State() == Catalog.AddVideo(old(State()), path, pathExists).after
      ensures r == Catalog.AddVideo(old(State()), path, pathExists).result
    {
      ghost var before := State();
      if !pathExists {
        return Err(FileNotFound);
      }
      ghost var o := Catalog.AddVideo(before, path, pathExists);
      var name := ResolveName(BaseName(path), VideoNames(videos));
      assert o.after.videos == videos + [Video(maxIdVideo + 1, name)];
      maxIdVideo := maxIdVideo + 1;
      var id := maxIdVideo;
      videos := videos + [Video(id, name)];
      assert State() == o.after;
      AddVideoValid(before, path, pathExists);
      return Ok(id);
    }

    /** `add_crop_definition`: the id is the pre-incremented definition counter. */
    method AddCropDefinition(videoId: int, start: int, end: int, step: int,
                             rect: Option<Rect>, description: string) returns (r: Result<int>)
      requires Valid()
      modifies this
      ensures Valid()
      ensures State() == Catalog.AddCropDefinition(old(State()), videoId, start, end, step, rect, description).after
      ensures r == Catalog.AddCropDefinition(old(State()), videoId, start, end, step, rect, description).result
    {
      ghost var o := Catalog.AddCropDefinition(State(), videoId, start, end, step, rect, description);
      AddCropDefinitionSpec(State(), videoId, start, end, step, rect, description);
      if IndexOfVideo(videos, videoId) < 0 {
        return Err(NotFound);
      }
      maxIdDefinition := maxIdDefinition + 1;
      var id := maxIdDefinition;
      definitions := definitions + [CropDefinition(id, videoId, description, false, start, end, step, rect)];
      assert State() == o.after;
      return Ok(id);
    }

    /**
     * `remove_crop_definition`: when the definition is done, its images are
     * deleted one row at a time; then the definition row is deleted.
     */
    method RemoveCropDefinition(id: int) returns (r: Result<bool>)
      requires Valid()
      modifies this
      ensures Valid()
      ensures State() == Catalog.RemoveCropDefinition(old(State()), id).after
      ensures r == Catalog.RemoveCropDefinition(old(State()), id).result
    {
      ghost var o := Catalog.RemoveCropDefinition(State(), id);
      RemoveCropDefinitionValid(State(), id);
      var k := IndexOfDefinition(definitions, id);
      if k < 0 {
        return Err(NotFound);
      }
      var remaining := images;
      if definitions[k].done {
        remaining := DeleteImagesOf(images, id);
      }
      images, definitions := remaining, DefinitionsExcept(definitions, id);
      assert State() == o.after;
      return Ok(true);
    }

    /**
     * The deletion loop of `remove_crop_definition`: every image row of
     * definition `id` is dropped, the others are kept in order.
     */
    static method DeleteImagesOf(rows: seq<Image>, id: int) returns (remaining: seq<Image>)
      ensures remaining == ImagesExcept(rows, id)
      ensures forall m :: m in remaining <==> m in rows && m.definitionId != id
    {
      remaining := [];
      var i := 0;
      while i < |rows|
        invariant 0 <= i <= |rows|
        invariant remaining == ImagesExcept(rows[..i], id)
      {
        ImagesExceptStep(rows, i, id);
        if rows[i].definitionId != id {
          remaining := remaining + [rows[i]];
        }
        i := i + 1;
      }
      assert rows[..|rows|] == rows;
    }

    /**
     * `remove_video`: each definition of the video is removed in turn (with
     * its images), then the video row.
     */
    method RemoveVideo(id: int) returns (r: Result<bool>)
      requires Valid()
      modifies this
      ensures Valid()
      ensures State() == Catalog.RemoveVideo(old(State()), id).after
      ensures r == Catalog.RemoveVideo(old(State()), id).result
    {
      RemoveVideoLeavesNoTrace(State(), id);
      if IndexOfVideo(videos, id) < 0 {
        return Err(NotFound);
      }
      var owned := OwnedDefinitionIds(definitions, id);
      var i := 0;
      while i < |owned|
        invariant 0 <= i <= |owned|
        invariant Valid()
        invariant RemoveCropDefinitions(old(State()), owned) == RemoveCropDefinitions(State(), owned[i..])
      {
        assert owned[i..][0] == owned[i] && owned[i..][1..] == owned[i + 1..];
        var _ := RemoveCropDefinition(owned[i]);
        i := i + 1;
      }
      videos := VideosExcept(videos, id);
      return Ok(true);
    }

    /**
     * The `try` block of `do_crop`: the frames `start, start + step, ...`
     * below `end` are visited with the iteration counter `it`. A frame that
     * decodes gets a name by probing the image table; a still that is
     * written gets the pre-incremented image id. An exception at iteration
     * `failAt` restores the image rows and the image counter saved before
     * the loop, and the run reports that it was rolled back.
     */
    method ExtractFrames(d: CropDefinition, proposed: int -> string, src: VideoSource,
                         start: int, end: int, step: int, failAt: Option<nat>) returns (rolledBack: bool)
      requires step >= 1
      modifies this
      ensures rolledBack <==> failAt.Some? && failAt.value < |Sampled(start, end, step)|
      ensures rolledBack ==> images == old(images) && maxIdImage == old(maxIdImage)
      ensures !rolledBack ==>
        ImageRows(images, maxIdImage) == Extract(ImageRows(old(images), old(maxIdImage)), d, proposed, src, Sampled(start, end, step), 0)
      ensures videos == old(videos) && definitions == old(definitions)
      ensures maxIdVideo == old(maxIdVideo) && maxIdDefinition == old(maxIdDefinition)
    {
      ghost var frames := Sampled(start, end, step);
      ghost var goal := Extract(ImageRows(images, maxIdImage), d, proposed, src, frames, 0);
      var savedImages, savedMaxId := images, maxIdImage;
      var it := 0;
      var idx := start;
      while idx < end
        invariant it + |Sampled(idx, end, step)| == |frames|
        invariant goal == Extract(ImageRows(images, maxIdImage), d, proposed, src, Sampled(idx, end, step), it)
        invariant failAt.Some? ==> it <= failAt.value
        invariant videos == old(videos) && definitions == old(definitions)
        invariant maxIdVideo == old(maxIdVideo) && maxIdDefinition == old(maxIdDefinition)
        invariant savedImages == old(images) && savedMaxId == old(maxIdImage)
        decreases end - idx
      {
        if failAt == Some(it) {
          images, maxIdImage := savedImages, savedMaxId;
          return true;
        }
        ExtractStep(ImageRows(images, maxIdImage), d, proposed, src, idx, end, step, it);
        CropFrameInPlace(d, proposed, src, idx, it);
        it := it + 1;
        idx := idx + step;
      }
      return false;
    }

    /**
     * One iteration of the loop of `do_crop`: a frame that decodes gets a
     * name by probing the image table; a still that is written gets the
     * pre-incremented image id and its image row.
     */
    method CropFrameInPlace(d: CropDefinition, proposed: int -> string, src: VideoSource, index: int, it: nat)
      modifies this
      ensures ImageRows(images, maxIdImage) == CropFrame(ImageRows(old(images), old(maxIdImage)), d, proposed, src, index, it)
      ensures videos == old(videos) && definitions == old(definitions)
      ensures maxIdVideo == old(maxIdVideo) && maxIdDefinition == old(maxIdDefinition)
    {
      if src.readOk(index) {
        var name := ResolveName(proposed(index), ImageNames(images));
        if src.writeOk(index) {
          maxIdImage := maxIdImage + 1;
          images := images + [Image(maxIdImage, d.id, name, it)];
        }
      }
    }

    /**
     * `do_crop`: refuse an unknown definition, do nothing for a done one,
     * make the checks, run the loop, and mark the definition done unless the
     * loop was rolled back.
     */
    method DoCrop(id: int, run: Run) returns (r: Result<bool>)
      requires Valid()
      modifies this
      ensures Valid()
      ensures State() == CropEngine.DoCrop(old(State()), id, run).after
      ensures r == CropEngine.DoCrop(old(State()), id, run).result
    {
      DoCropValid(State(), id, run);
      var k := IndexOfDefinition(definitions, id);
      if k < 0 {
        return Err(NotFound);
      }
      var d := definitions[k];
      if d.done {
        return Ok(true);
      }
      if IndexOfVideo(videos, d.videoId) < 0 {
        return Err(NotFound);
      }
      var src := run.source;
      if !src.isOpen {
        return Err(VideoUnreadable);
      }
      var rect := EffectiveRect(d.rect, src.width, src.height);
      if IsEmptyRegion(rect) {
        return Err(EmptyCropRegion);
      }
      var start, end, step := d.start, Min(d.end, src.frameCount), d.step;
      if start < 0 || step < 1 {
        return Err(InvalidFrameRange);
      }
      var rolledBack := ExtractFrames(d, Proposed(d.videoId, rect), src, start, end, step, run.failAt);
      if !rolledBack {
        definitions := definitions[k := d.(done := true)];
      }
      return Ok(true);
    }

    /**
     * `do_crop_all`: `do_crop` on each definition that is not done when the
     * call starts, in row order; the first error propagates.
     */
    method DoCropAll(runs: int -> Run) returns (r: Result<bool>)
      requires Valid()
      modifies this
      ensures Valid()
      ensures State() == CropEngine.DoCropAll(old(State()), runs).after
      ensures r == CropEngine.DoCropAll(old(State()), runs).result
    {
      var pending := PendingIds(definitions);
      var i := 0;
      while i < |pending|
        invariant 0 <= i <= |pending|
        invariant Valid()
        invariant CropEach(old(State()), pending, runs) == CropEach(State(), pending[i..], runs)
      {
        assert pending[i..][0] == pending[i] && pending[i..][1..] == pending[i + 1..];
        var res := DoCrop(pending[i], runs(pending[i]));
        if res.Err? {
          return res;
        }
        i := i + 1;
      }
      return Ok(true);
    }
  }
}
