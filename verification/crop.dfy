/**
 * The crop engine: `do_crop` and `do_crop_all` as functions on the catalog
 * state. The video decoder and the image writer are not modelled; a
 * VideoSource stands for what they report, and a Run says at which loop
 * iteration, if any, an exception interrupts the extraction.
 */
module CropEngine {
  import opened Wrappers
  import opened Naming
  import opened Frames
  import opened Catalog

  /**
   * What OpenCV reports for the definition's video: whether it opened, its
   * frame count and frame size, which frame indices decode, and for which
   * frame indices the still is written successfully.
   */
  datatype VideoSource = VideoSource(
    isOpen: bool, frameCount: int, width: int, height: int,
    readOk: int -> bool, writeOk: int -> bool)

  /**
   * The outside world during one `do_crop` call: the video source, and the
   * loop iteration at which an exception is raised, if one is.
   */
  datatype Run = Run(source: VideoSource, failAt: Option<nat>)

  /** The image table being extended by a run, with the image id counter. */
  datatype ImageRows = ImageRows(rows: seq<Image>, maxId: int)

  // ---------------------------------------------------------------------
  // Image file names
  // ---------------------------------------------------------------------

  /**
   * The file name proposed for frame `index` of a video cut to rectangle
   * `r`: `{id_video:0>6d}_{idx:0>8d}_{l:0>4d},{t:0>4d},{r:0>4d},{b:0>4d}.jpg`,
   * here split into its stem and the ".jpg" extension.
   */
  function ImageFileName(videoId: int, index: int, r: Rect): string
  {
    ImageStem(videoId, index, r) + ".jpg"
  }

  function ImageStem(videoId: int, index: int, r: Rect): string
  {
    PadField(videoId, 6) + "_" + PadField(index, 8) + "_"
      + PadField(r.left, 4) + "," + PadField(r.top, 4) + ","
      + PadField(r.right, 4) + "," + PadField(r.bottom, 4)
  }

  /**
   * The only split point of a ".jpg" name is the '.' of its extension, so
   * its n-th alternative name is the stem followed by "(n).jpg".
   */
  lemma JpgCandidate(stem: string, n: nat)
    ensures Candidate(stem + ".jpg", n) == stem + "(" + NatToString(n) + ").jpg"
  {
    var name := stem + ".jpg";
    assert name[|stem|] == '.';
    assert forall j :: |stem| < j < |name| ==> name[j] != '.';
    assert RFind(name, '.') == |stem|;
    assert name[..|stem|] == stem && name[|stem|..] == ".jpg";
  }

  /** The alternatives of an image file name keep its stem and extension. */
  lemma ImageCandidateShape(videoId: int, index: int, r: Rect, n: nat)
    ensures Candidate(ImageFileName(videoId, index, r), n)
         == ImageStem(videoId, index, r) + "(" + NatToString(n) + ").jpg"
  {
    JpgCandidate(ImageStem(videoId, index, r), n);
  }

  /** `n` fits a zero-padded field of `width` digits. */
  predicate Fits(n: int, width: nat)
  {
    0 <= n < Pow10(width)
  }

  /** All the numbers of an image file name fit their fields. */
  predicate FieldsFit(videoId: int, index: int, r: Rect)
  {
    && Fits(videoId, 6) && Fits(index, 8)
    && Fits(r.left, 4) && Fits(r.top, 4) && Fits(r.right, 4) && Fits(r.bottom, 4)
  }

  /** Two concatenations whose left parts have the same length agree part by part. */
  lemma SplitAt(x1: string, y1: string, x2: string, y2: string)
    requires x1 + y1 == x2 + y2 && |x1| == |x2|
    ensures x1 == x2 && y1 == y2
  {
    assert x1 == (x1 + y1)[..|x1|] && x2 == (x2 + y2)[..|x2|];
    assert y1 == (x1 + y1)[|x1|..] && y2 == (x2 + y2)[|x2|..];
  }

  /** Two names made of six fields of equal widths, with the separators of an image stem, agree field by field. */
  lemma SplitFields(a1: string, b1: string, c1: string, d1: string, e1: string, f1: string,
                    a2: string, b2: string, c2: string, d2: string, e2: string, f2: string)
    requires |a1| == |a2| && |b1| == |b2| && |c1| == |c2| && |d1| == |d2| && |e1| == |e2|
    requires a1 + "_" + b1 + "_" + c1 + "," + d1 + "," + e1 + "," + f1 == a2 + "_" + b2 + "_" + c2 + "," + d2 + "," + e2 + "," + f2
    ensures a1 == a2 && b1 == b2 && c1 == c2 && d1 == d2 && e1 == e2 && f1 == f2
  {
    SplitAt(a1 + "_" + b1 + "_" + c1 + "," + d1 + "," + e1 + ",", f1, a2 + "_" + b2 + "_" + c2 + "," + d2 + "," + e2 + ",", f2);
    SplitAt(a1 + "_" + b1 + "_" + c1 + "," + d1 + "," + e1, ",", a2 + "_" + b2 + "_" + c2 + "," + d2 + "," + e2, ",");
    SplitAt(a1 + "_" + b1 + "_" + c1 + "," + d1 + ",", e1, a2 + "_" + b2 + "_" + c2 + "," + d2 + ",", e2);
    SplitAt(a1 + "_" + b1 + "_" + c1 + "," + d1, ",", a2 + "_" + b2 + "_" + c2 + "," + d2, ",");
    SplitAt(a1 + "_" + b1 + "_" + c1 + ",", d1, a2 + "_" + b2 + "_" + c2 + ",", d2);
    SplitAt(a1 + "_" + b1 + "_" + c1, ",", a2 + "_" + b2 + "_" + c2, ",");
    SplitAt(a1 + "_" + b1 + "_", c1, a2 + "_" + b2 + "_", c2);
    SplitAt(a1 + "_" + b1, "_", a2 + "_" + b2, "_");
    SplitAt(a1 + "_", b1, a2 + "_", b2);
    SplitAt(a1, "_", a2, "_");
  }

  /** Equal padded fields of numbers that fit hold the same number. */
  lemma FieldInjective(a: int, b: int, width: nat)
    requires 1 <= width && Fits(a, width) && Fits(b, width)
    requires PadField(a, width) == PadField(b, width)
    ensures a == b
  {
    PadFieldRoundTrip(a, width);
    PadFieldRoundTrip(b, width);
  }

  /** When its numbers fit their fields, an image file name is 39 characters long. */
  lemma ImageFileNameLength(videoId: int, index: int, r: Rect)
    requires FieldsFit(videoId, index, r)
    ensures |ImageStem(videoId, index, r)| == 35
    ensures |ImageFileName(videoId, index, r)| == 39
  {
    PadFieldRoundTrip(videoId, 6);
    PadFieldRoundTrip(index, 8);
    PadFieldRoundTrip(r.left, 4);
    PadFieldRoundTrip(r.top, 4);
    PadFieldRoundTrip(r.right, 4);
    PadFieldRoundTrip(r.bottom, 4);
  }

  /**
   * Distinct frames never propose the same file name: when the numbers fit
   * their fields, the name determines the video, the frame index and the
   * rectangle. So a "(n)" suffix is only ever needed when the same frame of
   * the same video is cut to the same rectangle again.
   */
  lemma ImageFileNameInjective(v1: int, i1: int, r1: Rect, v2: int, i2: int, r2: Rect)
    requires FieldsFit(v1, i1, r1) && FieldsFit(v2, i2, r2)
    requires ImageFileName(v1, i1, r1) == ImageFileName(v2, i2, r2)
    ensures v1 == v2 && i1 == i2 && r1 == r2
  {
    ImageFileNameLength(v1, i1, r1);
    ImageFileNameLength(v2, i2, r2);
    SplitAt(ImageStem(v1, i1, r1), ".jpg", ImageStem(v2, i2, r2), ".jpg");
    var a1, b1, c1, d1, e1, f1 := PadField(v1, 6), PadField(i1, 8), PadField(r1.left, 4),
                                  PadField(r1.top, 4), PadField(r1.right, 4), PadField(r1.bottom, 4);
    var a2, b2, c2, d2, e2, f2 := PadField(v2, 6), PadField(i2, 8), PadField(r2.left, 4),
                                  PadField(r2.top, 4), PadField(r2.right, 4), PadField(r2.bottom, 4);
    PadFieldRoundTrip(v1, 6); PadFieldRoundTrip(i1, 8); PadFieldRoundTrip(r1.left, 4);
    PadFieldRoundTrip(r1.top, 4); PadFieldRoundTrip(r1.right, 4); PadFieldRoundTrip(r1.bottom, 4);
    PadFieldRoundTrip(v2, 6); PadFieldRoundTrip(i2, 8); PadFieldRoundTrip(r2.left, 4);
    PadFieldRoundTrip(r2.top, 4); PadFieldRoundTrip(r2.right, 4); PadFieldRoundTrip(r2.bottom, 4);
    SplitFields(a1, b1, c1, d1, e1, f1, a2, b2, c2, d2, e2, f2);
    FieldInjective(v1, v2, 6);
    FieldInjective(i1, i2, 8);
    FieldInjective(r1.left, r2.left, 4);
    FieldInjective(r1.top, r2.top, 4);
    FieldInjective(r1.right, r2.right, 4);
    FieldInjective(r1.bottom, r2.bottom, 4);
  }

  // ---------------------------------------------------------------------
  // The extraction loop
  // ---------------------------------------------------------------------

  /** Frame `index` decodes and its still is written. */
  predicate Extracts(src: VideoSource, index: int)
  {
    src.readOk(index) && src.writeOk(index)
  }

  /** The proposed file name of each frame index, for a video and a crop rectangle. */
  function Proposed(videoId: int, r: Rect): int -> string
  {
    index => ImageFileName(videoId, index, r)
  }

  /**
   * One iteration of the loop of `do_crop`, iteration number `it` on frame
   * `index`, `proposed` giving each frame's file name: a frame that does
   * not decode, or whose still is not written, adds nothing; otherwise one
   * image row is added under the next image id.
   */
  function CropFrame(t: ImageRows, d: CropDefinition, proposed: int -> string, src: VideoSource, index: int, it: nat): (t': ImageRows)
    ensures !Extracts(src, index) ==> t' == t
    ensures Extracts(src, index) ==>
      && t'.maxId == t.maxId + 1
      && |t'.rows| == |t.rows| + 1 && t'.rows[..|t.rows|] == t.rows
      && t'.rows[|t.rows|].id == t.maxId + 1
      && t'.rows[|t.rows|].definitionId == d.id
      && t'.rows[|t.rows|].indexInDefinition == it
  {
    if !src.readOk(index) then t
    else
      var name := Resolve(proposed(index), ImageNames(t.rows));
      if !src.writeOk(index) then t
      else ImageRows(t.rows + [Image(t.maxId + 1, d.id, name, it)], t.maxId + 1)
  }

  /**
   * The name of an added image is not taken by any image before it, and it
   * is the frame's proposed file name whenever that one is free.
   */
  lemma CropFrameName(t: ImageRows, d: CropDefinition, proposed: int -> string, src: VideoSource, index: int, it: nat)
    requires Extracts(src, index)
    ensures var m := CropFrame(t, d, proposed, src, index, it).rows[|t.rows|];
      && m.name !in ImageNames(t.rows)
      && (proposed(index) !in ImageNames(t.rows) ==> m.name == proposed(index))
  {
  }

  /** The loop of `do_crop` over `frames`, the first of them iteration `it`. */
  function Extract(t: ImageRows, d: CropDefinition, proposed: int -> string, src: VideoSource, frames: seq<int>, it: nat): ImageRows
    decreases |frames|
  {
    if frames == [] then t
    else Extract(CropFrame(t, d, proposed, src, frames[0], it), d, proposed, src, frames[1..], it + 1)
  }

  /** The loop over a stepped range is its first iteration followed by the loop over the rest. */
  lemma ExtractStep(t: ImageRows, d: CropDefinition, proposed: int -> string, src: VideoSource,
                    index: int, end: int, step: int, it: nat)
    requires step >= 1 && index < end
    ensures |Sampled(index, end, step)| == 1 + |Sampled(index + step, end, step)|
    ensures Extract(t, d, proposed, src, Sampled(index, end, step), it)
         == Extract(CropFrame(t, d, proposed, src, index, it), d, proposed, src, Sampled(index + step, end, step), it + 1)
  {
    var frames := Sampled(index, end, step);
    assert frames[0] == index && frames[1..] == Sampled(index + step, end, step);
  }

  /** The iteration numbers, from `it` on, whose frame is extracted. */
  function Written(src: VideoSource, frames: seq<int>, it: nat): seq<nat>
    decreases |frames|
  {
    if frames == [] then []
    else (if Extracts(src, frames[0]) then [it] else []) + Written(src, frames[1..], it + 1)
  }

  /**
   * The counter `it` advances on every iteration, skipped or not: the
   * iterations that produce an image are exactly those whose frame decodes
   * and is written.
   */
  lemma {:induction false} WrittenMembers(src: VideoSource, frames: seq<int>, it: nat)
    ensures forall x :: x in Written(src, frames, it) <==>
      it <= x < it + |frames| && Extracts(src, frames[x - it])
    decreases |frames|
  {
    if frames != [] {
      WrittenMembers(src, frames[1..], it + 1);
      var w, w1 := Written(src, frames, it), Written(src, frames[1..], it + 1);
      if Extracts(src, frames[0]) {
        assert w == [it] + w1;
      } else {
        assert w == w1;
      }
      forall x ensures x in w <==> it <= x < it + |frames| && Extracts(src, frames[x - it]) {
        if x != it {
          assert x in w <==> x in w1;
          if it < x < it + |frames| {
            assert frames[x - it] == frames[1..][x - (it + 1)];
          }
        }
      }
    }
  }

  /** No iteration before `it` is counted among those from `it` on. */
  lemma {:induction false} WrittenFrom(src: VideoSource, frames: seq<int>, it: nat)
    ensures forall x | x in Written(src, frames, it) :: it <= x
    decreases |frames|
  {
    if frames != [] {
      WrittenFrom(src, frames[1..], it + 1);
    }
  }

  /** The iterations that produce an image come in strictly increasing order. */
  lemma {:induction false} WrittenIncreasing(src: VideoSource, frames: seq<int>, it: nat)
    ensures forall i, j :: 0 <= i < j < |Written(src, frames, it)| ==>
      Written(src, frames, it)[i] < Written(src, frames, it)[j]
    decreases |frames|
  {
    if frames != [] {
      WrittenIncreasing(src, frames[1..], it + 1);
      var w, w1 := Written(src, frames, it), Written(src, frames[1..], it + 1);
      if Extracts(src, frames[0]) {
        WrittenFrom(src, frames[1..], it + 1);
        assert w == [it] + w1;
        forall i, j | 0 <= i < j < |w| ensures w[i] < w[j] {
          assert w[j] == w1[j - 1] && w1[j - 1] in w1;
          if i > 0 {
            assert w[i] == w1[i - 1];
          }
        }
      } else {
        assert w == w1;
      }
    }
  }

  /**
   * A run appends one row per extracted iteration and changes no earlier
   * row; the counter ends up advanced by the number of rows added.
   */
  lemma {:induction false} ExtractGrows(t: ImageRows, d: CropDefinition, proposed: int -> string, src: VideoSource, frames: seq<int>, it: nat)
    ensures var t' := Extract(t, d, proposed, src, frames, it);
      var w := Written(src, frames, it);
      && |t'.rows| == |t.rows| + |w|
      && t'.rows[..|t.rows|] == t.rows
      && t'.maxId == t.maxId + |w|
    decreases |frames|
  {
    if frames != [] {
      var t1 := CropFrame(t, d, proposed, src, frames[0], it);
      ExtractGrows(t1, d, proposed, src, frames[1..], it + 1);
      var t' := Extract(t1, d, proposed, src, frames[1..], it + 1);
      if Extracts(src, frames[0]) {
        assert t'.rows[..|t.rows|] == t'.rows[..|t1.rows|][..|t.rows|];
      }
    }
  }

  /**
   * The j-th row a run adds has the j-th id after the counter, belongs to
   * the definition and records the j-th extracted iteration number.
   */
  lemma {:induction false} ExtractRow(t: ImageRows, d: CropDefinition, proposed: int -> string, src: VideoSource, frames: seq<int>, it: nat, j: nat)
    requires j < |Written(src, frames, it)|
    ensures var t' := Extract(t, d, proposed, src, frames, it);
      && |t.rows| + j < |t'.rows|
      && IsImageRow(t'.rows[|t.rows| + j], t.maxId + 1 + j, d.id, Written(src, frames, it)[j])
    decreases |frames|
  {
    var t1 := CropFrame(t, d, proposed, src, frames[0], it);
    ExtractFirst(t, d, proposed, src, frames, it);
    if Extracts(src, frames[0]) && j > 0 {
      ExtractRow(t1, d, proposed, src, frames[1..], it + 1, j - 1);
    } else if !Extracts(src, frames[0]) {
      ExtractRow(t1, d, proposed, src, frames[1..], it + 1, j);
    }
  }

  /** Row `p` of `rows` is named by resolving `name` against the rows before it. */
  predicate NamedAt(rows: seq<Image>, p: int, name: string)
  {
    0 <= p < |rows| && rows[p].name == Resolve(name, ImageNames(rows[..p]))
  }

  /**
   * The j-th row a run adds is named after the frame of its iteration: the
   * frame's proposed name resolved against every row before it, including
   * the rows added earlier in the same run.
   */
  lemma {:induction false} ExtractRowName(t: ImageRows, d: CropDefinition, proposed: int -> string, src: VideoSource, frames: seq<int>, it: nat, j: nat)
    requires j < |Written(src, frames, it)|
    ensures var x := Written(src, frames, it)[j];
      && it <= x < it + |frames|
      && NamedAt(Extract(t, d, proposed, src, frames, it).rows, |t.rows| + j, proposed(frames[x - it]))
    decreases |frames|
  {
    if Extracts(src, frames[0]) && j == 0 {
      ExtractHeadName(t, d, proposed, src, frames, it);
    } else {
      var t1 := CropFrame(t, d, proposed, src, frames[0], it);
      var j1 := if Extracts(src, frames[0]) then j - 1 else j;
      ExtractPastHead(t, d, proposed, src, frames, it, j);
      ExtractRowName(t1, d, proposed, src, frames[1..], it + 1, j1);
      var x := Written(src, frames[1..], it + 1)[j1];
      assert frames[1..][x - (it + 1)] == frames[x - it];
    }
  }

  /** A run whose first frame is extracted names its first new row after that frame. */
  lemma ExtractHeadName(t: ImageRows, d: CropDefinition, proposed: int -> string, src: VideoSource, frames: seq<int>, it: nat)
    requires frames != [] && Extracts(src, frames[0])
    ensures Written(src, frames, it)[0] == it
    ensures NamedAt(Extract(t, d, proposed, src, frames, it).rows, |t.rows|, proposed(frames[0]))
  {
    var t1 := CropFrame(t, d, proposed, src, frames[0], it);
    var t' := Extract(t1, d, proposed, src, frames[1..], it + 1);
    var p := |t.rows|;
    assert Extract(t, d, proposed, src, frames, it) == t';
    ExtractGrows(t1, d, proposed, src, frames[1..], it + 1);
    CropFrameResolves(t, d, proposed, src, frames[0], it);
    assert t'.rows[p] == t'.rows[..|t1.rows|][p] == t1.rows[p];
    assert t'.rows[..p] == t'.rows[..|t1.rows|][..p] == t1.rows[..p] == t.rows;
  }

  /**
   * Any new row of a run other than the first frame's own is a new row of
   * the rest of the run, which starts from the first iteration's result.
   */
  lemma ExtractPastHead(t: ImageRows, d: CropDefinition, proposed: int -> string, src: VideoSource, frames: seq<int>, it: nat, j: nat)
    requires j < |Written(src, frames, it)|
    requires !(Extracts(src, frames[0]) && j == 0)
    ensures var t1 := CropFrame(t, d, proposed, src, frames[0], it);
      var j1 := if Extracts(src, frames[0]) then j - 1 else j;
      && j1 < |Written(src, frames[1..], it + 1)|
      && |t1.rows| + j1 == |t.rows| + j
      && Written(src, frames[1..], it + 1)[j1] == Written(src, frames, it)[j]
      && Extract(t1, d, proposed, src, frames[1..], it + 1) == Extract(t, d, proposed, src, frames, it)
  {
    var w, w1 := Written(src, frames, it), Written(src, frames[1..], it + 1);
    if Extracts(src, frames[0]) {
      assert w == [it] + w1;
    } else {
      assert w == w1;
    }
  }

  /** An extracted frame's row is named by resolving its proposed name against the rows before it. */
  lemma CropFrameResolves(t: ImageRows, d: CropDefinition, proposed: int -> string, src: VideoSource, index: int, it: nat)
    requires Extracts(src, index)
    ensures CropFrame(t, d, proposed, src, index, it).rows[|t.rows|].name == Resolve(proposed(index), ImageNames(t.rows))
  {
  }

  /**
   * The first iteration of a run: the rest of the run starts from its
   * result, and an extracted first frame gives the run's first new row.
   */
  lemma ExtractFirst(t: ImageRows, d: CropDefinition, proposed: int -> string, src: VideoSource, frames: seq<int>, it: nat)
    requires frames != []
    ensures var t1 := CropFrame(t, d, proposed, src, frames[0], it);
      var w, w1 := Written(src, frames, it), Written(src, frames[1..], it + 1);
      && Extract(t, d, proposed, src, frames, it) == Extract(t1, d, proposed, src, frames[1..], it + 1)
      && (Extracts(src, frames[0]) ==>
            && w == [it] + w1
            && |t.rows| < |Extract(t, d, proposed, src, frames, it).rows|
            && IsImageRow(Extract(t, d, proposed, src, frames, it).rows[|t.rows|], t.maxId + 1, d.id, it))
      && (!Extracts(src, frames[0]) ==> w == w1 && t1 == t)
  {
    var t1 := CropFrame(t, d, proposed, src, frames[0], it);
    var t' := Extract(t1, d, proposed, src, frames[1..], it + 1);
    ExtractGrows(t1, d, proposed, src, frames[1..], it + 1);
    if Extracts(src, frames[0]) {
      assert t'.rows[|t.rows|] == t'.rows[..|t1.rows|][|t.rows|];
    }
  }

  /**
   * A run keeps the image table ordered by id with unique names, and the
   * counter at least every id in it.
   */
  lemma {:induction false} ExtractOrdered(t: ImageRows, d: CropDefinition, proposed: int -> string, src: VideoSource, frames: seq<int>, it: nat)
    requires Ordered(t.rows, ImageBefore)
    requires forall m | m in t.rows :: m.id <= t.maxId
    ensures var t' := Extract(t, d, proposed, src, frames, it);
      && Ordered(t'.rows, ImageBefore)
      && forall m | m in t'.rows :: m.id <= t'.maxId
    decreases |frames|
  {
    if frames != [] {
      var t1 := CropFrame(t, d, proposed, src, frames[0], it);
      if Extracts(src, frames[0]) {
        var m := t1.rows[|t.rows|];
        CropFrameName(t, d, proposed, src, frames[0], it);
        assert t1.rows == t.rows + [m];
        forall i | 0 <= i < |t.rows| ensures ImageBefore(t.rows[i], m) {
          assert t.rows[i] in t.rows;
        }
        OrderedAppend(t.rows, m, ImageBefore);
      }
      ExtractOrdered(t1, d, proposed, src, frames[1..], it + 1);
    }
  }

  // ---------------------------------------------------------------------
  // do_crop
  // ---------------------------------------------------------------------

  /** The frame indices a definition samples from a video of `src`'s length. */
  function FramesOf(d: CropDefinition, src: VideoSource): seq<int>
    requires d.step >= 1
  {
    Sampled(d.start, Min(d.end, src.frameCount), d.step)
  }

  /**
   * `do_crop`: refuse an unknown definition; do nothing for a done one;
   * refuse a video that does not open, an empty clipped rectangle, or a bad
   * frame range before reading any frame; then run the loop. An exception
   * inside the loop rolls the run back (image rows and image counter) and
   * the call still reports success; otherwise the definition becomes done.
   */
  function DoCrop(s: AlbumState, id: int, run: Run): Outcome<bool>
  {
    var k := IndexOfDefinition(s.definitions, id);
    if k < 0 then Outcome(s, Err(NotFound))
    else
      var d := s.definitions[k];
      var src := run.source;
      if d.done then Outcome(s, Ok(true))
      else if d.videoId !in VideoIds(s.videos) then Outcome(s, Err(NotFound))
      else if !src.isOpen then Outcome(s, Err(VideoUnreadable))
      else
        var r := EffectiveRect(d.rect, src.width, src.height);
        if IsEmptyRegion(r) then Outcome(s, Err(EmptyCropRegion))
        else if d.start < 0 || d.step < 1 then Outcome(s, Err(InvalidFrameRange))
        else
          var frames := Sampled(d.start, Min(d.end, src.frameCount), d.step);
          if run.failAt.Some? && run.failAt.value < |frames| then Outcome(s, Ok(true))
          else
            var t := Extract(ImageRows(s.images, s.maxIdImage), d, Proposed(d.videoId, r), src, frames, 0);
            Outcome(s.(images := t.rows, maxIdImage := t.maxId,
                       definitions := s.definitions[k := d.(done := true)]), Ok(true))
  }

  /** The checks `do_crop` makes before its loop fail for this definition. */
  predicate Refuses(d: CropDefinition, src: VideoSource)
  {
    || !src.isOpen
    || IsEmptyRegion(EffectiveRect(d.rect, src.width, src.height))
    || d.start < 0 || d.step < 1
  }

  /** The loop runs to its end: the checks pass and no exception is raised in it. */
  predicate Completes(d: CropDefinition, run: Run)
  {
    && !Refuses(d, run.source)
    && !(run.failAt.Some? && run.failAt.value < |FramesOf(d, run.source)|)
  }

  /** Image row `m` has id `id`, belongs to definition `definitionId` and records loop iteration `it`. */
  predicate IsImageRow(m: Image, id: int, definitionId: int, it: int)
  {
    m.id == id && m.definitionId == definitionId && m.indexInDefinition == it
  }

  /** A definition after `do_crop` ran on it with `run`. */
  function Settle(d: CropDefinition, run: Run): CropDefinition
  {
    d.(done := d.done || Completes(d, run))
  }

  /** A done definition is left alone: `do_crop` reports success and changes nothing. */
  lemma DoCropDoneIsNoOp(s: AlbumState, k: int, run: Run)
    requires Valid(s) && 0 <= k < |s.definitions| && s.definitions[k].done
    ensures DoCrop(s, s.definitions[k].id, run) == Outcome(s, Ok(true))
  {
    var k' := IndexOfDefinition(s.definitions, s.definitions[k].id);
    DefinitionIdsUnique(s.definitions, k, k');
  }

  /** An id no stored definition has is refused, and nothing changes. */
  lemma DoCropUnknownId(s: AlbumState, id: int, run: Run)
    requires id !in DefinitionIds(s.definitions)
    ensures DoCrop(s, id, run) == Outcome(s, Err(NotFound))
  {
  }

  /**
   * `do_crop` on an unfinished definition of a valid album. It raises exactly
   * when the pre-loop checks refuse, and then changes nothing. Otherwise the
   * only definition change is its `done` flag, set exactly when the loop
   * completed, and a rolled-back run leaves the catalog and the image
   * counter as they were.
   */
  lemma DoCropSpec(s: AlbumState, k: int, run: Run)
    requires Valid(s) && 0 <= k < |s.definitions| && !s.definitions[k].done
    ensures var d := s.definitions[k];
      var o := DoCrop(s, d.id, run);
      && (o.result.Err? <==> Refuses(d, run.source))
      && (o.result.Err? ==> o.after == s)
      && (o.result.Ok? ==> o.result.value)
      && o.after.videos == s.videos
      && o.after.definitions == s.definitions[k := Settle(d, run)]
      && (!Completes(d, run) ==> o.after == s.(definitions := o.after.definitions))
  {
    var d := s.definitions[k];
    var k' := IndexOfDefinition(s.definitions, d.id);
    DefinitionIdsUnique(s.definitions, k, k');
    assert d.videoId in VideoIds(s.videos);
    if !Completes(d, run) {
      assert s.definitions[k := Settle(d, run)] == s.definitions;
    }
  }

  /** A completed `do_crop` leaves the image rows and counter of its extraction loop. */
  lemma DoCropExtracts(s: AlbumState, k: int, run: Run)
    requires Valid(s) && 0 <= k < |s.definitions| && !s.definitions[k].done
    requires Completes(s.definitions[k], run)
    ensures var d := s.definitions[k];
      var r := EffectiveRect(d.rect, run.source.width, run.source.height);
      var t := Extract(ImageRows(s.images, s.maxIdImage), d, Proposed(d.videoId, r), run.source, FramesOf(d, run.source), 0);
      var o := DoCrop(s, d.id, run);
      o.after.images == t.rows && o.after.maxIdImage == t.maxId
  {
    var d := s.definitions[k];
    var k' := IndexOfDefinition(s.definitions, d.id);
    DefinitionIdsUnique(s.definitions, k, k');
    assert d.videoId in VideoIds(s.videos);
  }

  /**
   * `after` is `before` with one row appended per entry of `its`: the new
   * rows' ids continue the counter `maxId`, they belong to definition
   * `definitionId`, the j-th records iteration `its[j]`, and the counter
   * ends at the last new id.
   */
  predicate Appended(before: seq<Image>, maxId: int, after: seq<Image>, maxId': int, definitionId: int, its: seq<nat>)
  {
    && |after| == |before| + |its|
    && after[..|before|] == before
    && maxId' == maxId + |its|
    && forall j :: 0 <= j < |its| ==> IsImageRow(after[|before| + j], maxId + 1 + j, definitionId, its[j])
  }

  /**
   * The rows appended after `before` are named in order: the j-th is the
   * proposed name of the frame of iteration `its[j]`, resolved against every
   * row before it.
   */
  predicate NamedInOrder(before: seq<Image>, after: seq<Image>, proposed: int -> string, frames: seq<int>, its: seq<nat>)
  {
    forall j :: 0 <= j < |its| ==> its[j] < |frames| && NamedAt(after, |before| + j, proposed(frames[its[j]]))
  }

  /**
   * A completed `do_crop` appends one image per extracted frame and changes
   * no earlier image: the new images' ids continue the image counter, they
   * belong to the definition, and each records its loop iteration number as
   * `index_in_definition`.
   */
  lemma DoCropAppends(s: AlbumState, k: int, run: Run)
    requires Valid(s) && 0 <= k < |s.definitions| && !s.definitions[k].done
    requires Completes(s.definitions[k], run)
    ensures var d := s.definitions[k];
      var o := DoCrop(s, d.id, run);
      var w := Written(run.source, FramesOf(d, run.source), 0);
      && Appended(s.images, s.maxIdImage, o.after.images, o.after.maxIdImage, d.id, w)
      && NamedInOrder(s.images, o.after.images,
                      Proposed(d.videoId, EffectiveRect(d.rect, run.source.width, run.source.height)),
                      FramesOf(d, run.source), w)
  {
    var d := s.definitions[k];
    var src := run.source;
    var r := EffectiveRect(d.rect, src.width, src.height);
    DoCropExtracts(s, k, run);
    ExtractAppends(ImageRows(s.images, s.maxIdImage), d, Proposed(d.videoId, r), src, FramesOf(d, src));
    ExtractNames(ImageRows(s.images, s.maxIdImage), d, Proposed(d.videoId, r), src, FramesOf(d, src));
  }

  /** A whole run from iteration 0 names its rows in order. */
  lemma ExtractNames(t: ImageRows, d: CropDefinition, proposed: int -> string, src: VideoSource, frames: seq<int>)
    ensures var t' := Extract(t, d, proposed, src, frames, 0);
      NamedInOrder(t.rows, t'.rows, proposed, frames, Written(src, frames, 0))
  {
    var t' := Extract(t, d, proposed, src, frames, 0);
    var w := Written(src, frames, 0);
    forall j | 0 <= j < |w|
      ensures w[j] < |frames| && NamedAt(t'.rows, |t.rows| + j, proposed(frames[w[j]]))
    {
      ExtractRowName(t, d, proposed, src, frames, 0, j);
      assert w[j] - 0 == w[j];
    }
  }

  /** A whole run from iteration 0 appends one row per extracted iteration. */
  lemma ExtractAppends(t: ImageRows, d: CropDefinition, proposed: int -> string, src: VideoSource, frames: seq<int>)
    ensures var t' := Extract(t, d, proposed, src, frames, 0);
      Appended(t.rows, t.maxId, t'.rows, t'.maxId, d.id, Written(src, frames, 0))
  {
    ExtractGrows(t, d, proposed, src, frames, 0);
    forall j | 0 <= j < |Written(src, frames, 0)|
      ensures IsImageRow(Extract(t, d, proposed, src, frames, 0).rows[|t.rows| + j], t.maxId + 1 + j, d.id, Written(src, frames, 0)[j])
    {
      ExtractRow(t, d, proposed, src, frames, 0, j);
    }
  }

  /** Every row after a run was there before or belongs to the definition. */
  lemma {:induction false} ExtractProvenance(t: ImageRows, d: CropDefinition, proposed: int -> string, src: VideoSource, frames: seq<int>, it: nat)
    ensures forall m | m in Extract(t, d, proposed, src, frames, it).rows :: m in t.rows || m.definitionId == d.id
    decreases |frames|
  {
    if frames != [] {
      var t1 := CropFrame(t, d, proposed, src, frames[0], it);
      ExtractProvenance(t1, d, proposed, src, frames[1..], it + 1);
      if Extracts(src, frames[0]) {
        assert t1.rows == t.rows + [t1.rows[|t.rows|]];
      }
    }
  }

  /**
   * Marking definition k done while replacing the image table by one that
   * is ordered, within a counter not lowered, and whose new rows all belong
   * to definition k, keeps the album valid.
   */
  lemma MarkDoneValid(s: AlbumState, k: int, ms: seq<Image>, maxId: int)
    requires Valid(s) && 0 <= k < |s.definitions|
    requires Ordered(ms, ImageBefore) && s.maxIdImage <= maxId
    requires forall m | m in ms :: m.id <= maxId
    requires forall m | m in ms :: m in s.images || m.definitionId == s.definitions[k].id
    ensures Valid(s.(images := ms, maxIdImage := maxId,
                     definitions := s.definitions[k := s.definitions[k].(done := true)]))
  {
    var d := s.definitions[k];
    var ds' := s.definitions[k := d.(done := true)];
    assert Ordered(ds', DefinitionBefore) by {
      forall i, j | 0 <= i < j < |ds'| ensures DefinitionBefore(ds'[i], ds'[j]) {
        assert ds'[i].id == s.definitions[i].id && ds'[j].id == s.definitions[j].id;
      }
    }
    assert DoneIds(s.definitions) <= DoneIds(ds') by {
      forall x | x in DoneIds(s.definitions) ensures x in DoneIds(ds') {
        var e :| e in s.definitions && e.done && e.id == x;
        var i :| 0 <= i < |s.definitions| && s.definitions[i] == e;
        assert ds'[i] == e;
      }
    }
    assert ds'[k] in ds';
    assert d.id in DoneIds(ds');
    forall e | e in ds' ensures e.videoId in VideoIds(s.videos) && e.id <= s.maxIdDefinition {
      var i :| 0 <= i < |ds'| && ds'[i] == e;
      assert s.definitions[i] in s.definitions;
    }
  }

  /**
   * `do_crop` keeps the album valid, never lowers a counter, leaves the
   * videos alone and only appends images.
   */
  lemma DoCropValid(s: AlbumState, id: int, run: Run)
    requires Valid(s)
    ensures Valid(DoCrop(s, id, run).after)
    ensures CountersKept(s, DoCrop(s, id, run).after)
    ensures DoCrop(s, id, run).after.videos == s.videos
    ensures |s.images| <= |DoCrop(s, id, run).after.images|
    ensures DoCrop(s, id, run).after.images[..|s.images|] == s.images
  {
    var o := DoCrop(s, id, run);
    var k := IndexOfDefinition(s.definitions, id);
    if k >= 0 && o.after != s {
      var d := s.definitions[k];
      var src := run.source;
      var r := EffectiveRect(d.rect, src.width, src.height);
      var proposed := Proposed(d.videoId, r);
      var frames := FramesOf(d, src);
      var t0 := ImageRows(s.images, s.maxIdImage);
      var t := Extract(t0, d, proposed, src, frames, 0);
      ExtractGrows(t0, d, proposed, src, frames, 0);
      ExtractOrdered(t0, d, proposed, src, frames, 0);
      ExtractProvenance(t0, d, proposed, src, frames, 0);
      MarkDoneValid(s, k, t.rows, t.maxId);
      assert o.after == s.(images := t.rows, maxIdImage := t.maxId,
                           definitions := s.definitions[k := d.(done := true)]);
    }
  }

  /** Once a run has completed, `do_crop` on the same definition is a no-op whatever happens. */
  lemma DoCropIdempotent(s: AlbumState, k: int, run: Run, again: Run)
    requires Valid(s) && 0 <= k < |s.definitions| && Completes(s.definitions[k], run)
    ensures var o := DoCrop(s, s.definitions[k].id, run);
      DoCrop(o.after, s.definitions[k].id, again) == Outcome(o.after, Ok(true))
  {
    var d := s.definitions[k];
    var o := DoCrop(s, d.id, run);
    if !d.done {
      DoCropSpec(s, k, run);
    }
    DoCropValid(s, d.id, run);
    assert o.after.definitions[k].done;
    DoCropDoneIsNoOp(o.after, k, again);
  }

  // ---------------------------------------------------------------------
  // do_crop_all
  // ---------------------------------------------------------------------

  /** The ids of the definitions not yet done, in row order. */
  function PendingIds(ds: seq<CropDefinition>): seq<int>
  {
    DefinitionIdList(Keep(ds, (d: CropDefinition) => !d.done))
  }

  /** The pending ids are the ids of exactly the definitions not yet done. */
  lemma PendingIdsMembers(ds: seq<CropDefinition>)
    ensures forall x :: x in PendingIds(ds) <==> exists d :: d in ds && !d.done && d.id == x
  {
    var kept := Keep(ds, (d: CropDefinition) => !d.done);
    var pending := PendingIds(ds);
    forall x ensures x in pending <==> exists d :: d in ds && !d.done && d.id == x {
      if x in pending {
        var i :| 0 <= i < |pending| && pending[i] == x;
        assert kept[i] in kept;
      }
      if exists d :: d in ds && !d.done && d.id == x {
        var d :| d in ds && !d.done && d.id == x;
        assert d in kept;
        var i :| 0 <= i < |kept| && kept[i] == d;
        assert pending[i] == x;
      }
    }
  }

  /** In a table ordered by id, each pending id occurs once. */
  lemma PendingIdsDistinct(ds: seq<CropDefinition>)
    requires Ordered(ds, DefinitionBefore)
    ensures var pending := PendingIds(ds);
      forall i, j :: 0 <= i < j < |pending| ==> pending[i] < pending[j]
  {
    var kept := Keep(ds, (d: CropDefinition) => !d.done);
    KeepOrdered(ds, (d: CropDefinition) => !d.done, DefinitionBefore);
    var pending := PendingIds(ds);
    forall i, j | 0 <= i < j < |pending| ensures pending[i] < pending[j] {
      assert DefinitionBefore(kept[i], kept[j]);
    }
  }

  lemma PendingIdsListed(s: AlbumState)
    requires Valid(s)
    ensures PendingList(s, PendingIds(s.definitions))
  {
    var pending := PendingIds(s.definitions);
    PendingIdsMembers(s.definitions);
    PendingIdsDistinct(s.definitions);
    forall x | x in pending
      ensures exists k :: 0 <= k < |s.definitions| && s.definitions[k].id == x && !s.definitions[k].done
    {
      var d :| d in s.definitions && !d.done && d.id == x;
      var k :| 0 <= k < |s.definitions| && s.definitions[k] == d;
    }
  }

  /** `do_crop` on each id in turn; an error stops the remaining ones. */
  function CropEach(s: AlbumState, ids: seq<int>, runs: int -> Run): Outcome<bool>
    decreases |ids|
  {
    if ids == [] then Outcome(s, Ok(true))
    else
      var o := DoCrop(s, ids[0], runs(ids[0]));
      if o.result.Err? then o else CropEach(o.after, ids[1..], runs)
  }

  /** `do_crop_all`: run every definition that is not done, `runs` giving each one's run. */
  function DoCropAll(s: AlbumState, runs: int -> Run): Outcome<bool>
  {
    CropEach(s, PendingIds(s.definitions), runs)
  }

  /** The definitions after the ones with ids in `ran` were cropped. */
  ghost predicate SettledExactly(before: seq<CropDefinition>, after: seq<CropDefinition>, ran: seq<int>, runs: int -> Run)
  {
    |after| == |before| &&
    forall i :: 0 <= i < |before| ==>
      after[i] == if before[i].id in ran then Settle(before[i], runs(before[i].id)) else before[i]
  }

  /**
   * The run over `ids` stopped at some position p: the definition with id
   * `ids[p]` was refused by the checks, and exactly the ones before it were
   * settled.
   */
  ghost predicate StoppedAt(before: seq<CropDefinition>, after: seq<CropDefinition>, ids: seq<int>, runs: int -> Run)
  {
    exists p ::
      && 0 <= p < |ids|
      && (exists k :: 0 <= k < |before| && before[k].id == ids[p] && Refuses(before[k], runs(ids[p]).source))
      && SettledExactly(before, after, ids[..p], runs)
  }

  ghost predicate PendingList(s: AlbumState, ids: seq<int>)
  {
    && (forall i, j :: 0 <= i < j < |ids| ==> ids[i] != ids[j])
    && (forall x | x in ids :: exists k :: 0 <= k < |s.definitions| && s.definitions[k].id == x && !s.definitions[k].done)
  }

  /**
   * Cropping a list of definitions keeps the album valid, never lowers a
   * counter, leaves the videos alone and only appends images.
   */
  lemma {:induction false} CropEachValid(s: AlbumState, ids: seq<int>, runs: int -> Run)
    requires Valid(s)
    ensures var o := CropEach(s, ids, runs);
      && Valid(o.after) && CountersKept(s, o.after)
      && o.after.videos == s.videos
      && |s.images| <= |o.after.images| && o.after.images[..|s.images|] == s.images
    decreases |ids|
  {
    if ids != [] {
      var o1 := DoCrop(s, ids[0], runs(ids[0]));
      DoCropValid(s, ids[0], runs(ids[0]));
      if o1.result.Ok? {
        var s1 := o1.after;
        CropEachValid(s1, ids[1..], runs);
        var o := CropEach(s1, ids[1..], runs);
        assert o.after.images[..|s1.images|][..|s.images|] == o.after.images[..|s.images|];
      }
    }
  }

  /**
   * Settling row k, whose id heads a list of distinct ids, and then the
   * rows with the next p ids of the list, settles the rows with its first
   * p + 1 ids.
   */
  lemma SettleFirst(before: seq<CropDefinition>, mid: seq<CropDefinition>, after: seq<CropDefinition>,
                    k: int, ids: seq<int>, p: nat, runs: int -> Run)
    requires 0 <= k < |before| && p < |ids| && before[k].id == ids[0]
    requires forall i, j :: 0 <= i < j < |ids| ==> ids[i] != ids[j]
    requires Ordered(before, DefinitionBefore)
    requires mid == before[k := Settle(before[k], runs(before[k].id))]
    requires SettledExactly(mid, after, ids[1..][..p], runs)
    ensures SettledExactly(before, after, ids[..p + 1], runs)
  {
    assert ids[..p + 1] == [ids[0]] + ids[1..][..p];
    forall i | 0 <= i < |before|
      ensures after[i] == if before[i].id in ids[..p + 1]
                          then Settle(before[i], runs(before[i].id)) else before[i]
    {
      if i != k {
        assert mid[i] == before[i];
        if before[i].id == ids[0] {
          DefinitionIdsUnique(before, i, k);
        }
      } else {
        assert ids[0] !in ids[1..][..p];
      }
    }
  }

  /** A run that stopped after the head of the list was settled stopped for the whole list too. */
  lemma StoppedLater(before: seq<CropDefinition>, mid: seq<CropDefinition>, after: seq<CropDefinition>,
                     k: int, ids: seq<int>, runs: int -> Run)
    requires 0 <= k < |before| && ids != [] && before[k].id == ids[0]
    requires forall i, j :: 0 <= i < j < |ids| ==> ids[i] != ids[j]
    requires Ordered(before, DefinitionBefore)
    requires mid == before[k := Settle(before[k], runs(before[k].id))]
    requires StoppedAt(mid, after, ids[1..], runs)
    ensures StoppedAt(before, after, ids, runs)
  {
    var rest := ids[1..];
    var p :| && 0 <= p < |rest|
             && (exists k2 :: 0 <= k2 < |mid| && mid[k2].id == rest[p] && Refuses(mid[k2], runs(rest[p]).source))
             && SettledExactly(mid, after, rest[..p], runs);
    var k2 :| 0 <= k2 < |mid| && mid[k2].id == rest[p] && Refuses(mid[k2], runs(rest[p]).source);
    assert ids[p + 1] == rest[p];
    assert ids[0] != ids[p + 1];
    assert k2 != k && before[k2] == mid[k2];
    SettleFirst(before, mid, after, k, ids, p, runs);
  }

  /** After row k is settled, the other ids of a pending list are still pending. */
  lemma PendingListTail(s: AlbumState, s1: AlbumState, k: int, ids: seq<int>)
    requires PendingList(s, ids) && ids != [] && 0 <= k < |s.definitions| && s.definitions[k].id == ids[0]
    requires |s1.definitions| == |s.definitions|
    requires forall i :: 0 <= i < |s.definitions| && i != k ==> s1.definitions[i] == s.definitions[i]
    ensures PendingList(s1, ids[1..])
  {
    forall x | x in ids[1..]
      ensures exists k1 :: 0 <= k1 < |s1.definitions| && s1.definitions[k1].id == x && !s1.definitions[k1].done
    {
      assert x in ids;
      var k1 :| 0 <= k1 < |s.definitions| && s.definitions[k1].id == x && !s.definitions[k1].done;
      assert x != ids[0];
      assert s1.definitions[k1] == s.definitions[k1];
    }
  }

  /** A list whose head is refused stops at once, with nothing settled. */
  lemma StoppedAtHead(ds: seq<CropDefinition>, ids: seq<int>, runs: int -> Run, k: int)
    requires ids != [] && 0 <= k < |ds| && ds[k].id == ids[0] && Refuses(ds[k], runs(ids[0]).source)
    ensures StoppedAt(ds, ds, ids, runs)
  {
    assert SettledExactly(ds, ds, ids[..0], runs);
  }

  /**
   * The first `do_crop` of a pending list, when it succeeds, settles the
   * head's row k, and the rest of the list is still pending.
   */
  lemma CropEachHead(s: AlbumState, ids: seq<int>, runs: int -> Run) returns (k: int)
    requires Valid(s) && PendingList(s, ids) && ids != []
    ensures 0 <= k < |s.definitions| && s.definitions[k].id == ids[0]
    ensures var o1 := DoCrop(s, ids[0], runs(ids[0]));
      o1.result.Ok? ==>
        && o1.result.value
        && o1.after.definitions == s.definitions[k := Settle(s.definitions[k], runs(ids[0]))]
        && PendingList(o1.after, ids[1..])
  {
    assert ids[0] in ids;
    k :| 0 <= k < |s.definitions| && s.definitions[k].id == ids[0] && !s.definitions[k].done;
    var run := runs(ids[0]);
    var o1 := DoCrop(s, ids[0], run);
    DoCropSpec(s, k, run);
    if o1.result.Ok? {
      PendingListTail(s, o1.after, k, ids);
    }
  }

  /** The first `do_crop` of a pending list, when it raises, stops the list there. */
  lemma CropEachHeadRefused(s: AlbumState, ids: seq<int>, runs: int -> Run)
    requires Valid(s) && PendingList(s, ids) && ids != []
    ensures var o1 := DoCrop(s, ids[0], runs(ids[0]));
      o1.result.Err? ==> StoppedAt(s.definitions, o1.after.definitions, ids, runs)
  {
    assert ids[0] in ids;
    var k :| 0 <= k < |s.definitions| && s.definitions[k].id == ids[0] && !s.definitions[k].done;
    var run := runs(ids[0]);
    DoCropSpec(s, k, run);
    if DoCrop(s, ids[0], run).result.Err? {
      StoppedAtHead(s.definitions, ids, runs, k);
    }
  }

  /**
   * Cropping a list of distinct unfinished definitions without an error
   * settles every one of them.
   */
  lemma {:induction false} CropEachSettles(s: AlbumState, ids: seq<int>, runs: int -> Run)
    requires Valid(s) && PendingList(s, ids)
    ensures var o := CropEach(s, ids, runs);
      o.result.Ok? ==> o.result.value && SettledExactly(s.definitions, o.after.definitions, ids, runs)
    decreases |ids|
  {
    var o := CropEach(s, ids, runs);
    if ids == [] {
      assert SettledExactly(s.definitions, o.after.definitions, ids, runs);
    } else {
      var k := CropEachHead(s, ids, runs);
      var o1 := DoCrop(s, ids[0], runs(ids[0]));
      if o1.result.Ok? {
        DoCropValid(s, ids[0], runs(ids[0]));
        var s1 := o1.after;
        var rest := ids[1..];
        CropEachSettles(s1, rest, runs);
        assert o == CropEach(s1, rest, runs);
        if o.result.Ok? {
          assert rest[..|rest|] == rest;
          SettleFirst(s.definitions, s1.definitions, o.after.definitions, k, ids, |rest|, runs);
          assert ids[..|rest| + 1] == ids;
        }
      }
    }
  }

  /**
   * Cropping a list of distinct unfinished definitions that ends in an error
   * settled those before the first one the checks refuse, and left that one
   * and the rest untouched.
   */
  lemma {:induction false} CropEachStops(s: AlbumState, ids: seq<int>, runs: int -> Run)
    requires Valid(s) && PendingList(s, ids)
    ensures var o := CropEach(s, ids, runs);
      o.result.Err? ==> StoppedAt(s.definitions, o.after.definitions, ids, runs)
    decreases |ids|
  {
    if ids != [] {
      var o := CropEach(s, ids, runs);
      var k := CropEachHead(s, ids, runs);
      CropEachHeadRefused(s, ids, runs);
      var o1 := DoCrop(s, ids[0], runs(ids[0]));
      if o1.result.Ok? {
        DoCropValid(s, ids[0], runs(ids[0]));
        var s1 := o1.after;
        CropEachStops(s1, ids[1..], runs);
        assert o == CropEach(s1, ids[1..], runs);
        if o.result.Err? {
          StoppedLater(s.definitions, s1.definitions, o.after.definitions, k, ids, runs);
        }
      }
    }
  }

  /**
   * `do_crop_all` runs `do_crop` on exactly the definitions that are not
   * done when it starts, in row order. It keeps the album valid and only
   * appends images. On success every such definition is settled (done when
   * its loop completed) and the rest are untouched; an error raised by the
   * checks of one of them propagates, and the definitions after it are not
   * run.
   */
  lemma DoCropAllSpec(s: AlbumState, runs: int -> Run)
    requires Valid(s)
    ensures var o := DoCropAll(s, runs);
      var pending := PendingIds(s.definitions);
      && Valid(o.after) && CountersKept(s, o.after)
      && o.after.videos == s.videos
      && |s.images| <= |o.after.images| && o.after.images[..|s.images|] == s.images
      && (forall x :: x in pending <==> exists d :: d in s.definitions && !d.done && d.id == x)
      && (o.result.Ok? ==> SettledExactly(s.definitions, o.after.definitions, pending, runs))
      && (o.result.Err? ==> StoppedAt(s.definitions, o.after.definitions, pending, runs))
  {
    PendingIdsMembers(s.definitions);
    PendingIdsListed(s);
    var pending := PendingIds(s.definitions);
    CropEachValid(s, pending, runs);
    CropEachSettles(s, pending, runs);
    CropEachStops(s, pending, runs);
  }
}
