# VideoKnife album: a Dafny model

VideoKnife keeps an *album*: a folder of source videos, a folder of still
images cut from them, and a SQLite catalog with three tables. The tables are:

- `videos`: one row per stored video file.
- `crop_definitions`: a frame range `start:end:step` of a video, an optional pixel rectangle, and a `done` flag.
- `images`: one row per extracted still.

The `Album` class in `database.py` adds and removes videos and crop definitions, and
keeps three in-memory id counters seeded from the tables when the album is
opened. Its `do_crop` runs a definition: it clamps the rectangle to the frame,
samples the frame range, writes one still per frame that decodes and
encodes, and names each file without clobbering an existing one. An
exception inside the loop rolls the run back. `do_crop_all` runs every
definition that is not done yet.

The model has six files, one module each:

| file | module | contents |
|---|---|---|
| `wrappers.dfy` | `Wrappers` | `Option` |
| `naming.dfy` | `Naming` | decimal formatting, zero-padded fields (`f"{x:0>w}"`), `str.rfind`, `os.path.basename`, and the collision resolver used for both video and image names, as a function and as the probing loop |
| `frames.dfy` | `Frames` | the effective rectangle and the sampled frame indices (`range(start, end, step)`) |
| `catalog.dfy` | `Catalog` | the rows, the album state (tables in row order plus counters), the invariant `Valid` the album keeps, and `open`, `add_video`, `remove_video`, `add_crop_definition`, `remove_crop_definition` and the read views as functions from state to state, with their lemmas |
| `crop.dfy` | `CropEngine` | image file names, the extraction loop, `do_crop` and `do_crop_all` as functions, with their lemmas |
| `album.dfy` | `Database` | class `Album` with the tables and counters as fields and every operation as a method that updates them in place, proved to reach exactly the state the matching function describes and to keep `Valid` |

Interaction with the outside world is made explicit:

- Whether the video file exists is the parameter `pathExists` of `AddVideo`.
- What OpenCV reports for a video is a `VideoSource`:
  - whether it opened;
  - the frame count and frame size;
  - which frame indices decode (`readOk`);
  - which stills are written successfully (`writeOk`).
- A `Run` adds the loop iteration at which an exception is raised, if one is (`failAt`).
- `do_crop_all` takes one `Run` per definition id.

## Model

| member | source | states |
|---|---|---|
| Naming.NatToString | database.py:332 | the decimal text of a number is non-empty and all digits, and starts with '0' only for 0 (no leading zeros) |
| Naming.NatToStringRoundTrip | database.py:332 | reading the decimal text back gives the number |
| Naming.NatToStringInjective | database.py:135 | different numbers have different decimal texts, so different `(n)` suffixes |
| Naming.PadFieldRoundTrip | database.py:332 | a padded field of a non-negative number is all digits, at least `width` long, exactly `width` long when the number fits, and reads back as the number |
| Naming.RFind | database.py:135 | the position of the last occurrence of the character, or -1 when there is none; no later position holds it |
| Naming.BaseName | database.py:129 | the base name contains no '/', is a suffix of the path, and is preceded by '/' whenever it is shorter than the path: exactly what follows the last '/' |
| Naming.CandidateInjective | database.py:135 | alternative names with different numbers differ, so the probing loop never retries a name |
| Naming.FreeSuffix | database.py:133-136 | the suffix number the loop stops at is free, and every number from the start to it is taken |
| Naming.Resolve | database.py:132-137 | the resolved name is not taken, and it is the name itself whenever that one is free |
| Naming.ResolveIsLeastFree | database.py:132-137 | the resolved name is the alternative with the least suffix number that is free |
| Naming.ResolveName | database.py:132-137 | the probing `while` loop returns exactly the resolved name |
| Naming.ResolveExampleWithExtension | database.py:333-338 | "a.jpg" with "a.jpg" and "a(1).jpg" taken resolves to "a(2).jpg" |
| Naming.ResolveExampleWithoutDot | database.py:135 | a name without '.' gets its suffix before its last character: "abc" becomes "ab(1)c" |
| Frames.EffectiveRect | database.py:303-310 | the cut rectangle covers exactly the pixels that are in the frame and in the requested rectangle; it lies within the frame; with no rectangle it is the whole frame |
| Frames.EmptyRegionCoversNothing | database.py:311-314 | the region is refused exactly when it covers no pixel |
| Frames.ClampExample | database.py:303-314 | a rectangle sticking out of an 800x600 frame is clipped to it; a zero-width one is refused |
| Frames.Sampled | database.py:326 | every sampled frame index lies in `[start, end)` |
| Frames.SampledIsRange | database.py:326 | sampled index `i` is `start + i * step`; the last one is below `end` and one more step reaches it |
| Frames.SampledMembers | database.py:326 | an index is sampled exactly when it is in `[start, end)` and a whole number of steps past `start` |
| Catalog.IndexOfVideo | database.py:164-165 | the position of the first video row with the id, or -1 exactly when no row has it |
| Catalog.IndexOfDefinition | database.py:252-253 | the position of the first definition row with the id, or -1 exactly when no row has it |
| Catalog.MaxIdOr | database.py:102-109 | the counter seed is -1 for an empty table, otherwise a stored id at least every stored id |
| Catalog.OpenAlbumValid | database.py:100-111 | opening well-formed tables gives a valid album; each counter is -1 or the largest stored id |
| Catalog.AddVideoSpec | database.py:114-151 | a missing file raises and changes nothing. Otherwise one video row is appended under the pre-incremented counter, an id above every stored one. Its name is not taken and is the base name when that is free. Nothing else changes and the album stays valid |
| Catalog.AddVideoTwiceExample | database.py:129-147 | adding "/a/clip.mp4" and then "/b/clip.mp4" stores "clip.mp4" and "clip(1).mp4" under consecutive ids |
| Catalog.AddCropDefinitionSpec | database.py:185-236 | it raises, changing nothing, exactly when the video is not stored. Otherwise it appends an unfinished definition of that video under the next id, above every stored one. The album stays valid |
| Catalog.NoImagesOfUnfinished | database.py:257-264 | an unfinished definition owns no image rows, so deleting images only when `done` loses nothing |
| Catalog.RemoveCropDefinitionRows | database.py:238-270 | it raises, changing nothing, exactly when the id is unknown. Otherwise exactly that definition row and exactly its images go; videos and counters stay |
| Catalog.RemoveCropDefinitionValid | database.py:238-270 | removing a definition keeps the album valid |
| Catalog.RemoveCropDefinitionsValid | database.py:174-175 | removing a list of definitions in turn keeps the album valid and changes no video and no counter |
| Catalog.RemoveCropDefinitionsRows | database.py:174-175 | after removing a list of definitions, exactly the other definitions and the images of the other definitions remain |
| Catalog.OwnedDefinitionIds | database.py:169-172 | the listed ids are exactly the ids of the video's definitions |
| Catalog.OwnedIdsExact | database.py:169-172 | in a valid album a definition's id is listed exactly when the definition belongs to the video |
| Catalog.RemoveVideoRows | database.py:153-183 | it raises, changing nothing, exactly when the id is unknown. Otherwise exactly that video, its definitions and their images go. No counter goes down |
| Catalog.RemoveVideoLeavesNoTrace | database.py:153-183 | afterwards the album is valid, the video id is gone, and the video's definition and image views are empty |
| Catalog.DefinitionIdNotReused | database.py:207-208 | within one open album, a definition added after another was added and removed gets a larger id, whatever the fields of either definition |
| Catalog.ReopenReusesDefinitionId | database.py:105-106 | when the definition counter is the largest stored definition id (as right after opening), a definition that is added, removed, and added again after a reopen gets the same id both times: an id already issued is issued again |
| Catalog.AddThenRemoveDefinition | database.py:207-208 | removing the definition just added restores every table; only the definition counter stays advanced |
| Catalog.ReopenedAdd | database.py:105-106 | in an album just opened on stored tables, a new definition gets one past the largest stored definition id |
| Catalog.DefinitionByIdSpec | database.py:408-418 | the view returns the one definition with that id, or no row when the id is unknown |
| Catalog.OwnedByVideo | database.py:396-406 | a stored definition's id is among the ids of a video's definitions exactly when the definition belongs to that video |
| Catalog.ImageOfVideo | database.py:429-439 | a stored image is in a video's images exactly when its definition belongs to that video |
| Catalog.ImagesOfVideoOrdered | database.py:429-439 | a video's images are stored images in row order |
| Catalog.ImagesOfDefinitionSpec | database.py:441-451 | a definition's images are exactly the stored images that reference it, in row order; a definition that is not done, or not stored, has none; after the definition is removed its view is empty |
| CropEngine.ImageCandidateShape | database.py:333-338 | the n-th alternative of an image file name is its stem followed by "(n).jpg" |
| CropEngine.ImageFileNameLength | database.py:332 | when the numbers fit their fields, an image file name is 39 characters long |
| CropEngine.ImageFileNameInjective | database.py:332 | when the numbers fit their fields, the file name determines the video, the frame index and the rectangle |
| CropEngine.CropFrame | database.py:327-350 | a frame that does not decode or is not written adds nothing. Otherwise one row is appended under the next image id, for the definition, recording the iteration number |
| CropEngine.CropFrameName | database.py:332-338 | the new image's name is not taken, and it is the proposed name whenever that one is free |
| CropEngine.WrittenMembers | database.py:326-342 | the iteration number advances on skipped frames too: the iterations that produce an image are exactly those whose frame decodes and is written |
| CropEngine.WrittenIncreasing | database.py:326-350 | the iteration numbers recorded by a run are strictly increasing |
| CropEngine.ExtractGrows | database.py:343-350 | a run appends one row per producing iteration and changes no earlier row; the counter advances by the number of rows added |
| CropEngine.ExtractRow | database.py:343-350 | the j-th row a run adds has the j-th id after the counter, belongs to the definition and records the j-th producing iteration |
| CropEngine.ExtractRowName | database.py:332-338 | the j-th row a run adds is named by resolving the proposed name of its iteration's frame against every row before it, including the rows added earlier in the same run |
| CropEngine.ExtractOrdered | database.py:343-350 | a run keeps the image table ordered by id with unique names, all ids within the counter |
| CropEngine.ExtractProvenance | database.py:345-350 | every row after a run was there before or belongs to the definition being run |
| CropEngine.DoCropDoneIsNoOp | database.py:290-291 | a done definition is left alone and the call reports success |
| CropEngine.DoCropUnknownId | database.py:286-289 | an id that no stored definition has raises `NotFound`, and nothing changes |
| CropEngine.DoCropSpec | database.py:272-359 | it raises exactly when a pre-loop check refuses, and then changes nothing. The only definition change is `done`, set exactly when the loop completes. A rolled-back run leaves images and counter unchanged and still reports success |
| CropEngine.DoCropExtracts | database.py:324-351 | a completed run leaves the image table and counter that the extraction loop produced |
| CropEngine.DoCropAppends | database.py:332-351 | a completed run appends one image per producing frame, with consecutive new ids, for the definition, each recording its iteration number; no earlier image changes. Each new image is named by the frame's zero-padded file name for the video and the clipped rectangle, resolved against every image before it |
| CropEngine.MarkDoneValid | database.py:351 | marking the definition done after a run that only appended its own images keeps the album valid |
| CropEngine.DoCropValid | database.py:272-359 | `do_crop` keeps the album valid, lowers no counter, keeps the videos and only appends images |
| CropEngine.DoCropIdempotent | database.py:290-291 | after a completed run, running the same definition again changes nothing |
| CropEngine.PendingIdsMembers | database.py:367-372 | the pending ids are exactly the ids of the definitions not done |
| CropEngine.PendingIdsDistinct | database.py:367-372 | the pending ids are listed in increasing order, each once |
| CropEngine.CropEachValid | database.py:374-375 | running a list of definitions keeps the album valid, lowers no counter, keeps the videos and only appends images |
| CropEngine.CropEachSettles | database.py:374-376 | a list run that ends in success settles every listed definition (done exactly when its loop completed) and no other |
| CropEngine.CropEachStops | database.py:374-375 | a list run that ends in an error stopped at a definition its checks refused; exactly the ones before it were settled |
| CropEngine.DoCropAllSpec | database.py:361-376 | `do_crop_all` runs exactly the definitions not done at the start, keeps the album valid and only appends images. On success all of them are settled; an error from one propagates and the later ones are not run |
| Database.Album.constructor | database.py:100-111 | the album opened on stored tables holds them with counters seeded from the largest ids, and is valid |
| Database.Album.AddVideo | database.py:114-151 | the album reaches the state and result `Catalog.AddVideo` describes and stays valid |
| Database.Album.AddCropDefinition | database.py:185-236 | the album reaches the state and result `Catalog.AddCropDefinition` describes and stays valid |
| Database.Album.RemoveCropDefinition | database.py:238-270 | the album reaches the state and result `Catalog.RemoveCropDefinition` describes and stays valid |
| Database.Album.DeleteImagesOf | database.py:257-264 | the row-by-row deletion loop keeps exactly the images of other definitions, in order |
| Database.Album.RemoveVideo | database.py:153-183 | the cascade loop, then the row deletion, reach the state and result `Catalog.RemoveVideo` describes; the album stays valid |
| Database.Album.CropFrameInPlace | database.py:327-350 | one loop iteration updates images and image counter as `CropEngine.CropFrame` describes and touches nothing else |
| Database.Album.ExtractFrames | database.py:324-354 | the loop rolls back exactly when the exception iteration is within the sampled range, and then restores images and counter. Otherwise it leaves the rows and counter `CropEngine.Extract` describes; videos, definitions and other counters stay |
| Database.Album.DoCrop | database.py:272-359 | the album reaches the state and result `CropEngine.DoCrop` describes and stays valid |
| Database.Album.DoCropAll | database.py:361-376 | the loop over the pending ids reaches the state and result `CropEngine.DoCropAll` describes and stays valid |

## Left out

- The user interface (`videoknife.py`) is not part of this model.
- Files on disk are not modelled. Copying or moving the video in, removing video and image files, and creating the folders in `__init__` are not represented. The existence of the source video is the `pathExists` parameter. An image file already missing when its definition is removed is tolerated by the source and needs no modelling. A video file missing at `remove_video` makes `os.remove` raise after the definitions are already removed; the model does not capture this.
- OpenCV is replaced by `VideoSource`:
  - Decoding is reduced to whether a frame index decodes.
  - Cropping the pixels is not modelled.
  - Encoding is reduced to whether the still for a frame index is written.
  - The frame count and size are taken as given integers.
- Exceptions inside the extraction loop are abstracted as `Run.failAt`, the iteration at which one is raised. The model does not say what raises them, for example a store write.
- A failing `session.commit()` is not modelled. These calls are outside any `try` (database.py:148, 181, 233, 268 and 357), so a rejected commit raises out of the operation. The in-memory counter is then already advanced but no row is stored:
  - in `add_video` the video counter, after the file was already copied or moved;
  - in `add_crop_definition` the definition counter;
  - in `do_crop` the image counter, because the restore at database.py:353 is skipped while the run's image rows and the `done` flag are discarded.
  A rejected commit in `remove_crop_definition` or `remove_video` leaves the rows in place after image or video files were already removed.
- SQLAlchemy sessions, transactions and the database engine are not modelled. Each operation is one step from state to state. The source leaves sessions and the video capture open on some early returns; that resource leak is not modelled.
- The pandas views `get_all_video`, `get_all_crop_definitions` and `get_all_images` return the tables as they are. `get_crop_definitions` is the filter `DefinitionsOfVideo`; `OwnedByVideo` states which definitions it lists, and `RemoveVideoLeavesNoTrace` states that it is empty once the video is removed. `get_definition_images` is `ImagesOfDefinition`, described by `ImagesOfDefinitionSpec`.
- The exception types are collapsed into `Error`. The source's `FileNotFoundError` for an unknown id, and `NoResultFound` from `.one()`, become `NotFound`; a missing source file is `FileNotFound`. Each of the three `RuntimeError`s gets its own kind: `VideoUnreadable`, `EmptyCropRegion` or `InvalidFrameRange`.
- A definition row with only some rectangle columns NULL cannot be created through `add_crop_definition`. The model's `Option<Rect>` has no such state.
- `os.path.basename` is modelled with '/' as the only separator.
- The `move` flag of `add_video` only changes the file operation, so it is not a parameter.
- `add_crop_definition` does not validate the range or rectangle (its TODO). The model does not validate them either; `do_crop` refuses bad ones.

Where the specification of the system and the code differ, the model follows the code:

- `do_crop_all` has no `try`, so the first error raised by `do_crop` propagates and the remaining definitions are not run. The specification describes it as continuing past failures. `CropEngine.DoCropAllSpec` states the code's behaviour.
- The specification says identifiers are never reused after deletion. Within one open album this holds (`Catalog.DefinitionIdNotReused`). The counters are reseeded from the stored maximum on opening, though, so an id can be issued again after a reopen (`Catalog.ReopenReusesDefinitionId`).
- The specification says file names stay unique for the album's lifetime regardless of row deletion. The code resolves names against the current rows only, and the model does the same: the name of a deleted image or video can be given out again.
- The specification lists a `WriteFailure` error. The code has no such error kind. A still that is not written is skipped, and any other failure in the loop is a silent rollback. A store write rejected at a `session.commit()` outside the loop does raise out of the operation; it surfaces as the database driver's own exception, and this model leaves it out (see above).
