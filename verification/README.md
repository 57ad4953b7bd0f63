# Verification of the media receiver's core

Dafny models of the stateful core of a PS4 media receiver written in C, and of its package
server written in Python, with proofs about every input, run or reachable state.

- `raster.dfy`, `shapes.dfy`, `rounds.dfy`, `rows.dfy`, `tags.dfy`, `frames.dfy`, `gfx.dfy`,
  `screenruns.dfy`, `text.dfy`, `bars.dfy`: the shapes and the drawing queue of `app/src/gfx.c` and its reuse of surfaces. Drawing calls are queued, folded into
  a tag, drawn at present time or not at all. The proofs compare this with a naive renderer, show
  that the three-surface protocol never writes a surface the display uses, and exhibit the runs on
  which a promise of the reuse fails. `bars.dfy` proves of `app/src/player_ff.c` that a surface
  named as a video picture holds it with clean bars.
- `strmap.dfy`, `guidefill.dfy`, `guidetexts.dfy`, `guide.dfy`, `guideask.dfy`: the programme guide of
  `app/src/guide.c` and the lookups of `app/src/epg.c`: a string arena, open-addressing maps over
  it, the filling of the store, the finished, sorted, indexed store with its binary search, and what
  is asked of it, from the file to the answer.
- `chunked.dfy`, `body.dfy`, `ranges.dfy`, `abort.dfy`: HTTP bodies in `app/src/aseg.c` (section 4.1
  of RFC 7230), ranged fetches, and aborts against keep-alive and resume as interleaved steps.
- `reader.dfy`, `seek.dfy`, `live.dfy`, `keys.dfy`: the HLS reader of `app/src/hls.c` with its
  prefetch worker, seeking, live refresh (section 6.2.2 of RFC 8216) and the key cache.
- `crypt.dfy`, `inlinekey.dfy`: segment decryption (section 4.3.2.4 of RFC 8216) and base64 keys
  (section 4 of RFC 4648) in `app/src/hls_crypt.c`.
- `audio.dfy`: the ring and the debt-repaying clock of `app/src/audio.c`.
- `package.dfy`: range requests and completed ranges in `scripts/push-goldhen-dpi.py`.

Code that changes state is modelled as classes and methods proved against specification
functions; threads are modelled as steps that interleave. `dafny verify dfyconfig.toml` checks
the project.

## Assumptions

- Raster, tags and screen: coverage of round shapes, gradient rows, glyph bitmaps, images' texels and
  video pictures are the parameters in `Kit`; compositing is exact. A tag is the free term that
  the source folds into 64 bits, so the hash is taken to be injective. Frame ids are consecutive,
  and the display shows submitted flips in order. A picture that fails to paint leaves the surface
  alone, as `gfx.h` asks: on a screen of 1920 columns `paint_nv12` fails only before it writes.
- Bars: a frame offers one picture, and pictures are offered in the order in which they were
  numbered, as the player does.
- Guide: an arena says whether allocations may fail; how much fits it is exact either way.
- Bodies: a connection is the bytes that will arrive, in arbitrary pieces, and then a close or a
  failing read; `tight` says that time or memory may run out, or an abort come, at any point. One
  response per request.
- Reader: what each pass of a read meets is a script. A successful fetch of a segment brings the
  segment's bytes, and the streaming source ends only at the end of a resource (it also returns 0 on
  an abort or a timeout, which the reader cannot tell from the end). The playlist is finite, reads
  ask for at least one byte, and no variant is switched in place.
- Live: what the network and the clock do is a script of rounds; a server that keeps section 6.2.2 of
  RFC 8216 is one whose windows parse and whose windows' ends never go backwards.
- Decryption: any block cipher with an inverse.

## Where the code and its documentation disagree

- Lines 44-48 of `app/src/gfx.c` promise that equal tags mean equal pixels. A translucent rounded
  rectangle drawn directly folds its three strips a second time, so its tag names another picture
  exactly when a second blend shows, which depends on colour and coverage (`Tags.DoublesForSomeKit`,
  `Tags.ShowsExactly`). `ScreenRuns.OneTagTwoPictures` is a run that ends with one tag on two
  pictures; the invariant is proved of every other tag, and of that one again once its surface is
  covered or redrawn.
- A picture that fails to paint replaces one that was offered before it and would have painted
  (`ScreenRuns.LostPicture`). A frame that is drawn is naive drawing, over every surface, if and only
  if that has not happened, or what lies under the drawing does not show: drawing over black and over
  white gives one picture (`Frames.LostExactly`). A surface found by its tag shows what the tag names,
  also where that picture would not have painted this time (`ScreenRuns.HeldPicture`); that is naive
  drawing if and only if the tag is right about what lies under the drawing, or it does not show
  (`Frames.SettledExactly`).
- `paint_nv12` says that a video tag must imply clean bars. Each painter remembers a geometry of its
  own, and one that comes back with it after the other painted another does not clear
  (`Bars.ComesBack`); `Bars.CleanExactly` gives the exact condition.
- `guide_at` reports what is on air only where no programme outlasts a later one; `Guide.OnAirExactly`
  gives the exact condition.
- Lines 1066-1067 of `app/src/aseg.c` promise that a body cut short is an error, so that fewer bytes
  than asked for mean the resource's end. A body without a length that breaks off is taken for whole, and
  the short range for the range (`Ranges.ShortRange`); `Ranges.FetchRange` gives the exact condition.
  More bytes with the headers than Content-Length announces are kept, and a range may be made of them
  (`Ranges.LongLead`).
- `abort_ch` promises that no aborted socket is used again. Its generation bump is a separate read
  and write, and an overtaken one takes the generation back; and a resume may clear the flag while
  another thread may still abort a socket, because it has not looked for one yet, or holds a
  descriptor that may be given out again. Without either no aborted socket is reused
  (`Abort.AbortedNeverReused`); from every state in which either is about to happen one can be
  (`Abort.LoweredBumpReusesAborted`, `Abort.ResumedAbortReusesAborted`).
- `refresh_live_playlist` says it avoids replaying. It does if and only if the new window does not
  end before the position (`Live.RefreshKeeps`); a body that does not parse keeps the position if and
  only if it began with the next number (`Live.UnparsedKeeps`), and otherwise a number may be
  delivered twice (`Live.DeliversTwice`).
- The audio clock ends ahead of the content by the padding past the cap (`Audio.AheadExactly`), and
  padding that was owed when it was anchored is still repaid afterwards and leaves it that much
  behind (`Audio.Output.ClockFollowsContent`).

## Model

| member | source | states |
|---|---|---|
| Raster.BlendOverSelf | app/src/gfx.c:342-354 | blending a colour over a pixel already of that colour changes nothing, at any coverage |
| Raster.RectAAt | app/src/gfx.c:364-386 | a translucent rectangle is one per-pixel blend on exactly the pixels inside it, also when its coverage sends it through the opaque fill |
| Raster.DrawBySubs | app/src/gfx.c:403-419 | making a primitive's nested calls and then writing its own pixels is drawing the primitive |
| Shapes.BlendNearer | app/src/gfx.c:342-354 | as coverage grows every channel moves from the pixel's towards the colour's, from all of the one to all of the other |
| Shapes.DotAt | app/src/gfx.c:308-314 | a dot is its one pixel in its colour |
| Shapes.DiscAt | app/src/gfx.c:388-400 | a disc changes only pixels within a pixel of its radius, each by its distances from the centre, so it is its own mirror image |
| Shapes.GradientAt | app/src/gfx.c:423-441 | a gradient covers exactly its rectangle, each row in one colour, whatever was there |
| Shapes.TriangleWithin | app/src/gfx.c:443-465 | a triangle changes nothing outside the box of its corners |
| Shapes.ArcWithin | app/src/gfx.c:467-485 | an arc changes nothing outside its quarter of the square around its radius |
| Shapes.ImageAt | app/src/gfx.c:717-743 | each pixel of an image's rectangle gets the texel whose scaled cell it lies in, and no texel outside the image is read |
| Shapes.ImageWithin | app/src/gfx.c:717-743 | an image changes nothing else, and an empty one nothing |
| Shapes.CoversExactly | app/src/gfx.c:96-108 | a rectangle or gradient leaves nothing of what was there if and only if the hook takes it for full-screen |
| Rounds.RadiusFits | app/src/gfx.c:403-406 | the radius settled on is the largest not above what is asked for that fits both sides |
| Rounds.RoundBySides | app/src/gfx.c:403-420 | every pixel of a rounded rectangle: one blend but for the squares cut out of its corners, then the disc at the pixel's distances from the corner centres, once for each corner that reaches it |
| Rounds.RoundOutside | app/src/gfx.c:403-420 | it leaves everything outside its rectangle alone |
| Rounds.LeftRightExactly | app/src/gfx.c:403-420 | it is its own mirror image, left and right, on every surface and for every coverage, if and only if it is not as round as it is wide with its middle columns on the surface: there two corners blend into each pixel in the same order, and rounding tells them apart |
| Rounds.TopBottomExactly | app/src/gfx.c:403-420 | and likewise top and bottom |
| Raster.CoverErases | app/src/gfx.c:96-108 | an opaque full-screen fill leaves a picture that does not depend on what was there: everything queued before it may be discarded |
| Rows.Clipped | app/src/gfx.c:316-330 | clipping a rectangle to the surface, whatever its position and size, loses no pixel and adds none; an empty clip draws nothing |
| Rows.FillRect | app/src/gfx.c:316-330 | the clipped row walk leaves the surface that per-pixel drawing of the rectangle leaves, for any position including negative |
| Rows.FillRectA | app/src/gfx.c:364-386 | the clipped row walk with the blend written out leaves the surface that a per-pixel blend loop leaves, for any position and coverage |
| Rows.BlitGlyph | app/src/gfx.c:641-665 | the clipped glyph blit leaves the surface that a per-pixel blend loop over the atlas cell leaves, for any position |
| Tags.FoldHolds | app/src/gfx.c:90-126 | folding a call into the running tag follows drawing the call, also over unknown content when the call covers the screen |
| Tags.ReplayIsDraw | app/src/gfx.c:90-126 | drawing directly folds nested calls again; replaying all that was folded still gives the picture drawn, for every call that does not double: a translucent rounded rectangle with a strip on screen, at a coverage of 2 to 253, or at 254 over a channel that is 0, or at 1 over a channel below 254 |
| Tags.ShowsExactly | app/src/gfx.c:342-354 | that guard on channel and coverage is exact: it holds if and only if over some value a second blend differs from one |
| Tags.DoublesForSomeKit | app/src/gfx.c:403-419 | for every rounded rectangle: they do so for some corner coverage and picture if and only if the call doubles |
| Frames.DeterminedIsFresh | app/src/gfx.c:44-48 | a frame with a covering fill or a painted video picture does not depend on what its surface held |
| Frames.RanIsNaive | app/src/gfx.c:748-794 | where no picture is lost, running a frame's queue is naive drawing; where the tag is right about what lies under the drawing, so is what the tag names |
| Frames.LostExactly | app/src/gfx.c:779-794 | and only there: running the queue is naive drawing over every surface if and only if no picture that would have painted was replaced by a failing one, or what lies under the drawing does not show |
| Frames.SettledExactly | app/src/gfx.c:779-794 | what the tag names is naive drawing, over every surface and whatever the pictures show, if and only if the last picture under the drawing is the one that lies there, or what lies there does not show |
| Frames.HidesAll | app/src/gfx.c:748-777 | what hides black and white hides everything: if the drawing gives one picture over a black and over a white surface, it gives that picture over every surface |
| Frames.HidesExactly | app/src/gfx.c:96-108 | a frame that leaves some pixel alone hides what lies under it if and only if something overwrites the screen once drawing has begun |
| Frames.RunIsRendered | app/src/gfx.c:129-144 | over a whole run whose frames ask for nothing, or open a picture of their own and are drawn with none lost or found under a tag that is right, the pictures flipped are those of a renderer with one surface and no cache |
| Gfx.RingNext | app/src/gfx.c:237-292 | one present of the three-surface protocol: the next target differs from the flipped surface, the frame waited for is already submitted, and once the wait is over the target is neither scanned nor pending |
| Gfx.Screen.constructor | app/src/gfx.c:147-206 | the screen starts with every tag unknown and all invariants holding, whatever the surfaces' memory holds |
| Gfx.Screen.Store | app/src/gfx.c:316-330 | the only writer of surfaces demands a target the display neither scans nor has pending |
| Gfx.Screen.QHook | app/src/gfx.c:90-126 | the hook's whole effect in each mode: queue exactly when there is room, drop under a full-screen call, fold only, or run the queue on overflow |
| Gfx.Screen.QRun | app/src/gfx.c:748-777 | running the queue leaves the target as the paint, if it succeeds, and then every queued call in order; a failed paint makes the tag unknown |
| Gfx.Screen.Primitive | app/src/gfx.c:316-485 | a drawing entry point either queues the call or leaves the target as drawing it, with its nested calls folded once more |
| Gfx.Screen.DrawCall | app/src/gfx.c:90-126 | any drawing call keeps all invariants, the room of the queue and its texts among them, and is recorded in the frame; it is queued exactly when the mode and the room allow it; only a doubling call drawn directly under a known tag costs that tag its trust, and a covering call restores it |
| Gfx.Screen.GfxVideo | app/src/gfx.c:779-794 | a video picture keeps all invariants, named or not, painted or failing: early it becomes the base of the frame's tag and touches no pixel; late it is painted over what the queue draws, and the tag becomes unknown |
| Gfx.Screen.QCommit | app/src/gfx.c:129-144 | which surface is flipped, in every case, and what it holds: what running the queue gives, always; or, where a surface is found by its tag, what that tag names, where the tag can be trusted; an untouched frame flips the last surface again |
| Gfx.Screen.AwaitRetired | app/src/gfx.c:256-282 | the wait ends, because it is for a submitted frame, with a newer frame than the awaited one on screen |
| Gfx.Screen.GfxPresent | app/src/gfx.c:237-292 | a present with the next frame id keeps all invariants, and its whole effect on surfaces, tags, target and history |
| Gfx.Screen.Vsync | app/src/gfx.c:256-282 | the display moving on to the next submitted flip keeps all invariants |
| Gfx.Screen.GfxTag | app/src/gfx.c:798-800 | the tag reported for the target names the target's pixels, unless a doubling call was drawn directly under it and nothing has covered it since, whatever befell other surfaces |
| Gfx.Screen.EqualTags | app/src/gfx.c:44-48 | in every reachable state between two drawings, two surfaces with equal known tags hold equal pixels, unless one of them is left with such a call |
| Gfx.Screen.ShownAsRendered | app/src/gfx.c:44-48 | in every reachable state, the pictures flipped so far are those of the renderer without a cache if every frame asked for nothing, or opened a picture of its own and was drawn with none lost or found under a right tag |
| Gfx.Screen.TargetIsFree | app/src/gfx.c:237-292 | in every reachable state the target is neither scanned nor pending, at most two flips are outstanding, and the target follows the surface shown in the ring |
| ScreenRuns.OneTagTwoPictures | app/src/gfx.c:44-48 | a run after which two surfaces have the same known tag and different pixels, for a translucent rounded rectangle with a strip pixel clear of the corners over a fill on which a second blend shows |
| ScreenRuns.DoublingShows | app/src/gfx.c:44-48 | there is such a run for every rounded rectangle that doubles, in some coverage of its corners |
| ScreenRuns.LostPicture | app/src/gfx.c:779-784 | a run that flips, at a pixel its frame does not draw on, what the surface held instead of the picture that painted: a second picture that fails has replaced it |
| ScreenRuns.HeldPicture | app/src/gfx.c:129-144 | a run in which the frame is found on screen and flipped although its picture fails to paint: naive drawing gives the picture offered before it, or what the target held |
| Text.Utf8Reads | app/src/gfx.c:492-515 | every character encoded in UTF-8 (section 3 of RFC 3629) is read back, wherever it stands |
| Text.Utf8Only | app/src/gfx.c:492-515 | whatever is read as other than a question mark was exactly the encoding of that character |
| Text.Resyncs | app/src/gfx.c:492-515 | whatever stands before it, malformed or not, every byte that begins a character is come to |
| Text.GlyphsOfText | app/src/gfx.c:671-683 | the glyphs of a well-formed text are those its characters fold to, in order, with a question mark for what the font lacks |
| Text.PlacedAt | app/src/gfx.c:667-698 | each glyph stands where the measured glyphs before it and the tracking after them end |
| Text.CellsAre | app/src/gfx.c:686-692 | the squares of a bitmap glyph are exactly those of its set bits |
| Text.Measure | app/src/gfx.c:700-711 | the measured width of any byte string is the sum of its glyphs' advances and the tracking between them |
| Text.DrawText | app/src/gfx.c:667-698 | drawing any byte string puts its glyphs on the surface one after the other, as atlas cells or as squares, and returns the width that measuring it gives |
| Text.TextIsGlyphs | app/src/gfx.c:667-698 | that picture is the one that drawing the text as one queued call gives, at any scale, when the drawing parameters are those of the glyphs |
| Bars.Player.Present | app/src/player_ff.c:2482-2509 | the whole effect of a frame, painted by either painter, drawn, or found by its tag, on surfaces, countdown and remembered geometries; it keeps every surface that is named as a picture clean |
| Bars.PresentedSound | app/src/player_ff.c:2486-2509 | four clearing paints are enough: a surface that still holds a picture of another geometry comes up as the target before the clearing ends, unless a painter comes back with a geometry it remembers |
| Bars.RunClean | app/src/player_ff.c:2482-2485 | over every run without such a return, a video tag implies clean bars |
| Bars.CleanExactly | app/src/player_ff.c:1805-1829 | one frame leaves a picture between foreign bars if and only if it is painted over a clean picture of another geometry with no clearing due, and does not fill the screen |
| Bars.ComesBack | app/src/player_ff.c:1805-1829 | a run that does: scaled frames, hardware frames of another geometry until nothing is due, scaled frames again |
| Bars.ScaledFits | app/src/player_ff.c:2468-2471 | the picture's rectangle fits the screen, so a paint cannot fail once it has written to it |
| Bars.ScaledKeepsShape | app/src/player_ff.c:2468-2471 | one side of the rectangle is the screen's and the other what the picture's shape makes of it, to the pixel |
| StrMap.MatchIsEqual | app/src/guide.c:45-54 | the byte comparison with its terminator check is equality of strings |
| StrMap.Arena.Put | app/src/guide.c:13-28 | a string is stored at the old end and reads back, or nothing changes; it is refused exactly when it does not fit, unless memory may fail |
| StrMap.ProbeOn | app/src/guide.c:45-54 | a probe past an occupied slot has not gone round, because an empty slot exists: probing terminates |
| StrMap.Map.Get | app/src/guide.c:45-54 | lookup agrees with the mathematical map, NONE for an absent string |
| StrMap.Map.Grow | app/src/guide.c:56-71 | growing keeps the map and makes room for one more at half load; it fails only if memory may, and then changes nothing |
| StrMap.Map.Put | app/src/guide.c:75-92 | insertion agrees with the mathematical map, first insertion wins; unless memory may fail it fails exactly for a new string that does not fit the arena, and a failure leaves the map unchanged |
| GuideFill.Clip | app/src/guide.c:241-247 | an interned text is the longest prefix within the limit that ends where a character begins |
| GuideFill.PutIn | app/src/guide.c:75-92 | insertion into one of three maps over one arena leaves the other two standing and the key readable at its offset; it fails as that insertion does |
| GuideFill.Filler.Intern | app/src/guide.c:241-250 | interning gives an offset where the clipped text stands, 0 for an empty text, and changes nothing visible; unless memory may fail, NONE only for a new text that does not fit |
| GuideFill.Filler.OnChannel | app/src/guide.c:221-239 | where memory does not fail and the channel's texts fit, the guide changes exactly as the plain guide of texts does; otherwise the channel list does, or the guide is marked truncated |
| GuideFill.Filler.OnProgramme | app/src/guide.c:252-290 | where memory does not fail and the programme's texts fit, the guide changes exactly as the plain guide does, window test included, and is marked truncated exactly past the last programme there is room for; the description goes only when three quarters of the arena are taken; a programme that should be entered is entered or the guide is marked truncated |
| GuideFill.Filler.Feed | app/src/guide.c:221-290 | over a whole file the store shows exactly the guide that filling an arena of that size gives, text by text and to the byte, down to which descriptions are kept; where memory does not fail it falls short if and only if that arena would pass its limit |
| GuideTexts.LowerSame | app/src/guide.c:96-100 | ids are one channel if and only if they differ in letter case at most |
| GuideTexts.ChannelEnters | app/src/guide.c:221-239 | a channel is entered if and only if it has an id, is new, and is asked for by id or by one of its names; its names then lead to it, but for those another has already |
| GuideTexts.Enters | app/src/guide.c:252-290 | a programme is entered if and only if its channel is known or asked for, it begins within 36 hours and was over less than three hours ago, its start fits, and there is room |
| GuideTexts.ItemsStand | app/src/guide.c:252-290 | every item of a guide filled from a file is a programme of that file: its start, end, channel, and each text its own, or as much of it as fits |
| GuideTexts.ProgrammeShown | app/src/guide.c:252-290 | every programme of a known channel that is on air or begins within 36 hours has its item, while there is room |
| GuideFill.Filler.Find | app/src/guide.c:333-342 | a channel is found by its lower-case id, else by name key, else -1 |
| GuideFill.Close | app/src/guide.c:299-331 | every finished programme is one filled in, ending as given, else where the next on its channel begins, else after an hour; every channel and start is kept |
| Guide.FoldKeeps | app/src/guide.c:305-309 | folding a sorted list invents nothing, loses no channel and start, and leaves each once |
| Guide.FilledEnds | app/src/guide.c:317-329 | every end is after its start, given or filled in, while an hour past the start fits 32 bits |
| Guide.Store.FoldDuplicates | app/src/guide.c:305-310 | the in-place fold keeps the first of each run of equal channel and start |
| Guide.Store.IndexAndFill | app/src/guide.c:317-329 | every channel ends up with the slice of its programmes and every open end is filled from the next start or by an hour |
| Guide.Store.Finish | app/src/guide.c:299-331 | the finished store is the filled fold of a sorted permutation, strictly ordered and indexed; finishing twice changes nothing |
| Guide.Store.SliceIsChannel | app/src/guide.c:317-322 | in a finished store the slices partition the programmes by channel, in order of start |
| Guide.Store.At | app/src/guide.c:357-369 | the binary search gives the linear answer: the latest start not after t if it has not ended, else the first start after t, else -1 |
| Guide.AnswerUnique | app/src/guide.c:357-369 | the linear answer is determined by the slice and the time |
| Guide.SomeAnswer | app/src/guide.c:357-369 | there is a linear answer at every time |
| Guide.OnAirExactly | app/src/guide.c:357-369 | on air is answered truly at all times if and only if no programme outlasts a later one that ends before its own successor begins |
| Guide.Store.NowNext | app/src/epg.c:102-124 | the programme on air is the latest start, and next is the earliest programme starting after now |
| Guide.Store.Schedule | app/src/epg.c:126-140 | the schedule is the run of the channel's slice from the linear answer on, cut at the maximum |
| GuideAsk.NowNextOf | app/src/epg.c:102-124 | now and next of a finished guide, texts included, in terms of the list of items filled in: on air is what began last on the channel unless it is over, next is the first to begin later |
| GuideAsk.Ask | app/src/epg.c:102-124 | from the file to the answer: where memory does not fail and the texts fit the arena, which the file decides to the byte, now and next are those of the guide filled from the file, each description kept exactly as filling keeps it; what they show is a programme of the file with its own start and texts, on the channel of the id asked for, or else of the name; where the texts fit three quarters, with every description |
| Chunked.SizeReads | app/src/aseg.c:617-626 | a chunk-size line means the number its digits write in base sixteen, in either case, with leading zeros and an extension |
| Chunked.ParseHex | app/src/aseg.c:617-626 | every size of 64 bits is read back from its hexadecimal digits |
| Chunked.ReadsWrites | app/src/aseg.c:617-626 | and digits are read as no number but the one they write |
| Chunked.OddSizes | app/src/aseg.c:617-626 | what else is taken: a base, a sign that turns the number round 2^64, and larger numbers as the largest |
| Chunked.DecodeEncode | app/src/aseg.c:609-672 | an encoded body decodes to its data and leaves exactly what follows the trailers; under a cap it decodes to its first bytes or fails, as asked |
| Chunked.DecodeOnly | app/src/aseg.c:609-672 | nothing else decodes: a stream that does is chunks whose lines announce their data and which end as they must, a line that announces none, trailers and a blank line |
| Chunked.CutShort | app/src/aseg.c:609-672 | a stream that would decode, cut anywhere, fails as cut short; as malformed only within the line end after a chunk |
| Chunked.DecodeMore | app/src/aseg.c:609-672 | what decodes from the part of a stream that arrived is what the whole stream decodes to |
| Chunked.PartialPrefix | app/src/aseg.c:702-741 | the chunk data in the part that arrived is a front part of the body |
| Body.ChunkReader.Exact | app/src/aseg.c:578-589 | exactly the bytes asked for, in any fragmentation; without a lack of time or memory it fails exactly when fewer arrive |
| Body.ChunkReader.Line | app/src/aseg.c:591-604 | the next line of the stream, however it is split between lead and socket |
| Body.Grow | app/src/aseg.c:636-648 | the buffer grows to what is needed and never past the limit |
| Body.ReadChunkedBody | app/src/aseg.c:609-672 | the collecting decoder returns the decoded body, or its head when cut, and an uncut success leaves the stream exactly after the trailers; without a lack of time or memory every failure is the one that what arrived calls for, wherever the connection breaks |
| Body.StreamChunked | app/src/aseg.c:702-741 | the streaming decoder hands its sink exactly the decoded body; whatever happens, and wherever the connection breaks, a front part of it |
| Body.StreamPlain | app/src/aseg.c:742-769 | without chunks the sink gets the announced bytes, or all that arrive, and a front part of them whatever happens; without a lack of time or memory the return code is determined by what arrives |
| Ranges.ReadKnown | app/src/aseg.c:947-987 | a body of known length is returned exactly, or its head when cut, or all that came with the headers when that is more; without a lack of time or memory it succeeds if and only if the bytes arrive and the cap allows it |
| Ranges.ReadToEnd | app/src/aseg.c:988-1017 | a body read to the end is all that arrived, or its head: a break ends it like a close |
| Ranges.SliceMeans | app/src/aseg.c:1070-1089 | a range is the bytes from its offset on, as many as asked for while there are any |
| Ranges.RangeFixup | app/src/aseg.c:1070-1089 | a response to a range request is cut to exactly the bytes asked for, and refused exactly when they cannot be told to be there |
| Ranges.DecodeCapped | app/src/aseg.c:609-672 | capping a decodable body keeps it, or exactly its head |
| Ranges.ReadCapped | app/src/aseg.c:945-1017 | what each of the three framings yields under a truncating cap, over a connection that may break anywhere |
| Ranges.FetchRange | app/src/aseg.c:1091-1145 | a successful ranged fetch from a conforming server, over a connection that may break anywhere, yields exactly the requested part if and only if: for a body without length, it arrived up to the end of the range or of the body; for an announced length, what came with the headers past it lies past the range; for chunks, always. Without a lack of time or memory, when it succeeds at all; more bytes with the headers than announced make the range themselves |
| Ranges.ShortRange | app/src/aseg.c:1070-1089 | two bytes are asked for of a body without length, one arrives before a read fails: status 206 or 200, the fetch succeeds with one byte |
| Ranges.LongLead | app/src/aseg.c:947-987 | one byte is announced of a resource of one, two come with the headers: a fetch of two bytes succeeds with both |
| Abort.InvNext | app/src/aseg.c:331-345 | every step of fetch, abort and resume keeps the generation invariant, unless it stores a generation lower than the current one or clears the flag while a thread may still abort a socket |
| Abort.AbortedNeverReused | app/src/aseg.c:331-345 | over every interleaving in which no bump takes the generation back and no resume clears the flag while a thread may still abort a socket, a socket an abort landed on is never reused; aborts, bumps and harmless resumes may overlap |
| Abort.LoweredBumpReusesAborted | app/src/aseg.c:331-345 | from every reachable state in which the pending store of a bump would take the generation back, some continuation reuses a socket an abort landed on |
| Abort.LoweredReuses | app/src/aseg.c:331-345 | one such store is enough: after it an aborted socket comes to be reused without another disturbing step |
| Abort.ResumedAbortReusesAborted | app/src/aseg.c:367-371 | from every reachable state in which a resume would clear the flag while a thread may still abort a socket, some continuation reuses an aborted socket |
| Abort.ResumedReuses | app/src/aseg.c:367-371 | one such resume is enough: after it an aborted socket comes to be reused without another disturbing step |
| Abort.AbortEffect | app/src/aseg.c:331-345 | an undisturbed abort raises the flag, takes the generation one up, clears keep-alive and lands on the current socket |
| Abort.ResumeKeepsNewerAbort | app/src/aseg.c:367-382 | once every opener and resume is through, the flag is up while a newer request stands |
| Abort.ResumeClears | app/src/aseg.c:367-371 | once a resume has cleared the flag it stays down, whoever else resumes, while no abort comes and no check finds a newer request |
| Abort.ResumeAlone | app/src/aseg.c:367-371 | undisturbed, a resume ends with the flag down, whatever raised it before; a newer request is all that makes it raise it again |
| Abort.FlagExactly | app/src/aseg.c:331-371 | over any run the flag is up if and only if an abort was raised after the last clear |
| Abort.KeptIsReused | app/src/aseg.c:677-680 | undisturbed, the socket a fetch connected and kept serves the next fetch |
| Crypt.CbcRoundTrip | app/src/hls_crypt.c:34-47 | CBC decryption undoes CBC encryption for any invertible block cipher, IV and number of blocks |
| Crypt.PadValid | app/src/hls_crypt.c:15-20 | the padding test accepts exactly blocks whose last byte p is 1 to 16 and repeats p times |
| Crypt.PaddedOnly | app/src/hls_crypt.c:15-20 | it accepts padded messages only, and what is cut off is the padding |
| Crypt.ByteXorBits | app/src/hls_crypt.c:27-42 | the exclusive or of two bytes has exactly the bits in which they differ |
| Crypt.DecryptedBits | app/src/hls_crypt.c:34-47 | every bit of the decryption: the decrypted block's, turned where the block before it in the ciphertext, or the IV, has a one |
| Crypt.DecryptEncrypt | app/src/hls_crypt.c:34-47 | decrypting the padded encryption of any message gives that message |
| Crypt.CbcRun | app/src/hls_crypt.c:34-43 | block after block in place equals CBC decryption of the buffer; the rest is untouched |
| Crypt.PaddingOk | app/src/hls_crypt.c:22-32 | accepts exactly the buffers that decrypt to valid padding, looking at the last block only and leaving the buffer alone |
| Crypt.Decrypt | app/src/hls_crypt.c:34-47 | succeeds exactly on the buffers the padding test accepts and leaves the message; -1 exactly for a bad length, without touching the buffer |
| InlineKey.BytesOfSixes | app/src/hls_crypt.c:58-78 | decoding groups of four undoes encoding groups of three, for any bytes |
| InlineKey.GroupIsNumber | app/src/hls_crypt.c:67-73 | four characters are three bytes, most significant first |
| InlineKey.Alphabets | app/src/hls_crypt.c:49-56 | the values of the two alphabets |
| InlineKey.Shifted | app/src/hls_crypt.c:67-73 | the bit accumulator, masked to fourteen bits, gives exactly that byte and keeps the bits still owed |
| InlineKey.DecodeText | app/src/hls_crypt.c:62-75 | the decoding loop is the decoder by groups, refusing other characters and more than 18 bytes |
| InlineKey.KeyFromDataUri | app/src/hls_crypt.c:58-78 | the key of a data URI is what the text after the first marker decodes to, if that is 16 bytes; the two errors are told apart |
| InlineKey.KeyNeeds22 | app/src/hls_crypt.c:58-78 | a key is accepted if and only if exactly 22 characters of the two alphabets stand before the padding sign |
| InlineKey.InlineRoundTrip | app/src/hls_crypt.c:58-78 | every 16-byte key written in base64, in either alphabet, padded or not, is read back |
| Keys.Cache.Get | app/src/hls.c:327-337 | a cached key is the one stored; using it loses no other and makes it the most recently used |
| Keys.Cache.Set | app/src/hls.c:348-361 | a stored key is held, and at most one other is lost: the least recently used of a full cache that lacked the URI |
| Keys.HoldsOne | app/src/hls.c:325-363 | the cache holds one key for a URI |
| Keys.KeyGet | app/src/hls.c:325-363 | the cached key unless refetched, else the inline or fetched one of 16 bytes; on failure the cache is unchanged |
| Keys.InlineBeatsNetwork | app/src/hls.c:338-347 | a key written in the URI is used, whatever the network would answer |
| Keys.NetworkKey | app/src/hls.c:338-347 | without data in the URI the key is the network's answer, if that is 16 bytes |
| Keys.FetchJob | app/src/hls.c:388-411 | the message under the first key that fits, the second tried only when the first does not; on any failure the buffer still holds the ciphertext |
| Keys.UnderCurrentKey | app/src/hls.c:388-411 | a segment encrypted under the key at hand is decrypted to its message |
| Keys.UnderRotatedKey | app/src/hls.c:388-411 | one under a key rotated behind its URI is, if and only if the padding refuses the stale key, or that gives the message too |
| HlsReader.OneOwner | app/src/hls.c:452-559 | a buffer is live exactly when a slot, the worker or the reader holds it, and only one does |
| HlsReader.Published | app/src/hls.c:541-556 | publishing a fetched segment keeps them |
| HlsReader.Taken | app/src/hls.c:660-678 | the reader taking a slot's buffer keeps them, as it holds none |
| HlsReader.Reader.Choose | app/src/hls.c:476-488 | the slot chosen is for the first segment of the window ahead that has none; none is chosen only if all slots are busy or the window is covered |
| HlsReader.Reader.WorkerPick | app/src/hls.c:476-506 | the first critical section claims exactly that slot |
| HlsReader.Reader.WorkerStore | app/src/hls.c:534-558 | the second critical section publishes a non-empty segment, or frees it and gives the slot back |
| HlsReader.Reader.Interleave | app/src/hls.c:464-559 | any number of worker steps between the reader's keeps every invariant |
| HlsReader.Reader.PrefetchTake | app/src/hls.c:660-678 | a ready slot of the segment becomes the reader's buffer, never over a live one |
| HlsReader.Reader.OpenMem | app/src/hls.c:825-858 | the current resource is held in memory, unless it could not be fetched, is empty or too large |
| HlsReader.Reader.EnsureSegment | app/src/hls.c:1309-1372 | something to read is at hand, the resource's buffer or a source opened on the current resource, unless the stream is at its end or the current resource cannot be had: its open is aborted, or where it is not streamed its fetch fails, or it is empty or too large; nothing of the stream is lost |
| HlsReader.Reader.CopyOut | app/src/hls.c:1400-1408 | bytes copied out of the buffer at hand are the next of the stream, whether the worker, the reader or the init segment filled it |
| HlsReader.Reader.Receive | app/src/hls.c:1427-1428 | what the opened source gives, in pieces of any size, is the next of the stream, and it gives nothing exactly at the resource's end |
| HlsReader.Reader.Read | app/src/hls.c:1374-1446 | the bytes returned, out of the buffer at hand or from the opened source, are the next of init segment and segments in order; without bytes the stream was closed, is at its end, or the resource it came to cannot be had; with nothing going wrong there are bytes exactly while any are left |
| HlsReader.Reader.Stop | app/src/hls.c:434-450 | stopping joins the worker and frees every buffer |
| HlsReader.Reader.SeekTo | app/src/hls.c:598-629 | after repositioning the stream is the init segment and everything from the target segment on |
| Seek.LandsMeans | app/src/hls.c:611-619 | the segment found is the one whose prefix-sum interval contains the time |
| Seek.LandsOnce | app/src/hls.c:611-619 | there is only one such landing |
| Seek.Locate | app/src/hls.c:611-619 | the search loop lands there and returns that segment's start |
| Seek.WantedTime | app/src/hls.c:600-614 | a time before the start is the start, one past the end is the end, and one between is itself to the millisecond |
| Seek.Player.SeekClamped | app/src/hls.c:598-653 | the video lands on the segment at the wanted time and its start is reported, the total when it runs off the end; the audio lands on the audio segment at that start; the stream restarts there |
| Seek.ReportedStart | app/src/hls.c:598-653 | on a parsed playlist the reported start is never after the wanted time and less than a segment before it |
| Seek.SeekIsStable | app/src/hls.c:598-653 | seeking to a reported start lands on the same segment again |
| Live.RefreshKeeps | app/src/hls.c:1290-1305 | the position is kept by a parsed window if and only if the window does not end before it; it moves on only to a later window's start, and exactly then a reset tells |
| Live.KeepsExactly | app/src/hls.c:1284-1305 | for any answer, the position is kept, or moved on with a reset, if and only if there was no body, an unparsed body began with the next number, or the window does not end before it |
| Live.ShortWindowReplays | app/src/hls.c:1300-1302 | a window that ends too early replays segments without a reset |
| Live.UnparsedKeeps | app/src/hls.c:1284-1305 | a body that does not parse keeps the position if and only if it began with the next number; what a later window makes of it, and when a reset tells |
| Live.DeliversTwice | app/src/hls.c:1479-1563 | a run that delivers one number twice, after such a body |
| Live.Misses | app/src/hls.c:1479-1563 | a failed fetch is tried again where it was; the second in a row on a live stream brings a refresh first |
| Live.EndedStays | app/src/hls.c:1479-1563 | once a stream has ended nothing but a fetched segment moves the place |
| Live.DeliveredExactly | app/src/hls.c:1479-1563 | where a segment is at hand, and windows parse and never end earlier, a request delivers if and only if some round fetches before one is torn or, from the second on, late after its failed fetch |
| Live.DeliveredLater | app/src/hls.c:1479-1563 | where none is at hand, if and only if a refresh brings one, in time, before a round is torn and before the stream is said to have ended, and from that round on one is fetched before one is torn or late |
| Live.StrictlyIncreasing | app/src/hls.c:1479-1563 | in every reachable state, as long as every refresh kept the position or moved it on with a reset, the numbers delivered are strictly increasing, and where any is skipped the reset generation grew |
| Live.Reader.Refresh | app/src/hls.c:1271-1306 | the playlist and position after a refresh, for every answer |
| Live.Reader.Take | app/src/hls.c:1519-1537 | the segment at the position is delivered under its number, with a reset at a discontinuity |
| Live.Reader.NextSegment | app/src/hls.c:1479-1563 | what the script of rounds comes to, delivered or not, and whether every refresh kept the position; if so, a delivered number is not before the position, a gap comes with a reset, and a failure moves nothing without one |
| Live.OnwardKeeps | app/src/hls.c:1271-1306 | under a server whose windows parse and never end earlier, every refresh of every request keeps the position |
| Audio.RunBalances | app/src/audio.c:152-184 | over any run of grains device time is content, repaid, owed and lost padding; the debt stays under its cap; the clock advances 240 to 256 frames a grain, with or without audio |
| Audio.Repays | app/src/audio.c:168-179 | n full grains repay 16 frames each until nothing is owed, so ceil(debt / 16) of them repay it all |
| Audio.Starves | app/src/audio.c:152-167 | short grains run up what they lack, up to half a second and no further, while the clock keeps device time |
| Audio.AheadExactly | app/src/audio.c:162-167 | over a run that repaid what it owed, the clock moved by the content heard and the padding lost; it ends ahead of the content if and only if at some grain the padding went past the cap |
| Audio.Output.Write | app/src/audio.c:235-249 | as many frames as fit are queued in order; the rest is counted as dropped |
| Audio.Output.Grain | app/src/audio.c:128-187 | one grain plays queued frames and then silence, updates the books, advances the clock by 240 to 256 frames, and changes nothing when paused |
| Audio.Output.SetBase | app/src/audio.c:88-96 | the clock reads the time stamp at the anchor, and later anchors are ignored |
| Audio.Output.Flush | app/src/audio.c:98-114 | a flush empties the queue, the books and the anchor |
| Audio.Output.ClockFollowsContent | app/src/audio.c:74-84 | while anchored the clock is the anchor plus content heard since, plus padding owed or lost since, less what was already owed at the anchor |
| Package.Parse | scripts/push-goldhen-dpi.py:267-296 | 400 exactly for a range that is no number, 416 exactly when no byte is asked for, else 206 with exactly the bytes asked for that exist; 200 for the whole |
| Package.WantedMeans | scripts/push-goldhen-dpi.py:267-278 | the bytes asked for: from the first number to the second, both included; from it on; as many of the last as the second says; or all |
| Package.Merge | scripts/push-goldhen-dpi.py:335-340 | merging an ordered list gives sorted, disjoint, non-adjacent ranges that cover the same bytes |
| Package.CanonicalUnique | scripts/push-goldhen-dpi.py:335-341 | such a list is determined by the bytes it covers |
| Package.WholeIsOne | scripts/push-goldhen-dpi.py:342-343 | the list is the one whole range if and only if every byte is covered |
| Package.OrderDoesNotMatter | scripts/push-goldhen-dpi.py:332-343 | the list and the done event do not depend on the order in which requests were completed |
| Package.Server.Complete | scripts/push-goldhen-dpi.py:334-343 | a completed request joins the list; done is set exactly when every byte of the package was covered, for an empty package by any completed request |
| Package.Server.SendBody | scripts/push-goldhen-dpi.py:311-343 | only a body sent whole joins the list; a broken one counts its bytes and changes nothing else |

## Left out

- Gfx.Screen.GfxPresent: surfaces are sequences in the screen and the row walks are proved on arrays apart from it, so that the protocol's invariants stay separate from addressing.
- Rows.FillRect: coordinate sums are unbounded integers; 32-bit overflow of a position plus a size is not modelled.
- Rounds.RoundBySides: coverage computed in single precision, gradient colours and the font tables are parameters, so their values are not checked.
- Text.DrawText: advances, glyph tables and the code-point fold are parameters.
- ScreenRuns.DoublingShows: the coverage of the corners is chosen, because what shows under them depends on it.
- Bars.Player.Present: restates the commit of `Gfx.Screen.QCommit` on tags alone, where what matters of a tag is whether it names a picture; pixels inside the rectangle are not followed.
- StrMap.Map.Put: where memory may fail, which allocation does is a free choice.
- GuideAsk.Ask: `epg_now_next` also cuts the texts to its caller's buffers.
- GuideFill.Filler.OnChannel: `guide_name_key` is a parameter, and what the playlist wants is two sets, although the source keeps them in the same kind of map.
- Guide.Store.Sort: one sorted arrangement stands for `qsort`; later steps use only that it is sorted and a permutation.
- Guide.FilledEnds: needs starts an hour below the 32-bit limit; past it the filled end wraps.
- Ranges.FetchRange: responses other than 200 and 206, redirects, and the native HTTP path are not modelled.
- Abort.AbortedNeverReused: a resume that finds a newer request and aborts again is one more abort; generations are unbounded, so their wrap after 2^32 aborts is not modelled.
- HlsReader.Reader.Read: live playlists, in-place variant switches and the separate audio path are not in this reader; a slot whose segment the reader has passed stays ready until stop, as in the source.
- Seek.Player.SeekClamped: seconds are reals; rounding of doubles may move a boundary by a millisecond.
- Keys.Cache.Set: ages are unbounded; URIs longer than the source's 2047 bytes do not occur.
- Audio.Output.Grain: time stamps are whole frames, and the pause flag is read once per grain.
- Package.Parse: numbers are taken as parsed by Python's `int`; header text handling is not modelled.
- Sockets, TLS, DNS, the native HTTP path, the video and audio devices and the watchdog: only their contracts appear.
- Playlist, M3U, XMLTV and inflate parsers: their results are inputs.
- `freetv.c` and `lang.c`: lookups that would only repeat the guide's proofs.
- Adaptive bit rate, overlays, subtitles, the browser extension and deployment scripts other than the package server.
