# Bad Apple frame encoder, modelled in Dafny

`images/encode.py` turns a video into a stream of text-mode frames for a
25 x 80 character display. Each display cell covers four quarters of the
picture. The script classifies each cell as one of six block glyphs: blank,
full block, lower half, left half, right half or upper half. It then writes,
frame by frame, a record of only the cells whose glyph changed.

The project models the two parts of the script that carry the logic.

- **The classifier** (`classifier.dfy`, module `Classifier`). `Blocks` is the
  palette, in declaration order. `Distance` is the L1 distance over the pairs
  that `zip` forms. `BestFit` is the argmin loop of `get_best_fit`: it starts
  from 0 and the sentinel distance `Unfit`, and replaces the best entry only
  on a strictly smaller distance. It is proved to return the code of the
  *first* entry of minimal distance; that entry is unique, so the answer is
  determined.
- **The record format** (`stream.dfy`, module `Stream`). A record is a run of
  `(skip, glyph)` pairs ended by `0`. `Replay` and `DecodeFrame` are a
  reference decoder written for this model: from cursor -1, each pair moves
  the cursor by `skip` (1 to 255) and writes `glyph` there. `Canonical` states
  what the encoder's record for a change is:
  - the record decodes to the new screen;
  - every pair at a cell that does not change is a filler of skip 255;
  - no filler comes after the last change.

  The lemmas about the format derive these example records from `Canonical`:
  - a sole change at position 10 gives `(11, v)`;
  - a change at distance 300 gives `(255, g), (45, v)`, where `g` is the
    glyph already shown at position 254;
  - nothing changed gives the terminator alone.
- **The encoder** (`encoder.dfy`, module `Encoder`). The class `FrameEncoder`
  holds the persistent screen as a 25 x 80 array. `EncodeFrame` is one
  iteration of the frame loop of `process`:
  - the nested scan over rows and active columns 10 to 69 (`EncodeRow`,
    `EncodeCell`);
  - the filler `while` loop (`Fill`);
  - the pair for the change, the update of the screen, and the terminator.

  `EncodeFrame` is proved to leave the screen at the classified frame. Its
  record is proved `Canonical`, so it decodes back to that screen. A
  canonical record is unique (`CanonicalUnique`), so the record is
  determined by the screens before and after the frame. `Process` runs the
  whole clip from a blank screen. Its records are proved to play back to
  the screens of the run, and every entry of every record is proved to fit
  in a byte.

Quarter intensities are taken as input (`seq<real>`, four per cell).
`ClassifyFrame` classifies a whole frame before `EncodeFrame` scans it. The
script instead calls `get_best_fit` inside the scan (images/encode.py:54).
The glyphs come out the same, because classification reads only the frame
and never the screen.

The filler loop runs while `cursor + 255 < 80*y + x`, that is while the gap
is *more than* 255 (images/encode.py:56). A gap of exactly 255 is therefore
a single pair `(255, v)`, with no filler.

## Model

| member | source | states |
|---|---|---|
| Classifier.Distance | images/encode.py:39 | the L1 distance over zipped pairs is never negative |
| Classifier.DistanceZero | images/encode.py:39 | the distance is zero exactly when the quarters equal the pattern on every zipped pair |
| Classifier.DistanceBound | images/encode.py:5-7 | intensities in [0, 255] are at most 255 per zipped pair from a pattern in [0, 255], so four quarters are at most 1020 away, below the sentinel |
| Classifier.FirstMinUnique | images/encode.py:38-42 | at most one entry is the first entry of minimal distance |
| Classifier.BestFitDeterminate | images/encode.py:34-43 | the classification of a cell is unique: two codes that both satisfy it are equal |
| Classifier.BestFit | images/encode.py:36-42 | returns the code of the first palette entry whose distance is minimal and below the sentinel; returns 0 when there is no such entry (an empty palette in particular) |
| Classifier.GetBestFit | images/encode.py:34-43 | classifies against the six blocks; four quarters in [0, 255] are always matched by a block, never by the fallback 0 for "no fit" |
| Classifier.BestFitIsBlock | images/encode.py:5-7 | every classification against the six blocks is one of the codes 0x00, 0xdb, 0xdc, 0xdd, 0xde, 0xdf |
| Classifier.TieGoesToEarlier | images/encode.py:40-42 | an entry at the same distance as an earlier one is never the result, because the comparison is strict |
| Classifier.NearlyWhiteCell | images/encode.py:38-42 | with palette {0: blank, 1: full} and quarters (250, 240, 245, 252), entry 1 is chosen |
| Stream.Apply | images/encode.py:59-61 | a pair moves the cursor by exactly its skip and keeps the screen size; skips outside [1, 255] are rejected |
| Stream.Replay | images/encode.py:56-61 | a decodable body has whole pairs, keeps the screen size, and leaves the cursor between -1 and the last cell |
| Stream.DecodeFrame | images/encode.py:59-63 | a decodable record has an odd length, ends with the terminator 0, and keeps the screen size |
| Stream.Positions | images/encode.py:57-60 | one cursor position per pair |
| Stream.PositionsStep | images/encode.py:51-60 | the first pair lands skip cells after -1; every later one lands its skip after the one before |
| Stream.ReplayTrace | images/encode.py:51-61 | every skip is in [1, 255]; the cursor strictly increases; each visited cell holds its pair's glyph; unvisited cells keep their glyph |
| Stream.DecodedIsWellFormed | images/encode.py:56-59 | any decodable record consists of pairs with skips in [1, 255] followed by 0, and its positions strictly increase |
| Stream.Canonical | images/encode.py:55-63 | the encoder's record of a change: it decodes to the new screen, has a pair at an unchanged cell only as a full 255 skip, and ends on a change; such a record has an odd length, ends with 0, and the screens have the same size |
| Stream.CanonicalVisits | images/encode.py:55-61 | the encoder's record visits every changed cell and gives it its new glyph; a filler re-asserts the glyph already shown at its cell |
| Stream.EmptyRecord | images/encode.py:63 | the terminator alone is the record of "no change" |
| Stream.NoChangeNoPairs | images/encode.py:55-63 | when nothing changes, the record is the terminator alone |
| Stream.SoleChangeFirstActiveCell | images/encode.py:51-60 | a sole change at (y = 0, x = 10) is the record (11, v), 0 |
| Stream.SoleChangeAtDistance300 | images/encode.py:56-59 | a sole change at linear distance 300 is the filler (255, glyph shown at 254), then (45, v), then 0 |
| Stream.ReplayStep | images/encode.py:58-60 | one more pair within reach of the cursor writes its glyph at the cursor plus its skip and moves the cursor there |
| Stream.CanonicalPair | images/encode.py:55-60 | each pair of a canonical record lands within 255 cells of the one before; the cells it skips do not change; a pair at an unchanged cell is a full skip of 255 |
| Stream.CanonicalTail | images/encode.py:55-63 | no cell after the last pair of a canonical record changes |
| Stream.SamePositions | images/encode.py:55-60 | two canonical records of the same change visit the same positions, pair by pair |
| Stream.NoMorePairs | images/encode.py:55-63 | a canonical record has no more pairs than another canonical record of the same change |
| Stream.SameLength | images/encode.py:55-63 | two canonical records of the same change have the same number of pairs |
| Stream.CanonicalEntries | images/encode.py:58-60 | each skip of a canonical record is the distance from the previous position, each glyph the new glyph of its cell |
| Stream.SameBodies | images/encode.py:58-60 | two canonical records of the same change that visit the same positions are equal |
| Stream.CanonicalUnique | images/encode.py:50-63 | the record of a frame is determined by the screens before and after it: two canonical records of one change are equal |
| Stream.CanonicalBytes | images/encode.py:58-63 | when the new screen holds bytes, every entry of the canonical record is in [0, 255], so it can be written as `db` bytes |
| Stream.Playback | images/encode.py:49-63 | a played-back stream has one screen more than it has records, starting at the start screen |
| Stream.PlaybackAppend | images/encode.py:49-63 | playing one more record decodes it onto the last screen |
| Stream.PlaybackFrames | images/encode.py:49-63 | in a played-back stream, each record takes its screen to the next one |
| Encoder.Blank | images/encode.py:47 | the start screen is 25 x 80 cells, all 0 |
| Encoder.Target | images/encode.py:52-61 | after a frame, active columns show the classified glyph and margin columns keep the glyph they had |
| Encoder.AgreesIffFixed | images/encode.py:55-61 | a frame leaves the screen as it was exactly when its glyphs already agree with the screen on the active region |
| Encoder.ClassifyFrame | images/encode.py:52-54 | every cell of the active region receives its classification against the six blocks |
| Encoder.ClassifyRow | images/encode.py:53-54 | every cell of a row receives its classification against the six blocks, in order |
| Encoder.ClassifiedBytes | images/encode.py:5-7 | the glyphs of a classified frame are all in [0, 255] |
| Encoder.TargetBytes | images/encode.py:52-61 | showing byte-sized glyphs on a screen of bytes leaves a screen of bytes |
| Encoder.Screens | images/encode.py:49-61 | the screens of a run: one more than the frames, starting at the start screen |
| Encoder.ScreensAppend | images/encode.py:49-61 | one more frame adds the screen that frame leaves |
| Encoder.ScreensStep | images/encode.py:49-61 | each screen of a run is the previous one with the next frame shown |
| Encoder.MarginsStayBlank | images/encode.py:47-61 | columns outside 10 to 69 of every screen of a run stay 0 |
| Encoder.FrameEncoder.constructor | images/encode.py:47 | the screen array is 25 x 80 and blank |
| Encoder.FrameEncoder.At | images/encode.py:58 | reading cell (p // 80, p % 80) gives the glyph shown at linear position p |
| Encoder.FrameEncoder.Show | images/encode.py:61 | writes one cell of the screen; every other cell is unchanged |
| Encoder.FrameEncoder.Fill | images/encode.py:56-58 | the filler loop leaves the cursor within 255 of the change; each filler is a full skip to an unchanged cell and re-asserts its glyph; earlier output is kept |
| Encoder.FrameEncoder.EncodeCell | images/encode.py:54-61 | one cell of the scan: fillers and the change pair are emitted and the glyph is shown only if the glyph differs; the loop state is kept |
| Encoder.FrameEncoder.EncodeRow | images/encode.py:53-61 | the scan across columns 10 to 69 of a row keeps the loop state |
| Encoder.FrameEncoder.EncodeFrame | images/encode.py:50-63 | the screen ends at the classified frame, with margins unchanged; the record is canonical (it decodes back to the new screen, has maximal fillers, ends on a change) and well formed; it is the terminator alone exactly when nothing changes |
| Encoder.FillersAppend | images/encode.py:56-59 | appending a full-skip pair, or one landing on a changed cell, keeps the fillers maximal |
| Encoder.FillerStep | images/encode.py:56-58 | one filler keeps the loop state: it replays onto the same screen, one skip further |
| Encoder.ChangeStep | images/encode.py:59-61 | the pair for a change within 255 cells of the cursor shows the new glyph and moves the cursor to the change |
| Encoder.SkipUnchanged | images/encode.py:55 | cells whose glyph does not change emit nothing and keep the loop state |
| Encoder.SkipMargin | images/encode.py:52-53 | margin columns are never scanned, and scanning past them keeps the loop state |
| Encoder.Finish | images/encode.py:63 | after the last row the screen is the target and the record with its terminator is canonical |
| Encoder.Conclude | images/encode.py:55-63 | the end of a frame: canonical, well formed, and the terminator alone exactly when the glyphs agree with the screen |
| Encoder.RunStep | images/encode.py:49-63 | encoding one more frame extends the run: classified frames, screens, records and playback stay in step |
| Encoder.Process | images/encode.py:46-63 | from a blank screen, the records of a clip play back to the screens of the run; each record is the canonical record of its frame, and every entry of every record is in [0, 255]; each frame is the classification of its quarters |

## Left out

- `get_quarters` (images/encode.py:10-31) is not part of this model. It
  averages pixels with floating-point weights (7.2, 28.8, `floor`, `ceil`
  and the `high < 360` guard). Quarter intensities are an input instead.
- Video decoding through moviepy (images/encode.py:1, 49, 67-69) is left
  out. The clip is a sequence of quarter grids.
- Writing to the output file (images/encode.py:50, 58-59, 63, 66-69) is
  left out. Records are integer sequences; the textual form (`db ` prefix,
  `, ` separators, final `0` and newline) is not rendered.
- The commented-out debugging code (images/encode.py:62, 70-76) is left out.
- Encoder.FrameEncoder.EncodeFrame: classification happens before the scan,
  not cell by cell inside it. The result is the same, because
  `get_best_fit` does not read the screen.
- Classifier.Distance: Python sums the quarter differences in floating
  point; the model uses exact `real` arithmetic, so rounding is not
  modelled.
