/** The differential frame encoder: a persistent 25 x 80 screen of glyph
    codes, and per frame a record of (skip, glyph) pairs for the cells of
    the active region (columns 10 to 69) whose glyph changed. */
module Encoder {
  import opened Stream
  import opened Classifier

  /** First active column. */
  const Left := 10
  /** One past the last active column. */
  const Right := 70
  /** Width of the active region: one classified glyph per cell. */
  const Width := Right - Left

  /** The classified frame: Rows rows of Width glyph codes, column x of the
      display holding glyphs[y][x - Left]. */
  ghost predicate IsGlyphGrid(glyphs: seq<seq<int>>)
  {
    |glyphs| == Rows && forall y :: 0 <= y < Rows ==> |glyphs[y]| == Width
  }

  /** A frame as the classifier sees it: Rows rows of Width cells, each
      cell the intensities of its quarters. */
  ghost predicate IsQuarterGrid(frame: seq<seq<seq<real>>>)
  {
    |frame| == Rows && forall y :: 0 <= y < Rows ==> |frame[y]| == Width
  }

  /** glyphs holds the classification of every cell of frame against the
      reference palette. */
  ghost predicate Classified(frame: seq<seq<seq<real>>>, glyphs: seq<seq<int>>)
  {
    IsQuarterGrid(frame) && IsGlyphGrid(glyphs) &&
    forall y :: 0 <= y < Rows ==> RowClassified(frame[y], glyphs[y])
  }

  /** codes holds the classification of every cell of a row. */
  ghost predicate RowClassified(cells: seq<seq<real>>, codes: seq<int>)
  {
    |codes| == |cells| && forall x :: 0 <= x < |cells| ==> IsBestFit(Blocks, cells[x], codes[x])
  }

  /** Classifies every cell of a frame, row by row. */
  method ClassifyFrame(frame: seq<seq<seq<real>>>) returns (glyphs: seq<seq<int>>)
    requires IsQuarterGrid(frame)
    ensures Classified(frame, glyphs)
  {
    glyphs := [];
    for y := 0 to Rows
      invariant |glyphs| == y
      invariant forall j :: 0 <= j < y ==> RowClassified(frame[j], glyphs[j])
    {
      var row := ClassifyRow(frame[y]);
      glyphs := glyphs + [row];
    }
  }

  /** Classifies the cells of one row, left to right. */
  method ClassifyRow(cells: seq<seq<real>>) returns (codes: seq<int>)
    ensures RowClassified(cells, codes)
  {
    codes := [];
    for x := 0 to |cells|
      invariant |codes| == x
      invariant forall i :: 0 <= i < x ==> IsBestFit(Blocks, cells[i], codes[i])
    {
      var v := GetBestFit(cells[x]);
      ghost var done := codes;
      codes := codes + [v];
      assert forall i :: 0 <= i < x ==> codes[i] == done[i];
      assert codes[x] == v;
    }
  }

  /** The glyphs of a classified frame are block codes, so bytes. */
  lemma ClassifiedBytes(frame: seq<seq<seq<real>>>, glyphs: seq<seq<int>>)
    requires Classified(frame, glyphs)
    ensures forall y, x :: 0 <= y < Rows && 0 <= x < Width ==> 0 <= glyphs[y][x] <= 255
  {
    forall y, x | 0 <= y < Rows && 0 <= x < Width
      ensures 0 <= glyphs[y][x] <= 255
    {
      assert RowClassified(frame[y], glyphs[y]);
      BestFitIsBlock(frame[y][x], glyphs[y][x]);
    }
  }

  /** The screen before the first frame: every cell 0, the blank glyph. */
  function Blank(): (s: seq<int>)
    ensures |s| == Size && forall p :: 0 <= p < Size ==> s[p] == 0
  {
    seq(Size, _ => 0)
  }

  /** The screen after a frame: the active region shows the classified
      glyphs, the margins keep what they showed. */
  function Target(screen: seq<int>, glyphs: seq<seq<int>>): (t: seq<int>)
    requires |screen| == Size && IsGlyphGrid(glyphs)
    ensures |t| == Size
    ensures forall y, x :: 0 <= y < Rows && 0 <= x < Cols ==>
      t[Pos(y, x)] == if Left <= x < Right then glyphs[y][x - Left] else screen[Pos(y, x)]
  {
    var t := seq(Size, p requires 0 <= p < Size => NewCell(screen, glyphs, p));
    assert forall y, x :: 0 <= y < Rows && 0 <= x < Cols ==>
      t[Pos(y, x)] == if Left <= x < Right then glyphs[y][x - Left] else screen[Pos(y, x)]
    by {
      forall y, x | 0 <= y < Rows && 0 <= x < Cols {
        PosOfCell(y, x);
      }
    }
    t
  }

  function NewCell(screen: seq<int>, glyphs: seq<seq<int>>, p: int): int
    requires |screen| == Size && IsGlyphGrid(glyphs) && 0 <= p < Size
  {
    if Left <= p % Cols < Right then glyphs[p / Cols][p % Cols - Left] else screen[p]
  }

  /** Showing byte-sized glyphs on a screen of bytes leaves a screen of
      bytes. */
  lemma TargetBytes(screen: seq<int>, glyphs: seq<seq<int>>)
    requires |screen| == Size && IsGlyphGrid(glyphs) && IsBytes(screen)
    requires forall y, x :: 0 <= y < Rows && 0 <= x < Width ==> 0 <= glyphs[y][x] <= 255
    ensures IsBytes(Target(screen, glyphs))
  {
    var t := Target(screen, glyphs);
    forall p | 0 <= p < Size
      ensures 0 <= t[p] <= 255
    {
      CellOfPos(p);
    }
  }

  /** The classified glyphs already match the screen on the active region. */
  ghost predicate Agrees(screen: seq<int>, glyphs: seq<seq<int>>)
    requires |screen| == Size && IsGlyphGrid(glyphs)
  {
    forall y, x :: 0 <= y < Rows && Left <= x < Right ==> screen[Pos(y, x)] == glyphs[y][x - Left]
  }

  /** A frame leaves the screen as it is exactly when its glyphs agree with
      the screen on the active region. */
  lemma AgreesIffFixed(screen: seq<int>, glyphs: seq<seq<int>>)
    requires |screen| == Size && IsGlyphGrid(glyphs)
    ensures Agrees(screen, glyphs) <==> Target(screen, glyphs) == screen
  {
    var t := Target(screen, glyphs);
    if Agrees(screen, glyphs) {
      forall p | 0 <= p < Size
        ensures t[p] == screen[p]
      {
        CellOfPos(p);
      }
    }
  }

  /** The screens of a run: the start screen, then the one after each
      frame. */
  function Screens(start: seq<int>, frames: seq<seq<seq<int>>>): (h: seq<seq<int>>)
    requires |start| == Size
    requires forall i :: 0 <= i < |frames| ==> IsGlyphGrid(frames[i])
    ensures |h| == |frames| + 1 && h[0] == start
    ensures forall i :: 0 <= i < |h| ==> |h[i]| == Size
    decreases |frames|
  {
    if |frames| == 0 then [start]
    else
      var prev := Screens(start, frames[..|frames| - 1]);
      prev + [Target(prev[|prev| - 1], frames[|frames| - 1])]
  }

  /** One more frame adds the screen it leaves. */
  lemma ScreensAppend(start: seq<int>, frames: seq<seq<seq<int>>>, glyphs: seq<seq<int>>)
    requires |start| == Size && IsGlyphGrid(glyphs)
    requires forall i :: 0 <= i < |frames| ==> IsGlyphGrid(frames[i])
    ensures forall i :: 0 <= i < |frames| + 1 ==> IsGlyphGrid((frames + [glyphs])[i])
    ensures var h := Screens(start, frames);
      Screens(start, frames + [glyphs]) == h + [Target(h[|h| - 1], glyphs)]
  {
    var all := frames + [glyphs];
    assert all[..|all| - 1] == frames;
  }

  /** Each screen of a run is the previous one with the next frame shown. */
  lemma {:induction false} ScreensStep(start: seq<int>, frames: seq<seq<seq<int>>>)
    requires |start| == Size
    requires forall i :: 0 <= i < |frames| ==> IsGlyphGrid(frames[i])
    ensures forall i :: 0 <= i < |frames| ==>
      Screens(start, frames)[i + 1] == Target(Screens(start, frames)[i], frames[i])
    decreases |frames|
  {
    if |frames| > 0 {
      var pre := frames[..|frames| - 1];
      ScreensStep(start, pre);
      var h, g := Screens(start, frames), Screens(start, pre);
      assert h == g + [Target(g[|g| - 1], frames[|frames| - 1])];
      forall i | 0 <= i < |frames|
        ensures h[i + 1] == Target(h[i], frames[i])
      {
        if i < |pre| {
          assert frames[i] == pre[i] && h[i] == g[i] && h[i + 1] == g[i + 1];
        } else {
          assert h[i] == g[|g| - 1];
        }
      }
    }
  }

  /** The margins (columns outside [Left, Right)) of every screen of a run
      from the blank screen stay 0. */
  lemma {:induction false} MarginsStayBlank(frames: seq<seq<seq<int>>>)
    requires forall i :: 0 <= i < |frames| ==> IsGlyphGrid(frames[i])
    ensures forall i, y, x :: 0 <= i <= |frames| && 0 <= y < Rows && 0 <= x < Cols && !(Left <= x < Right) ==>
      Screens(Blank(), frames)[i][Pos(y, x)] == 0
    decreases |frames|
  {
    var h := Screens(Blank(), frames);
    if |frames| > 0 {
      var pre := frames[..|frames| - 1];
      MarginsStayBlank(pre);
      var g := Screens(Blank(), pre);
      assert h == g + [Target(g[|g| - 1], frames[|frames| - 1])];
      forall i, y, x | 0 <= i < |h| && 0 <= y < Rows && 0 <= x < Cols && !(Left <= x < Right)
        ensures h[i][Pos(y, x)] == 0
      {
        if i < |g| {
          assert h[i] == g[i];
        } else {
          var j := |g| - 1;
          assert 0 <= j < |g|;
          assert g[j][Pos(y, x)] == 0;
        }
      }
    } else {
      forall i, y, x | 0 <= i < |h| && 0 <= y < Rows && 0 <= x < Cols && !(Left <= x < Right)
        ensures h[i][Pos(y, x)] == 0
      {
        PosOfCell(y, x);
      }
    }
  }

  /** The encoder's persistent state: the screen, as the glyph code shown in
      every cell. */
  class FrameEncoder {
    /** The screen, row by row. */
    const cells: array2<int>
    /** The same screen, row-major: Shown[Pos(y, x)] is cells[y, x]. */
    ghost var Shown: seq<int>

    ghost predicate Valid()
      reads this, cells
    {
      cells.Length0 == Rows && cells.Length1 == Cols && |Shown| == Size &&
      forall y, x :: 0 <= y < Rows && 0 <= x < Cols ==> cells[y, x] == Shown[Pos(y, x)]
    }

    /** The screen starts blank. */
    constructor ()
      ensures Valid() && fresh(cells)
      ensures Shown == Blank()
    {
      cells := new int[Rows, Cols]((_, _) => 0);
      Shown := Blank();
      new;
      forall y, x | 0 <= y < Rows && 0 <= x < Cols
        ensures cells[y, x] == Shown[Pos(y, x)]
      {
        PosOfCell(y, x);
      }
    }

    /** The glyph shown at linear position p, read from its row and
        column. */
    function At(p: int): (g: int)
      reads this, cells
      requires Valid() && 0 <= p < Size
      ensures g == Shown[p]
    {
      CellOfPos(p);
      cells[p / Cols, p % Cols]
    }

    /** Shows glyph v in cell (y, x). */
    method Show(y: int, x: int, v: int)
      requires Valid() && 0 <= y < Rows && 0 <= x < Cols
      modifies this, cells
      ensures Valid() && Shown == old(Shown)[Pos(y, x) := v]
      ensures forall y', x' :: 0 <= y' < Rows && 0 <= x' < Cols && (y', x') != (y, x) ==>
        cells[y', x'] == old(cells[y', x'])
    {
      cells[y, x] := v;
      Shown := Shown[Pos(y, x) := v];
      forall y', x' | 0 <= y' < Rows && 0 <= x' < Cols
        ensures cells[y', x'] == Shown[Pos(y', x')]
      {
        PosOfCell(y', x');
      }
    }

    /** The filler loop for a change at q: while the gap from the cursor
        exceeds MaxSkip, advance the cursor by MaxSkip and emit a pair that
        re-asserts the glyph shown there. */
    method Fill(cursor: int, out: seq<int>, q: int, ghost before: seq<int>, ghost target: seq<int>)
      returns (cursor': int, out': seq<int>)
      requires Valid() && Pending(before, target, Shown, out, cursor, q)
      ensures Pending(before, target, Shown, out', cursor', q)
      ensures cursor <= cursor' && q - cursor' <= MaxSkip
      ensures |out| <= |out'| && out'[..|out|] == out
    {
      cursor', out' := cursor, out;
      while cursor' + MaxSkip < q
        invariant Pending(before, target, Shown, out', cursor', q)
        invariant cursor <= cursor'
        invariant |out| <= |out'| && out'[..|out|] == out
      {
        var next := cursor' + MaxSkip;
        var filled := out' + [MaxSkip, At(next)];
        FillerStep(before, target, Shown, out', cursor', q, filled);
        cursor', out' := next, filled;
      }
    }

    /** The scan of row y across the active region: each cell whose new
        glyph differs from the one shown gets its fillers and its pair, and
        is shown. */
    method EncodeRow(y: int, glyphs: seq<seq<int>>, cursor: int, out: seq<int>,
                     ghost before: seq<int>, ghost target: seq<int>)
      returns (cursor': int, out': seq<int>)
      requires Valid() && 0 <= y < Rows && IsGlyphGrid(glyphs)
      requires |before| == Size && target == Target(before, glyphs)
      requires Inv(before, target, Shown, out, cursor, Pos(y, Left))
      modifies this, cells
      ensures Valid() && Inv(before, target, Shown, out', cursor', Pos(y, Right))
    {
      cursor', out' := cursor, out;
      for x := Left to Right
        invariant Valid()
        invariant Inv(before, target, Shown, out', cursor', Pos(y, x))
      {
        cursor', out' := EncodeCell(y, x, glyphs[y][x - Left], cursor', out', before, target);
      }
    }

    /** One cell of the scan: when its new glyph v differs from the one
        shown, the fillers up to it and its own pair are emitted and v is
        shown; otherwise nothing changes. */
    method EncodeCell(y: int, x: int, v: int, cursor: int, out: seq<int>,
                      ghost before: seq<int>, ghost target: seq<int>)
      returns (cursor': int, out': seq<int>)
      requires Valid() && 0 <= y < Rows && 0 <= x < Cols
      requires Inv(before, target, Shown, out, cursor, Pos(y, x)) && v == target[Pos(y, x)]
      modifies this, cells
      ensures Valid() && Inv(before, target, Shown, out', cursor', Pos(y, x) + 1)
    {
      PosOfCell(y, x);
      assert cells[y, x] == before[Pos(y, x)];
      if cells[y, x] != v {
        var c, o := Fill(cursor, out, Pos(y, x), before, target);
        ghost var shown := Shown;
        out' := o + [Pos(y, x) - c, v];
        cursor' := Pos(y, x);
        Show(y, x, v);
        ChangeStep(before, target, shown, o, c, Pos(y, x), Shown, out');
      } else {
        cursor', out' := cursor, out;
        SkipUnchanged(before, target, Shown, out, cursor, Pos(y, x), Pos(y, x) + 1);
      }
    }

    /** Encodes one classified frame: emits the record of the changed cells
        of the active region, in row-major order, and shows the frame. */
    method EncodeFrame(glyphs: seq<seq<int>>) returns (out: seq<int>)
      requires Valid() && IsGlyphGrid(glyphs)
      modifies this, cells
      ensures Valid()
      ensures forall y, x :: 0 <= y < Rows && 0 <= x < Cols ==>
        cells[y, x] == if Left <= x < Right then glyphs[y][x - Left] else old(cells[y, x])
      ensures Shown == Target(old(Shown), glyphs)
      ensures Canonical(old(Shown), Shown, out)
      ensures WellFormed(out)
      ensures out == [Terminator] <==> Agrees(old(Shown), glyphs)
    {
      ghost var before := Shown;
      ghost var target := Target(before, glyphs);
      out := [];
      var cursor := -1;
      for y := 0 to Rows
        invariant Valid()
        invariant Inv(before, target, Shown, out, cursor, Pos(y, 0))
      {
        SkipMargin(before, glyphs, Shown, out, cursor, y, Pos(y, 0), Pos(y, Left));
        cursor, out := EncodeRow(y, glyphs, cursor, out, before, target);
        SkipMargin(before, glyphs, Shown, out, cursor, y, Pos(y, Right), Pos(y + 1, 0));
      }
      Conclude(before, glyphs, Shown, out, cursor);
      out := out + [Terminator];
      forall y, x | 0 <= y < Rows && 0 <= x < Cols
        ensures cells[y, x] == if Left <= x < Right then glyphs[y][x - Left] else old(cells[y, x])
      {
        PosOfCell(y, x);
      }
    }
  }

  /** Loop state of EncodeFrame at scan position q: the record so far
      replays from before onto the current screen and ends at the cursor;
      the screen shows target below q and before from q on; no cell between
      the cursor and q changes; fillers are maximal and the last pair is at
      a changed cell. */
  ghost predicate Inv(before: seq<int>, target: seq<int>, shown: seq<int>, out: seq<int>, cursor: int, q: int)
  {
    Pending(before, target, shown, out, cursor, q) && EndsOnChange(before, target, out)
  }

  /** Inv without the last-pair condition: the state inside the filler
      loop. */
  ghost predicate Pending(before: seq<int>, target: seq<int>, shown: seq<int>, out: seq<int>, cursor: int, q: int)
  {
    |before| == Size && |target| == Size && |shown| == Size && 0 <= q <= Size && -1 <= cursor < q &&
    Replay(before, out) == Some(Replayed(shown, cursor)) &&
    Cursor(Positions(out)) == cursor &&
    (forall p :: 0 <= p < Size ==> shown[p] == if p < q then target[p] else before[p]) &&
    (forall p :: cursor < p < q ==> before[p] == target[p]) &&
    FillersMaximal(before, target, out)
  }

  /** Appending a pair that is a full skip, or lands on a changed cell,
      keeps the fillers maximal. */
  lemma FillersAppend(before: seq<int>, target: seq<int>, out: seq<int>, skip: int, glyph: int)
    requires |target| == |before| && |out| % 2 == 0
    requires FillersMaximal(before, target, out)
    requires var c := Cursor(Positions(out)) + skip;
      0 <= c < |before| && before[c] == target[c] ==> skip == MaxSkip
    ensures FillersMaximal(before, target, out + [skip, glyph])
  {
    var body := out + [skip, glyph];
    var po, ps := Positions(out), Positions(body);
    AppendPosition(out, skip, glyph);
    assert 2 * |po| == |out|;
    forall i | 0 <= i < |ps| && 0 <= ps[i] < |before| && before[ps[i]] == target[ps[i]]
      ensures body[2 * i] == MaxSkip
    {
      if i < |po| {
        assert ps[i] == po[i] && body[2 * i] == out[2 * i];
      } else {
        assert i == |po| && 2 * i == |out|;
        assert ps[i] == Cursor(po) + skip && body[2 * i] == skip;
      }
    }
  }

  /** One filler: the cursor moves a full skip to a cell that does not
      change, and the pair re-asserts the glyph shown there. */
  lemma FillerStep(before: seq<int>, target: seq<int>, shown: seq<int>, out: seq<int>, cursor: int, q: int,
                   out': seq<int>)
    requires Pending(before, target, shown, out, cursor, q) && cursor + MaxSkip < q
    requires out' == out + [MaxSkip, shown[cursor + MaxSkip]]
    ensures Pending(before, target, shown, out', cursor + MaxSkip, q)
  {
    var c := cursor + MaxSkip;
    ReplayStep(before, out, shown, cursor, MaxSkip, shown[c], out');
    FillersAppend(before, target, out, MaxSkip, shown[c]);
    assert shown[c := shown[c]] == shown;
  }

  /** The pair for a changed cell at q, within one skip of the cursor. */
  lemma ChangeStep(before: seq<int>, target: seq<int>, shown: seq<int>, out: seq<int>, cursor: int, q: int,
                   shown': seq<int>, out': seq<int>)
    requires Pending(before, target, shown, out, cursor, q) && q < Size
    requires q <= cursor + MaxSkip && before[q] != target[q]
    requires shown' == shown[q := target[q]] && out' == out + [q - cursor, target[q]]
    ensures Inv(before, target, shown', out', q, q + 1)
  {
    ReplayStep(before, out, shown, cursor, q - cursor, target[q], out');
    FillersAppend(before, target, out, q - cursor, target[q]);
    forall p | 0 <= p < Size
      ensures shown'[p] == if p < q + 1 then target[p] else before[p]
    {
    }
    assert EndsOnChange(before, target, out');
  }

  /** Scanning cells that do not change keeps the loop state. */
  lemma SkipUnchanged(before: seq<int>, target: seq<int>, shown: seq<int>, out: seq<int>, cursor: int, q: int, q': int)
    requires Inv(before, target, shown, out, cursor, q) && q <= q' <= Size
    requires forall p :: q <= p < q' ==> before[p] == target[p]
    ensures Inv(before, target, shown, out, cursor, q')
  {
  }

  /** At the end of the scan the screen is the target, and the record with
      its terminator is canonical. */
  lemma Finish(before: seq<int>, target: seq<int>, shown: seq<int>, out: seq<int>, cursor: int)
    requires Inv(before, target, shown, out, cursor, Size)
    ensures shown == target
    ensures Canonical(before, target, out + [Terminator])
  {
    assert Body(out + [Terminator]) == out;
  }

  /** The cells from q to q' form a margin of row y (its left one, or its
      right one up to the next row): they never change, so scanning them
      keeps the loop state. */
  lemma SkipMargin(before: seq<int>, glyphs: seq<seq<int>>, shown: seq<int>, out: seq<int>, cursor: int,
                   y: int, q: int, q': int)
    requires |before| == Size && IsGlyphGrid(glyphs) && 0 <= y < Rows
    requires (q == Pos(y, 0) && q' == Pos(y, Left)) || (q == Pos(y, Right) && q' == Pos(y + 1, 0))
    requires Inv(before, Target(before, glyphs), shown, out, cursor, q)
    ensures Inv(before, Target(before, glyphs), shown, out, cursor, q')
  {
    var target := Target(before, glyphs);
    forall p | q <= p < q'
      ensures before[p] == target[p]
    {
      var x := p - Pos(y, 0);
      assert p == Pos(y, x) && 0 <= x < Cols && !(Left <= x < Right);
    }
    SkipUnchanged(before, target, shown, out, cursor, q, q');
  }

  /** The end of a frame: the screen is the target, the record with its
      terminator is canonical and well formed, and it is the bare
      terminator exactly when the glyphs agree with the screen. */
  lemma Conclude(before: seq<int>, glyphs: seq<seq<int>>, shown: seq<int>, out: seq<int>, cursor: int)
    requires |before| == Size && IsGlyphGrid(glyphs)
    requires Inv(before, Target(before, glyphs), shown, out, cursor, Size)
    ensures shown == Target(before, glyphs)
    ensures Canonical(before, shown, out + [Terminator]) && WellFormed(out + [Terminator])
    ensures out + [Terminator] == [Terminator] <==> Agrees(before, glyphs)
  {
    Finish(before, Target(before, glyphs), shown, out, cursor);
    DecodedIsWellFormed(before, out + [Terminator]);
    AgreesIffFixed(before, glyphs);
    if Agrees(before, glyphs) {
      NoChangeNoPairs(before, out + [Terminator]);
    }
  }

  /** The first n frames of clip have been classified into frames and
      encoded into records; history holds the screens of the run so far. */
  ghost predicate Run(clip: seq<seq<seq<seq<real>>>>, n: int, frames: seq<seq<seq<int>>>,
                      records: seq<seq<int>>, history: seq<seq<int>>)
  {
    0 <= n <= |clip| && |frames| == n && |records| == n &&
    (forall j :: 0 <= j < n ==> Classified(clip[j], frames[j])) &&
    (forall j :: 0 <= j < n ==> IsGlyphGrid(frames[j])) &&
    history == Screens(Blank(), frames) &&
    Playback(Blank(), records) == Some(history) &&
    (forall j :: 0 <= j < n ==> Canonical(history[j], history[j + 1], records[j])) &&
    (forall j :: 0 <= j <= n ==> IsBytes(history[j])) &&
    forall j :: 0 <= j < n ==> IsBytes(records[j])
  }

  /** Encoding frame n onto the last screen extends the run. */
  lemma RunStep(clip: seq<seq<seq<seq<real>>>>, n: int, frames: seq<seq<seq<int>>>,
                records: seq<seq<int>>, history: seq<seq<int>>,
                glyphs: seq<seq<int>>, record: seq<int>, next: seq<int>)
    requires Run(clip, n, frames, records, history) && n < |clip|
    requires Classified(clip[n], glyphs)
    requires next == Target(history[n], glyphs) && Canonical(history[n], next, record)
    ensures Run(clip, n + 1, frames + [glyphs], records + [record], history + [next])
  {
    ScreensAppend(Blank(), frames, glyphs);
    PlaybackAppend(Blank(), records, record, next);
    ClassifiedBytes(clip[n], glyphs);
    TargetBytes(history[n], glyphs);
    CanonicalBytes(history[n], next, record);
    var h, rs := history + [next], records + [record];
    forall j | 0 <= j < n + 1
      ensures Canonical(h[j], h[j + 1], rs[j]) && IsBytes(rs[j])
    {
      if j < n {
        assert h[j] == history[j] && h[j + 1] == history[j + 1] && rs[j] == records[j];
      }
    }
    forall j | 0 <= j <= n + 1
      ensures IsBytes(h[j])
    {
      if j <= n {
        assert h[j] == history[j];
      }
    }
  }

  /** The whole run: a fresh blank screen, then per frame its
      classification and its record. The records play back, from the blank
      screen, to the screens of the run; each is the canonical record of
      its frame. */
  method Process(clip: seq<seq<seq<seq<real>>>>) returns (records: seq<seq<int>>, ghost frames: seq<seq<seq<int>>>)
    requires forall i :: 0 <= i < |clip| ==> IsQuarterGrid(clip[i])
    ensures |records| == |clip| && |frames| == |clip|
    ensures forall i :: 0 <= i < |clip| ==> Classified(clip[i], frames[i])
    ensures forall i :: 0 <= i < |frames| ==> IsGlyphGrid(frames[i])
    ensures Playback(Blank(), records) == Some(Screens(Blank(), frames))
    ensures forall i :: 0 <= i < |clip| ==>
      Canonical(Screens(Blank(), frames)[i], Screens(Blank(), frames)[i + 1], records[i])
    ensures forall i :: 0 <= i < |clip| ==> IsBytes(records[i])
  {
    var screen := new FrameEncoder();
    records, frames := [], [];
    ghost var history := [Blank()];
    assert IsBytes(history[0]);
    for i := 0 to |clip|
      invariant fresh(screen.cells) && screen.Valid()
      invariant Run(clip, i, frames, records, history) && screen.Shown == history[i]
    {
      var glyphs := ClassifyFrame(clip[i]);
      var record := screen.EncodeFrame(glyphs);
      RunStep(clip, i, frames, records, history, glyphs, record, screen.Shown);
      records, frames := records + [record], frames + [glyphs];
      history := history + [screen.Shown];
    }
  }
}
