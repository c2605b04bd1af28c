/** The frame-record format written by the encoder, and the decoder that
    replays it.

    The display is 25 rows of 80 glyph codes, addressed row-major by the
    linear position 80 * y + x. A frame record is a run of (skip, glyph)
    pairs followed by the terminator 0: starting from cursor -1, each pair
    moves the cursor forward by skip and writes glyph there. */
module Stream {

  const Rows := 25
  const Cols := 80
  const Size := Rows * Cols

  /** The skip field is one byte. */
  const MaxSkip := 255

  /** Ends a frame record; a skip is never 0. */
  const Terminator := 0

  datatype Option<T> = None | Some(value: T)

  /** Linear position of display cell (y, x). */
  function Pos(y: int, x: int): int { Cols * y + x }

  lemma CellOfPos(p: int)
    requires 0 <= p < Size
    ensures 0 <= p / Cols < Rows && 0 <= p % Cols < Cols && Pos(p / Cols, p % Cols) == p
  {
  }

  lemma PosOfCell(y: int, x: int)
    requires 0 <= y < Rows && 0 <= x < Cols
    ensures 0 <= Pos(y, x) < Size && Pos(y, x) / Cols == y && Pos(y, x) % Cols == x
  {
  }

  /** Decoder state: the display so far and the cursor position. */
  datatype Replayed = Replayed(grid: seq<int>, cursor: int)

  /** One pair: move the cursor forward by skip and write glyph there.
      None when skip is outside [1, MaxSkip] or the cursor would leave the
      display. */
  function Apply(st: Replayed, skip: int, glyph: int): (r: Option<Replayed>)
    ensures r.Some? ==> |r.value.grid| == |st.grid| && r.value.cursor == st.cursor + skip
  {
    var pos := st.cursor + skip;
    if 1 <= skip <= MaxSkip && 0 <= pos < |st.grid| then Some(Replayed(st.grid[pos := glyph], pos))
    else None
  }

  /** Replays the pairs of body onto start, from cursor -1. None when body
      has an odd length or some pair cannot be applied. */
  function Replay(start: seq<int>, body: seq<int>): (r: Option<Replayed>)
    ensures r.Some? ==> |body| % 2 == 0
    ensures r.Some? ==> |r.value.grid| == |start| && -1 <= r.value.cursor < |start|
    decreases |body|
  {
    if |body| == 0 then Some(Replayed(start, -1))
    else if |body| == 1 then None
    else
      match Replay(start, body[..|body| - 2])
      case None => None
      case Some(st) => Apply(st, body[|body| - 2], body[|body| - 1])
  }

  /** The pairs of a record, without its terminator. */
  function Body(record: seq<int>): seq<int>
    requires |record| > 0
  {
    record[..|record| - 1]
  }

  /** Decodes one frame record against the display shown before it. */
  function DecodeFrame(before: seq<int>, record: seq<int>): (r: Option<seq<int>>)
    ensures r.Some? ==> |r.value| == |before|
    ensures r.Some? ==> |record| % 2 == 1 && record[|record| - 1] == Terminator
  {
    if |record| == 0 || record[|record| - 1] != Terminator then None
    else
      match Replay(before, Body(record))
      case None => None
      case Some(st) => Some(st.grid)
  }

  /** Decodes a whole stream of frame records: the displays before the first
      record and after each one. */
  function Playback(start: seq<int>, records: seq<seq<int>>): (r: Option<seq<seq<int>>>)
    ensures r.Some? ==> |r.value| == |records| + 1 && r.value[0] == start
    decreases |records|
  {
    if |records| == 0 then Some([start])
    else
      match Playback(start, records[..|records| - 1])
      case None => None
      case Some(shown) =>
        match DecodeFrame(shown[|shown| - 1], records[|records| - 1])
        case None => None
        case Some(next) => Some(shown + [next])
  }

  /** The cursor after visiting ps: its last position, or -1. */
  function Cursor(ps: seq<int>): int
  {
    if ps == [] then -1 else ps[|ps| - 1]
  }

  /** The positions the pairs of body visit, in order. */
  function Positions(body: seq<int>): (ps: seq<int>)
    ensures |ps| == |body| / 2
    decreases |body|
  {
    if |body| < 2 then []
    else
      var prev := Positions(body[..|body| - 2]);
      prev + [Cursor(prev) + body[|body| - 2]]
  }

  /** The first pair lands body[0] cells after -1, every later one its
      skip after the one before it. */
  lemma {:induction false} PositionsStep(body: seq<int>)
    requires |body| % 2 == 0
    ensures var ps := Positions(body);
      && (|ps| > 0 ==> ps[0] == body[0] - 1)
      && (forall i :: 0 < i < |ps| ==> ps[i] == ps[i - 1] + body[2 * i])
    decreases |body|
  {
    if |body| >= 2 {
      var pre := body[..|body| - 2];
      PositionsStep(pre);
      var ps, qs := Positions(body), Positions(pre);
      assert ps == qs + [Cursor(qs) + body[|body| - 2]];
      if |qs| > 0 {
        assert body[0] == pre[0];
      }
      forall i | 0 < i < |ps|
        ensures ps[i] == ps[i - 1] + body[2 * i]
      {
        if i < |qs| {
          assert body[2 * i] == pre[2 * i];
        } else {
          assert 2 * i == |body| - 2;
        }
      }
    }
  }

  /** A successful replay leaves the cursor at the last visited position. */
  lemma {:induction false} ReplayCursor(start: seq<int>, body: seq<int>)
    requires Replay(start, body).Some?
    ensures Replay(start, body).value.cursor == Cursor(Positions(body))
    decreases |body|
  {
    if |body| >= 2 {
      var pre := body[..|body| - 2];
      ReplayCursor(start, pre);
      assert Replay(start, body) == Apply(Replay(start, pre).value, body[|body| - 2], body[|body| - 1]);
    }
  }

  /** What a successful replay did: every skip is in [1, MaxSkip], the
      visited positions lie on the display and strictly increase, the last
      is the cursor, each visited cell holds the glyph of its pair, and no
      other cell changed. */
  lemma {:induction false} ReplayTrace(start: seq<int>, body: seq<int>)
    requires Replay(start, body).Some?
    ensures var st, ps := Replay(start, body).value, Positions(body);
      && st.cursor == Cursor(ps)
      && (forall i :: 0 <= i < |ps| ==> 1 <= body[2 * i] <= MaxSkip)
      && (forall i :: 0 <= i < |ps| ==> 0 <= ps[i] <= st.cursor)
      && (forall i, j :: 0 <= i < j < |ps| ==> ps[i] < ps[j])
      && (forall i :: 0 <= i < |ps| ==> st.grid[ps[i]] == body[2 * i + 1])
      && (forall p :: 0 <= p < |start| && p !in ps ==> st.grid[p] == start[p])
    decreases |body|
  {
    if |body| >= 2 {
      var pre := body[..|body| - 2];
      ReplayTrace(start, pre);
      ReplayCursor(start, body);
      var prev, qs := Replay(start, pre).value, Positions(pre);
      assert Replay(start, body) == Apply(prev, body[|body| - 2], body[|body| - 1]);
      var st, ps := Replay(start, body).value, Positions(body);
      assert st.cursor == prev.cursor + body[|body| - 2] == Cursor(qs) + body[|body| - 2];
      assert ps == qs + [st.cursor];
      assert st.grid == prev.grid[st.cursor := body[|body| - 1]];
      assert 2 * |qs| == |body| - 2 && 1 <= body[|body| - 2] <= MaxSkip;
      forall i | 0 <= i < |qs|
        ensures body[2 * i] == pre[2 * i] && body[2 * i + 1] == pre[2 * i + 1]
      {
      }
    }
  }

  /** Replaying one more pair applies it to the state the record so far
      left. */
  lemma AppendPair(before: seq<int>, out: seq<int>, skip: int, glyph: int)
    requires Replay(before, out).Some?
    ensures Replay(before, out + [skip, glyph]) == Apply(Replay(before, out).value, skip, glyph)
  {
    var body := out + [skip, glyph];
    assert body[..|body| - 2] == out;
  }

  lemma AppendPosition(out: seq<int>, skip: int, glyph: int)
    ensures Positions(out + [skip, glyph]) == Positions(out) + [Cursor(Positions(out)) + skip]
  {
    var body := out + [skip, glyph];
    assert body[..|body| - 2] == out;
  }

  /** One pair appended to a body replayed onto shown: the cursor moves by
      the skip and the cell there shows the glyph. */
  lemma ReplayStep(before: seq<int>, out: seq<int>, shown: seq<int>, cursor: int, skip: int, glyph: int,
                   out': seq<int>)
    requires Replay(before, out) == Some(Replayed(shown, cursor)) && Cursor(Positions(out)) == cursor
    requires 1 <= skip <= MaxSkip && 0 <= cursor + skip < |shown|
    requires out' == out + [skip, glyph]
    ensures Replay(before, out') == Some(Replayed(shown[cursor + skip := glyph], cursor + skip))
    ensures Cursor(Positions(out')) == cursor + skip
  {
    AppendPair(before, out, skip, glyph);
    AppendPosition(out, skip, glyph);
  }

  /** A record is well formed: pairs, then the terminator, every skip in
      [1, MaxSkip]. */
  ghost predicate WellFormed(record: seq<int>)
  {
    |record| % 2 == 1 && record[|record| - 1] == Terminator &&
    forall i :: 0 <= i < |record| / 2 ==> 1 <= record[2 * i] <= MaxSkip
  }

  /** Anything the decoder accepts is well formed, and its cursor
      positions strictly increase. */
  lemma DecodedIsWellFormed(before: seq<int>, record: seq<int>)
    requires DecodeFrame(before, record).Some?
    ensures WellFormed(record)
    ensures var ps := Positions(Body(record));
      forall i, j :: 0 <= i < j < |ps| ==> ps[i] < ps[j]
  {
    var body := Body(record);
    ReplayTrace(before, body);
    forall i | 0 <= i < |record| / 2
      ensures 1 <= record[2 * i] <= MaxSkip
    {
      assert record[2 * i] == body[2 * i];
    }
  }

  /** Every pair at a cell the record does not change is a filler: it skips
      the full MaxSkip cells. */
  ghost predicate FillersMaximal(before: seq<int>, after: seq<int>, body: seq<int>)
    requires |after| == |before|
  {
    var ps := Positions(body);
    forall i :: 0 <= i < |ps| && 0 <= ps[i] < |before| && before[ps[i]] == after[ps[i]] ==>
      body[2 * i] == MaxSkip
  }

  /** The last pair, if any, is at a changed cell (no trailing fillers). */
  ghost predicate EndsOnChange(before: seq<int>, after: seq<int>, body: seq<int>)
    requires |after| == |before|
  {
    var ps := Positions(body);
    ps != [] ==> 0 <= Cursor(ps) < |before| && before[Cursor(ps)] != after[Cursor(ps)]
  }

  /** record is the encoder's record for the change from before to after:
      it decodes to after, it has a pair at a cell only when that cell
      changes or the gap to the next change is too long for one skip, and it
      has no filler pair after the last change. */
  ghost predicate Canonical(before: seq<int>, after: seq<int>, record: seq<int>)
    ensures Canonical(before, after, record) ==>
      |after| == |before| && |record| % 2 == 1 && record[|record| - 1] == Terminator
  {
    DecodeFrame(before, record) == Some(after) &&
    FillersMaximal(before, after, Body(record)) &&
    EndsOnChange(before, after, Body(record))
  }

  /** Every changed cell is visited and receives its new glyph; a pair at an
      unchanged cell re-asserts the glyph already shown there. */
  lemma CanonicalVisits(before: seq<int>, after: seq<int>, record: seq<int>)
    requires Canonical(before, after, record)
    ensures var ps := Positions(Body(record));
      && (forall p :: 0 <= p < |before| && before[p] != after[p] ==> p in ps)
      && (forall i :: 0 <= i < |ps| ==> 0 <= ps[i] < |before| && Body(record)[2 * i + 1] == after[ps[i]])
      && (forall i :: 0 <= i < |ps| && before[ps[i]] == after[ps[i]] ==> Body(record)[2 * i + 1] == before[ps[i]])
  {
    ReplayTrace(before, Body(record));
  }

  /** The empty record, the terminator alone, leaves the display as it is. */
  lemma EmptyRecord(before: seq<int>)
    ensures Canonical(before, before, [Terminator])
  {
    assert Body([Terminator]) == [];
  }

  /** If nothing changes, the record is the terminator alone. */
  lemma NoChangeNoPairs(before: seq<int>, record: seq<int>)
    requires Canonical(before, before, record)
    ensures record == [Terminator]
  {
    var body := Body(record);
    ReplayTrace(before, body);
    assert Positions(body) == [];
    assert |body| == 0;
    assert record == body + [record[|record| - 1]];
  }

  /** A sole change at (y = 0, x = 10), linear position 10, is encoded as the
      single pair (11, v). */
  lemma SoleChangeFirstActiveCell(before: seq<int>, v: int, record: seq<int>)
    requires |before| == Size && before[10] != v
    requires Canonical(before, before[10 := v], record)
    ensures record == [11, v, Terminator]
  {
    var after := before[10 := v];
    var body := Body(record);
    var ps := Positions(body);
    ReplayTrace(before, body);
    PositionsStep(body);
    CanonicalVisits(before, after, record);
    assert 10 in ps;
    var k :| 0 <= k < |ps| && ps[k] == 10;
    if k > 0 {
      assert false;
    }
    if |ps| > 1 {
      assert false;
    }
    assert |body| == 2;
    assert record == body + [record[|record| - 1]];
  }

  /** Skip chaining: a sole change at linear distance 300 from the start
      cursor (position 299) is one filler (255, g) that re-asserts the glyph
      g already at position 254, followed by (45, v). */
  lemma SoleChangeAtDistance300(before: seq<int>, v: int, record: seq<int>)
    requires |before| == Size && before[299] != v
    requires Canonical(before, before[299 := v], record)
    ensures record == [MaxSkip, before[254], 45, v, Terminator]
  {
    var after := before[299 := v];
    var body := Body(record);
    var ps := Positions(body);
    ReplayTrace(before, body);
    PositionsStep(body);
    CanonicalVisits(before, after, record);
    assert 299 in ps;
    var k :| 0 <= k < |ps| && ps[k] == 299;
    assert ps[0] != 299;
    assert before[ps[0]] == after[ps[0]];
    assert body[0] == MaxSkip;
    assert ps[0] == 254;
    assert ps[1] <= ps[k];
    assert k == 1;
    if |ps| > 2 {
      assert false;
    }
    assert |body| == 4;
    assert record == body + [record[|record| - 1]];
  }

  /** Pair i of a canonical record, seen from the position prev before it
      (-1 for the first pair): it lands within one skip; every cell in
      between keeps its glyph; and a pair at a cell that keeps its glyph is
      a full skip. */
  lemma CanonicalPair(before: seq<int>, after: seq<int>, record: seq<int>, i: int)
    requires Canonical(before, after, record)
    requires 0 <= i < |Positions(Body(record))|
    ensures var ps := Positions(Body(record));
      var prev := if i == 0 then -1 else ps[i - 1];
      && |after| == |before| && -1 <= prev && ps[i] < |before|
      && prev < ps[i] <= prev + MaxSkip
      && (forall p :: prev < p < ps[i] ==> before[p] == after[p])
      && (before[ps[i]] == after[ps[i]] ==> ps[i] == prev + MaxSkip)
  {
    var body := Body(record);
    var ps := Positions(body);
    ReplayTrace(before, body);
    PositionsStep(body);
    CanonicalVisits(before, after, record);
    var prev := if i == 0 then -1 else ps[i - 1];
    assert ps[i] == prev + body[2 * i];
    forall p | prev < p < ps[i]
      ensures before[p] == after[p]
    {
      forall j | 0 <= j < |ps|
        ensures ps[j] != p
      {
        if j < i {
          assert ps[j] <= prev;
        } else {
          assert ps[i] <= ps[j];
        }
      }
    }
  }

  /** No cell after the last pair of a canonical record changes. */
  lemma CanonicalTail(before: seq<int>, after: seq<int>, record: seq<int>)
    requires Canonical(before, after, record)
    ensures forall p :: Cursor(Positions(Body(record))) < p < |before| ==> before[p] == after[p]
  {
    var ps := Positions(Body(record));
    ReplayTrace(before, Body(record));
    CanonicalVisits(before, after, record);
    forall p | Cursor(ps) < p < |before|
      ensures before[p] == after[p]
    {
      forall j | 0 <= j < |ps|
        ensures ps[j] != p
      {
      }
    }
  }

  /** Two canonical records for the same change visit the same first n
      positions. */
  lemma {:induction false} SamePositions(before: seq<int>, after: seq<int>, r1: seq<int>, r2: seq<int>, n: int)
    requires Canonical(before, after, r1) && Canonical(before, after, r2)
    requires 0 <= n <= |Positions(Body(r1))| && n <= |Positions(Body(r2))|
    ensures forall i :: 0 <= i < n ==> Positions(Body(r1))[i] == Positions(Body(r2))[i]
    decreases n
  {
    if n > 0 {
      SamePositions(before, after, r1, r2, n - 1);
      CanonicalPair(before, after, r1, n - 1);
      CanonicalPair(before, after, r2, n - 1);
    }
  }

  /** A canonical record has no more pairs than another for the same
      change: a record that stopped earlier would leave the other's last
      change unvisited. */
  lemma NoMorePairs(before: seq<int>, after: seq<int>, r1: seq<int>, r2: seq<int>)
    requires Canonical(before, after, r1) && Canonical(before, after, r2)
    ensures |Positions(Body(r1))| <= |Positions(Body(r2))|
  {
    var ps1, ps2 := Positions(Body(r1)), Positions(Body(r2));
    var n := if |ps1| < |ps2| then |ps1| else |ps2|;
    SamePositions(before, after, r1, r2, n);
    ReplayTrace(before, Body(r1));
    CanonicalTail(before, after, r2);
  }

  /** Entry k of the pairs that visit positions ps and write the glyphs of
      after: the skip from the previous position (-1 for the first), or the
      glyph of the visited cell. */
  function PairEntry(after: seq<int>, ps: seq<int>, k: int): int
    requires 0 <= k < 2 * |ps|
    requires forall i :: 0 <= i < |ps| ==> 0 <= ps[i] < |after|
  {
    var i := k / 2;
    if k % 2 == 1 then after[ps[i]]
    else if i == 0 then ps[0] + 1
    else ps[i] - ps[i - 1]
  }

  /** Two canonical records for the same change have the same number of
      pairs. */
  lemma SameLength(before: seq<int>, after: seq<int>, r1: seq<int>, r2: seq<int>)
    requires Canonical(before, after, r1) && Canonical(before, after, r2)
    ensures |Positions(Body(r1))| == |Positions(Body(r2))|
  {
    NoMorePairs(before, after, r1, r2);
    NoMorePairs(before, after, r2, r1);
  }

  /** A canonical record is determined by the positions it visits: each
      skip is the distance from the previous position, each glyph the new
      glyph of its cell. */
  lemma CanonicalEntries(before: seq<int>, after: seq<int>, record: seq<int>)
    requires Canonical(before, after, record)
    ensures var body, ps := Body(record), Positions(Body(record));
      && |body| == 2 * |ps|
      && (forall i :: 0 <= i < |ps| ==> 0 <= ps[i] < |after|)
      && forall k :: 0 <= k < |body| ==> body[k] == PairEntry(after, ps, k)
  {
    var body := Body(record);
    var ps := Positions(body);
    assert Replay(before, body).Some?;
    PositionsStep(body);
    CanonicalVisits(before, after, record);
    forall k | 0 <= k < |body|
      ensures body[k] == PairEntry(after, ps, k)
    {
      var i := k / 2;
      if k % 2 == 1 {
        assert k == 2 * i + 1;
      } else if i > 0 {
        assert k == 2 * i;
      }
    }
  }

  /** Two canonical records that visit the same positions are equal. */
  lemma SameBodies(before: seq<int>, after: seq<int>, r1: seq<int>, r2: seq<int>)
    requires Canonical(before, after, r1) && Canonical(before, after, r2)
    requires Positions(Body(r1)) == Positions(Body(r2))
    ensures Body(r1) == Body(r2)
  {
    CanonicalEntries(before, after, r1);
    CanonicalEntries(before, after, r2);
  }

  /** The canonical record of a change is unique: the encoder's output is
      determined by the screens before and after the frame. */
  lemma CanonicalUnique(before: seq<int>, after: seq<int>, r1: seq<int>, r2: seq<int>)
    requires Canonical(before, after, r1) && Canonical(before, after, r2)
    ensures r1 == r2
  {
    var ps1, ps2 := Positions(Body(r1)), Positions(Body(r2));
    SameLength(before, after, r1, r2);
    SamePositions(before, after, r1, r2, |ps1|);
    assert ps1 == ps2;
    SameBodies(before, after, r1, r2);
    assert r1 == Body(r1) + [Terminator] && r2 == Body(r2) + [Terminator];
  }

  /** Every entry lies in [0, 255]: the sequence can be written as bytes. */
  ghost predicate IsBytes(s: seq<int>)
  {
    forall k :: 0 <= k < |s| ==> 0 <= s[k] <= 255
  }

  /** The canonical record of a change to a screen of byte-sized glyphs is
      itself bytes: skips in [1, 255], glyphs, and the terminator 0. */
  lemma CanonicalBytes(before: seq<int>, after: seq<int>, record: seq<int>)
    requires Canonical(before, after, record) && IsBytes(after)
    ensures IsBytes(record)
  {
    var body := Body(record);
    var ps := Positions(body);
    CanonicalEntries(before, after, record);
    DecodedIsWellFormed(before, record);
    forall k | 0 <= k < |record|
      ensures 0 <= record[k] <= 255
    {
      if k == |body| {
        assert record[k] == Terminator;
      } else {
        var i := k / 2;
        assert record[k] == body[k] == PairEntry(after, ps, k);
        if k % 2 == 0 {
          assert k == 2 * i && i < |record| / 2;
        } else {
          assert body[k] == after[ps[i]];
        }
      }
    }
  }

  /** Playing one more record decodes it onto the last display. */
  lemma PlaybackAppend(start: seq<int>, records: seq<seq<int>>, record: seq<int>, next: seq<int>)
    requires Playback(start, records).Some?
    requires var shown := Playback(start, records).value;
      DecodeFrame(shown[|shown| - 1], record) == Some(next)
    ensures Playback(start, records + [record]) == Some(Playback(start, records).value + [next])
  {
    var all := records + [record];
    assert all[..|all| - 1] == records;
  }

  /** Playback replays each record of a stream onto the display the records
      before it left. */
  lemma {:induction false} PlaybackFrames(start: seq<int>, records: seq<seq<int>>)
    requires Playback(start, records).Some?
    ensures var shown := Playback(start, records).value;
      forall i :: 0 <= i < |records| ==> DecodeFrame(shown[i], records[i]) == Some(shown[i + 1])
    decreases |records|
  {
    if |records| > 0 {
      var pre := records[..|records| - 1];
      PlaybackFrames(start, pre);
      assert forall i :: 0 <= i < |pre| ==> records[i] == pre[i];
    }
  }
}
