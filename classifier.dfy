/** Nearest-glyph classification of one character cell: the palette entry
    whose four-quadrant pattern has the smallest L1 distance to the cell's
    quarter intensities, the earliest entry winning ties. */
module Classifier {

  /** A palette entry: glyph code and its pattern (top-left, top-right,
      bottom-left, bottom-right). */
  type Entry = (int, seq<int>)

  /** The reference palette, in its declaration order: blank, full block,
      lower half, left half, right half, upper half. */
  const Blocks: seq<Entry> := [
    (0x00, [0, 0, 0, 0]),
    (0xdb, [255, 255, 255, 255]),
    (0xdc, [0, 0, 255, 255]),
    (0xdd, [255, 0, 255, 0]),
    (0xde, [0, 255, 0, 255]),
    (0xdf, [255, 255, 0, 0])
  ]

  /** The distance the search starts from; an entry replaces the current
      best only when it is strictly closer. */
  const Unfit: real := 4000000000000.0

  function Abs(r: real): real { if r < 0.0 then -r else r }

  /** L1 distance between quarters and a pattern, taken over the pairs that
      zipping the two forms (so over the shorter length). */
  function Distance(qs: seq<real>, pattern: seq<int>): (d: real)
    ensures d >= 0.0
    decreases |qs|
  {
    if |qs| == 0 || |pattern| == 0 then 0.0
    else Abs(qs[0] - pattern[0] as real) + Distance(qs[1..], pattern[1..])
  }

  /** The distance is zero exactly when the quarters equal the pattern on
      every zipped pair. */
  lemma {:induction false} DistanceZero(qs: seq<real>, pattern: seq<int>)
    ensures Distance(qs, pattern) == 0.0 <==>
      forall i :: 0 <= i < |qs| && i < |pattern| ==> qs[i] == pattern[i] as real
    decreases |qs|
  {
    if |qs| > 0 && |pattern| > 0 {
      DistanceZero(qs[1..], pattern[1..]);
      if Distance(qs, pattern) == 0.0 {
        forall i | 0 <= i < |qs| && i < |pattern|
          ensures qs[i] == pattern[i] as real
        {
          if i > 0 {
            assert qs[i] == qs[1..][i - 1] && pattern[i] == pattern[1..][i - 1];
          }
        }
      }
      if forall i :: 0 <= i < |qs| && i < |pattern| ==> qs[i] == pattern[i] as real {
        forall i | 0 <= i < |qs| - 1 && i < |pattern| - 1
          ensures qs[1..][i] == pattern[1..][i] as real
        {
          assert qs[1..][i] == qs[i + 1] && pattern[1..][i] == pattern[i + 1];
        }
      }
    }
  }

  /** Intensities in [0, 255] are at most 255 apart on each zipped pair, so
      four quarters are at most 1020 from any pattern, below the sentinel. */
  lemma {:induction false} DistanceBound(qs: seq<real>, pattern: seq<int>)
    requires forall i :: 0 <= i < |qs| ==> 0.0 <= qs[i] <= 255.0
    requires forall i :: 0 <= i < |pattern| ==> 0 <= pattern[i] <= 255
    ensures Distance(qs, pattern) <= 255.0 * |qs| as real
    ensures |qs| <= 4 ==> Distance(qs, pattern) < Unfit
    decreases |qs|
  {
    if |qs| > 0 && |pattern| > 0 {
      DistanceBound(qs[1..], pattern[1..]);
    }
  }

  function Pattern(palette: seq<Entry>, k: int): seq<int>
    requires 0 <= k < |palette|
  {
    palette[k].1
  }

  /** Some entry is closer than the starting distance. */
  ghost predicate HasFit(palette: seq<Entry>, qs: seq<real>)
  {
    exists k :: 0 <= k < |palette| && Distance(qs, Pattern(palette, k)) < Unfit
  }

  /** Entry i is the first entry of minimal distance, and that distance is
      below the starting one. */
  ghost predicate IsFirstMin(palette: seq<Entry>, qs: seq<real>, i: int)
  {
    0 <= i < |palette| &&
    Distance(qs, Pattern(palette, i)) < Unfit &&
    (forall j :: 0 <= j < |palette| ==> Distance(qs, Pattern(palette, i)) <= Distance(qs, Pattern(palette, j))) &&
    (forall j :: 0 <= j < i ==> Distance(qs, Pattern(palette, i)) < Distance(qs, Pattern(palette, j)))
  }

  /** The first minimal entry is unique: the classification is determined
      by the palette order. */
  lemma FirstMinUnique(palette: seq<Entry>, qs: seq<real>, i: int, j: int)
    requires IsFirstMin(palette, qs, i) && IsFirstMin(palette, qs, j)
    ensures i == j
  {
  }

  /** code is the classification of qs against palette: the code of the
      first minimal entry, or 0 when no entry is closer than Unfit. */
  ghost predicate IsBestFit(palette: seq<Entry>, qs: seq<real>, code: int)
  {
    (HasFit(palette, qs) ==> exists i :: IsFirstMin(palette, qs, i) && code == palette[i].0) &&
    (!HasFit(palette, qs) ==> code == 0)
  }

  /** The classification is a function of the palette and the quarters. */
  lemma BestFitDeterminate(palette: seq<Entry>, qs: seq<real>, c: int, d: int)
    requires IsBestFit(palette, qs, c) && IsBestFit(palette, qs, d)
    ensures c == d
  {
    if HasFit(palette, qs) {
      var i :| IsFirstMin(palette, qs, i) && c == palette[i].0;
      var j :| IsFirstMin(palette, qs, j) && d == palette[j].0;
      FirstMinUnique(palette, qs, i, j);
    }
  }

  /** The argmin loop over the palette: returns the code of the first entry
      of minimal distance, or 0 when no entry is closer than Unfit (an empty
      palette in particular). */
  method BestFit(palette: seq<Entry>, qs: seq<real>) returns (best: int)
    ensures HasFit(palette, qs) ==>
      exists i :: IsFirstMin(palette, qs, i) && best == palette[i].0
    ensures !HasFit(palette, qs) ==> best == 0
  {
    best := 0;
    var fit := Unfit;
    ghost var chosen := -1;
    for k := 0 to |palette|
      invariant -1 <= chosen < k
      invariant chosen == -1 ==> (best == 0 && fit == Unfit &&
        forall j :: 0 <= j < k ==> Distance(qs, Pattern(palette, j)) >= Unfit)
      invariant chosen >= 0 ==> (best == palette[chosen].0 &&
        fit == Distance(qs, Pattern(palette, chosen)) && fit < Unfit)
      invariant chosen >= 0 ==> forall j :: 0 <= j < k ==> fit <= Distance(qs, Pattern(palette, j))
      invariant chosen >= 0 ==> forall j :: 0 <= j < chosen ==> fit < Distance(qs, Pattern(palette, j))
    {
      var (code, pattern) := palette[k];
      var nfit := Distance(qs, pattern);
      if nfit < fit {
        best, fit, chosen := code, nfit, k;
      }
    }
    if chosen >= 0 {
      assert IsFirstMin(palette, qs, chosen);
    }
  }

  /** Classification against the reference palette. Quarter intensities in
      [0, 255] are always within reach of some block, so the code returned
      is one of the six block codes. */
  method GetBestFit(qs: seq<real>) returns (code: int)
    ensures IsBestFit(Blocks, qs, code)
    ensures (|qs| == 4 && forall i :: 0 <= i < 4 ==> 0.0 <= qs[i] <= 255.0) ==>
      HasFit(Blocks, qs) && exists i :: IsFirstMin(Blocks, qs, i) && code == Blocks[i].0
  {
    code := BestFit(Blocks, qs);
    if |qs| == 4 && forall i :: 0 <= i < 4 ==> 0.0 <= qs[i] <= 255.0 {
      DistanceBound(qs, Pattern(Blocks, 0));
    }
  }

  /** Every classification against the reference palette is one of the six
      block codes, so it fits in a byte. */
  lemma BestFitIsBlock(qs: seq<real>, code: int)
    requires IsBestFit(Blocks, qs, code)
    ensures code in {0x00, 0xdb, 0xdc, 0xdd, 0xde, 0xdf}
  {
    if HasFit(Blocks, qs) {
      var i :| IsFirstMin(Blocks, qs, i) && code == Blocks[i].0;
    }
  }

  /** A two-entry palette (blank, full) and a nearly white cell: the full
      block is the first minimal entry. */
  lemma NearlyWhiteCell()
    ensures var palette: seq<Entry> := [(0, [0, 0, 0, 0]), (1, [255, 255, 255, 255])];
      IsFirstMin(palette, [250.0, 240.0, 245.0, 252.0], 1) && palette[1].0 == 1
  {
  }

  /** An equidistant later entry never replaces an earlier one. */
  lemma TieGoesToEarlier(palette: seq<Entry>, qs: seq<real>, i: int, j: int)
    requires 0 <= i < j < |palette|
    requires Distance(qs, Pattern(palette, i)) == Distance(qs, Pattern(palette, j))
    ensures !IsFirstMin(palette, qs, j)
  {
  }
}
