/**
  One line of the 2048 grid, read from the edge the tiles slide towards.

  `Compress` pushes the non-zero tiles to the front of the line, `MergeScan`
  is one left-to-right pass that folds an equal non-zero pair `v, v` into
  `2v, 0`, and `Merge` runs exactly three scan-then-compress rounds.
  `SlideLine` is what a move does to one line: compress, then merge.
 */
module Lines {

  type Line = seq<int>

  function Zeros(n: nat): (z: Line)
    ensures |z| == n
    ensures forall i :: 0 <= i < n ==> z[i] == 0
  {
    seq(n, _ => 0)
  }

  /** Sum of the tile values of a line. */
  function Sum(l: Line): int
  {
    if l == [] then 0 else l[0] + Sum(l[1..])
  }

  /** The non-zero tiles of a line, in their original order. */
  function NonZeros(l: Line): (r: Line)
    ensures |r| <= |l|
    ensures forall i :: 0 <= i < |r| ==> r[i] != 0
  {
    if l == [] then [] else (if l[0] != 0 then [l[0]] else []) + NonZeros(l[1..])
  }

  /** Number of occupied cells. */
  function Tiles(l: Line): nat
  {
    |NonZeros(l)|
  }

  /** All non-zero tiles come before every empty cell. */
  ghost predicate Packed(l: Line)
  {
    forall i, j :: 0 <= i < j < |l| && l[i] == 0 ==> l[j] == 0
  }

  /** Some equal non-zero pair sits in adjacent cells. */
  ghost predicate Mergeable(l: Line)
  {
    exists i :: 0 <= i < |l| - 1 && l[i] == l[i + 1] && l[i] != 0
  }

  // ---------------------------------------------------------------------
  // Facts about the helper definitions

  lemma {:induction false} NonZerosAppend(a: Line, b: Line)
    ensures NonZeros(a + b) == NonZeros(a) + NonZeros(b)
  {
    if a == [] {
      assert a + b == b;
    } else {
      assert (a + b)[1..] == a[1..] + b;
      NonZerosAppend(a[1..], b);
    }
  }

  lemma {:induction false} TilesFull(l: Line)
    ensures Tiles(l) == |l| <==> forall i :: 0 <= i < |l| ==> l[i] != 0
  {
    if l != [] {
      TilesFull(l[1..]);
      if Tiles(l) == |l| {
        forall i | 0 <= i < |l| ensures l[i] != 0 {
          if i > 0 { assert l[i] == l[1..][i - 1]; }
        }
      }
      if forall i :: 0 <= i < |l| ==> l[i] != 0 {
        assert forall i :: 0 <= i < |l| - 1 ==> l[1..][i] == l[i + 1];
      }
    }
  }

  lemma {:induction false} SumAppend(a: Line, b: Line)
    ensures Sum(a + b) == Sum(a) + Sum(b)
  {
    if a == [] {
      assert a + b == b;
    } else {
      assert (a + b)[1..] == a[1..] + b;
      SumAppend(a[1..], b);
    }
  }

  lemma {:induction false} SumZeros(n: nat)
    ensures Sum(Zeros(n)) == 0
    ensures NonZeros(Zeros(n)) == []
  {
    if n > 0 {
      assert Zeros(n)[1..] == Zeros(n - 1);
      SumZeros(n - 1);
    }
  }

  lemma {:induction false} SumNonZeros(l: Line)
    ensures Sum(NonZeros(l)) == Sum(l)
  {
    if l != [] {
      SumNonZeros(l[1..]);
      SumAppend(if l[0] != 0 then [l[0]] else [], NonZeros(l[1..]));
    }
  }

  lemma {:induction false} NonZerosOfNonZeros(l: Line)
    requires forall i :: 0 <= i < |l| ==> l[i] != 0
    ensures NonZeros(l) == l
  {
    if l != [] {
      NonZerosOfNonZeros(l[1..]);
    }
  }

  /** The shape `Compress` produces: the tiles, then empty cells. */
  function PackedForm(l: Line): (r: Line)
    ensures |r| == |l|
  {
    NonZeros(l) + Zeros(|l| - |NonZeros(l)|)
  }

  lemma PackedFormFacts(l: Line)
    ensures Packed(PackedForm(l))
    ensures NonZeros(PackedForm(l)) == NonZeros(l)
    ensures Sum(PackedForm(l)) == Sum(l)
  {
    var nz := NonZeros(l);
    NonZerosAppend(nz, Zeros(|l| - |nz|));
    NonZerosOfNonZeros(nz);
    SumZeros(|l| - |nz|);
    SumAppend(nz, Zeros(|l| - |nz|));
    SumNonZeros(l);
  }

  lemma {:induction false} PackedIsPackedForm(l: Line)
    requires Packed(l)
    ensures l == PackedForm(l)
  {
    if l != [] {
      if l[0] == 0 {
        assert forall j :: 0 <= j < |l| ==> l[j] == 0;
        assert l == Zeros(|l|);
        SumZeros(|l|);
      } else {
        assert Packed(l[1..]) by {
          forall i, j | 0 <= i < j < |l| - 1 && l[1..][i] == 0 ensures l[1..][j] == 0 {
            assert l[i + 1] == 0;
          }
        }
        PackedIsPackedForm(l[1..]);
        assert l == [l[0]] + l[1..];
      }
    }
  }

  // ---------------------------------------------------------------------
  // Compression

  /** The inner `compress` loop over the columns of one row: `packed` holds
      the tiles placed so far (its length is the fill position) and `moved`
      records whether a tile was placed away from its own column. */
  function CompressScan(l: Line, col: nat, packed: Line, moved: bool): (Line, bool)
    requires col <= |l| && |packed| <= col
    decreases |l| - col
  {
    if col == |l| then (packed + Zeros(|l| - |packed|), moved)
    else if l[col] != 0 then CompressScan(l, col + 1, packed + [l[col]], moved || col != |packed|)
    else CompressScan(l, col + 1, packed, moved)
  }

  lemma PackedSnoc(s: Line, x: int)
    ensures Packed(s + [x]) <==> Packed(s) && (x != 0 ==> forall i :: 0 <= i < |s| ==> s[i] != 0)
  {
    var t := s + [x];
    if Packed(s) && (x != 0 ==> forall i :: 0 <= i < |s| ==> s[i] != 0) {
      forall i, j | 0 <= i < j < |t| && t[i] == 0 ensures t[j] == 0 {
        if j < |s| {
          assert t[i] == s[i] && t[j] == s[j];
        } else {
          assert t[i] == s[i];
        }
      }
    }
    if Packed(t) {
      if x != 0 {
        forall i | 0 <= i < |s| ensures s[i] != 0 {
          assert t[i] == s[i] && t[|s|] == x;
        }
      }
      assert Packed(s) by {
        forall i, j | 0 <= i < j < |s| && s[i] == 0 ensures s[j] == 0 {
          assert t[i] == s[i] && t[j] == s[j];
        }
      }
    }
  }

  lemma {:induction false} CompressScanResult(l: Line, col: nat, packed: Line, moved: bool)
    requires col <= |l|
    requires packed == NonZeros(l[..col])
    requires moved == !Packed(l[..col])
    ensures |packed| <= col
    ensures CompressScan(l, col, packed, moved) == (PackedForm(l), !Packed(l))
    decreases |l| - col
  {
    if col == |l| {
      assert l[..col] == l;
    } else {
      var pre := l[..col];
      assert l[..col + 1] == pre + [l[col]];
      NonZerosAppend(pre, [l[col]]);
      PackedSnoc(pre, l[col]);
      TilesFull(pre);
      var packed' := if l[col] != 0 then packed + [l[col]] else packed;
      var moved' := if l[col] != 0 then moved || col != |packed| else moved;
      CompressScanResult(l, col + 1, packed', moved');
    }
  }

  /** `compress` on one row: the row's tiles in their original order, packed
      at the front and followed by empty cells; the flag is raised exactly
      when some tile changes column, that is, when a tile sits behind an empty
      cell, and that is exactly when the line changes. */
  function Compress(l: Line): (r: (Line, bool))
    ensures |r.0| == |l|
  {
    CompressScanFacts(l);
    CompressScan(l, 0, [], false)
  }

  lemma CompressEffect(l: Line)
    ensures Compress(l).0 == NonZeros(l) + Zeros(|l| - Tiles(l))
    ensures Compress(l).1 <==> !Packed(l)
    ensures Compress(l).1 <==> Compress(l).0 != l
    ensures Packed(Compress(l).0) && Sum(Compress(l).0) == Sum(l) && Tiles(Compress(l).0) == Tiles(l)
  {
    CompressScanFacts(l);
  }

  lemma CompressScanFacts(l: Line)
    ensures CompressScan(l, 0, [], false) == (PackedForm(l), !Packed(l))
    ensures Packed(l) <==> PackedForm(l) == l
    ensures Packed(PackedForm(l)) && Sum(PackedForm(l)) == Sum(l)
    ensures NonZeros(PackedForm(l)) == NonZeros(l)
  {
    assert l[..0] == [];
    CompressScanResult(l, 0, [], false);
    PackedFormFacts(l);
    if Packed(l) { PackedIsPackedForm(l); }
  }

  /** Compressing an already-compressed line changes nothing and reports no
      movement. */
  lemma CompressIdempotent(l: Line)
    ensures Compress(Compress(l).0) == (Compress(l).0, false)
  {
    CompressEffect(l);
    CompressEffect(Compress(l).0);
  }

  // ---------------------------------------------------------------------
  // Merging

  /** One merge step: an equal non-zero pair `v, v` at `i, i+1` becomes `2v, 0`. */
  lemma MergeStep(l: Line, i: nat)
    requires i + 1 < |l| && l[i] == l[i + 1] && l[i] != 0
    ensures Sum(l[i := 2 * l[i]][i + 1 := 0]) == Sum(l)
    ensures Tiles(l[i := 2 * l[i]][i + 1 := 0]) == Tiles(l) - 1
  {
    var pre, v, post := l[..i], l[i], l[i + 2..];
    assert l == pre + [v, v] + post;
    var m := l[i := 2 * l[i]][i + 1 := 0];
    assert m == pre + [2 * v, 0] + post;
    SumAppend(pre + [v, v], post);
    SumAppend(pre, [v, v]);
    SumAppend(pre + [2 * v, 0], post);
    SumAppend(pre, [2 * v, 0]);
    NonZerosAppend(pre + [v, v], post);
    NonZerosAppend(pre, [v, v]);
    NonZerosAppend(pre + [2 * v, 0], post);
    NonZerosAppend(pre, [2 * v, 0]);
    assert [v, v][1..] == [v];
    assert [2 * v, 0][1..] == [0];
  }

  /** One pass of the inner `merge` loop, scanning columns left to right and
      rewriting the line in place; `merged` records whether any pair fused. */
  function MergeScan(l: Line, col: nat, merged: bool): (Line, bool)
    decreases |l| - col
  {
    if col + 1 >= |l| then (l, merged)
    else if l[col] == l[col + 1] && l[col] != 0 then
      MergeScan(l[col := 2 * l[col]][col + 1 := 0], col + 1, true)
    else MergeScan(l, col + 1, merged)
  }

  /** A pass keeps the sum; either it fuses nothing and leaves the line as it
      was, in which case no equal non-zero pair starts at or after `col`, or it
      fuses at least one pair and the tile count drops. */
  lemma {:induction false} MergeScanEffect(l: Line, col: nat, merged: bool)
    ensures var r := MergeScan(l, col, merged);
      && |r.0| == |l|
      && Sum(r.0) == Sum(l)
      && Tiles(r.0) <= Tiles(l)
      && (r.1 <==> merged || Tiles(r.0) < Tiles(l))
      && (Tiles(r.0) == Tiles(l) ==> r.0 == l)
      && (r.0 == l ==> forall i :: col <= i < |l| - 1 ==> !(l[i] == l[i + 1] && l[i] != 0))
    decreases |l| - col
  {
    if col + 1 >= |l| {
    } else if l[col] == l[col + 1] && l[col] != 0 {
      var m := l[col := 2 * l[col]][col + 1 := 0];
      MergeStep(l, col);
      MergeScanEffect(m, col + 1, true);
    } else {
      MergeScanEffect(l, col + 1, merged);
    }
  }

  /** The `merge` helper: `rounds` times, one scan followed by a compression.
      The flag is raised when any scan fused a pair. */
  function MergeRounds(l: Line, rounds: nat): (Line, bool)
    decreases rounds
  {
    if rounds == 0 then (l, false)
    else
      var (scanned, fused) := MergeScan(l, 0, false);
      var (rest, later) := MergeRounds(Compress(scanned).0, rounds - 1);
      (rest, fused || later)
  }

  /** `merge` runs exactly three rounds, not a fixpoint iteration. */
  function Merge(l: Line): (Line, bool)
  {
    MergeRounds(l, 3)
  }

  lemma {:induction false} MergeRoundsEffect(l: Line, rounds: nat)
    requires Packed(l)
    ensures var r := MergeRounds(l, rounds);
      && |r.0| == |l|
      && Packed(r.0)
      && Sum(r.0) == Sum(l)
      && Tiles(r.0) <= Tiles(l)
      && (r.1 <==> Tiles(r.0) < Tiles(l))
      && (!r.1 ==> r.0 == l)
      && (!Mergeable(r.0) || Tiles(r.0) + rounds <= Tiles(l))
    decreases rounds
  {
    if rounds > 0 {
      var s := MergeScan(l, 0, false);
      MergeScanEffect(l, 0, false);
      var c := Compress(s.0).0;
      CompressEffect(s.0);
      MergeRoundsEffect(c, rounds - 1);
      if !s.1 {
        assert s.0 == l;
        assert c == l;
        SettledRounds(l, rounds - 1);
      }
    }
  }

  /** A packed line with no equal adjacent non-zero pair is left alone. */
  lemma {:induction false} SettledScan(l: Line, col: nat, merged: bool)
    requires !Mergeable(l)
    ensures MergeScan(l, col, merged) == (l, merged)
    decreases |l| - col
  {
    if col + 1 < |l| {
      SettledScan(l, col + 1, merged);
    }
  }

  lemma {:induction false} SettledRounds(l: Line, rounds: nat)
    requires Packed(l) && !Mergeable(l)
    ensures MergeRounds(l, rounds) == (l, false)
    decreases rounds
  {
    if rounds > 0 {
      SettledScan(l, 0, false);
      CompressEffect(l);
      PackedIsPackedForm(l);
      SettledRounds(l, rounds - 1);
    }
  }

  lemma MergeableNeedsTwo(l: Line)
    requires Packed(l) && Mergeable(l)
    ensures Tiles(l) >= 2
  {
    var i :| 0 <= i < |l| - 1 && l[i] == l[i + 1] && l[i] != 0;
    PackedIsPackedForm(l);
  }

  // ---------------------------------------------------------------------
  // A move on one line

  /** What `move` does to one line: compress, then three merge rounds. */
  function SlideLine(l: Line): (r: (Line, bool))
    ensures |r.0| == |l|
  {
    var (c, compressed) := Compress(l);
    CompressEffect(l);
    MergeRoundsEffect(c, 3);
    var (m, merged) := Merge(c);
    (m, compressed || merged)
  }

  /** The slid line keeps its tile sum, ends up packed and never gains
      tiles; the move flag is raised exactly when the line changed, and a
      raised flag always leaves at least one empty cell behind. */
  lemma SlideLineEffect(l: Line)
    ensures var r := SlideLine(l);
      && Packed(r.0)
      && Sum(r.0) == Sum(l)
      && Tiles(r.0) <= Tiles(l)
      && (r.1 <==> r.0 != l)
      && (r.1 ==> exists i :: 0 <= i < |l| && r.0[i] == 0)
  {
    var c := Compress(l);
    CompressEffect(l);
    MergeRoundsEffect(c.0, 3);
    var r := SlideLine(l);
    if r.1 {
      assert Tiles(r.0) < |l| by {
        if c.1 {
          TilesFull(l);
        }
      }
      TilesFull(r.0);
    }
  }

  /** On a line of at most four cells the three rounds always settle it: no
      equal adjacent pair is left, so sliding the result again in the same
      direction changes nothing and reports no movement. */
  lemma {:induction false} SlideLineSettles(l: Line)
    requires |l| <= 4
    ensures !Mergeable(SlideLine(l).0)
    ensures SlideLine(SlideLine(l).0) == (SlideLine(l).0, false)
  {
    var c := Compress(l).0;
    CompressEffect(l);
    var r := SlideLine(l).0;
    MergeRoundsEffect(c, 3);
    assert r == MergeRounds(c, 3).0;
    TilesFull(l);
    assert Tiles(c) <= 4;
    if Mergeable(r) {
      MergeableNeedsTwo(r);
      assert false;
    }
    PackedIsPackedForm(r);
    CompressEffect(r);
    SettledRounds(r, 3);
  }

  /** Three rounds, each fusing the pairs it meets in one left-to-right scan,
      turn `[2, 2, 2, 2]` into `[8, 0, 0, 0]`. */
  lemma SlideFourTwos()
    ensures SlideLine([2, 2, 2, 2]) == ([8, 0, 0, 0], true)
  {
    CompressEffect([2, 2, 2, 2]);
    assert Compress([2, 2, 2, 2]) == ([2, 2, 2, 2], false);
    assert [2, 2, 2, 2][0 := 2 * [2, 2, 2, 2][0]][1 := 0] == [4, 0, 2, 2];
    assert MergeScan([2, 2, 2, 2], 0, false) == MergeScan([4, 0, 2, 2], 1, true);
    assert MergeScan([4, 0, 2, 2], 1, true) == MergeScan([4, 0, 2, 2], 2, true);
    assert [4, 0, 2, 2][2 := 2 * [4, 0, 2, 2][2]][3 := 0] == [4, 0, 4, 0];
    assert MergeScan([4, 0, 2, 2], 2, true) == MergeScan([4, 0, 4, 0], 3, true);
    assert Compress([4, 0, 4, 0]).0 == [4, 4, 0, 0];
    assert [4, 4, 0, 0][0 := 2 * [4, 4, 0, 0][0]][1 := 0] == [8, 0, 0, 0];
    assert MergeScan([4, 4, 0, 0], 0, false) == MergeScan([8, 0, 0, 0], 1, true);
    assert Compress([8, 0, 0, 0]).0 == [8, 0, 0, 0];
    assert MergeScan([8, 0, 0, 0], 0, false) == ([8, 0, 0, 0], false);
  }

  /** Rounds two and three fuse tiles produced by earlier rounds:
      `[2, 2, 4, 8]` becomes a single 16 in one move. */
  lemma SlideCascade()
    ensures SlideLine([2, 2, 4, 8]) == ([16, 0, 0, 0], true)
  {
    CompressEffect([2, 2, 4, 8]);
    assert Compress([2, 2, 4, 8]) == ([2, 2, 4, 8], false);
    CascadeFirstRound();
    CascadeLaterRounds();
  }

  lemma CascadeFirstRound()
    ensures MergeRounds([2, 2, 4, 8], 3) == (MergeRounds([4, 4, 8, 0], 2).0, true)
  {
    assert [2, 2, 4, 8][0 := 2 * [2, 2, 4, 8][0]][1 := 0] == [4, 0, 4, 8];
    assert MergeScan([2, 2, 4, 8], 0, false) == MergeScan([4, 0, 4, 8], 1, true);
    assert Compress([4, 0, 4, 8]).0 == [4, 4, 8, 0];
  }

  lemma CascadeLaterRounds()
    ensures MergeRounds([4, 4, 8, 0], 2) == ([16, 0, 0, 0], true)
  {
    assert [4, 4, 8, 0][0 := 2 * [4, 4, 8, 0][0]][1 := 0] == [8, 0, 8, 0];
    assert MergeScan([4, 4, 8, 0], 0, false) == MergeScan([8, 0, 8, 0], 1, true);
    assert Compress([8, 0, 8, 0]).0 == [8, 8, 0, 0];
    assert MergeRounds([8, 8, 0, 0], 1) == ([16, 0, 0, 0], true) by {
      assert [8, 8, 0, 0][0 := 2 * [8, 8, 0, 0][0]][1 := 0] == [16, 0, 0, 0];
      assert MergeScan([8, 8, 0, 0], 0, false) == MergeScan([16, 0, 0, 0], 1, true);
      assert Compress([16, 0, 0, 0]).0 == [16, 0, 0, 0];
    }
  }
}
