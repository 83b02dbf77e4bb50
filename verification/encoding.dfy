/**
  The 64-bit board word of `compress_board` and `decompress`: each cell
  becomes a 4-bit code (the base-2 exponent of its tile, 0 for an empty
  cell), and the sixteen codes are packed most significant first in
  row-major order. `BitDict` and `PlaceDict` are the two lookup tables of
  the program's `utils` module, which is not part of this model: they are
  taken to be the exponent map for tiles 0 and 2 to 32768 and its inverse.
 */
module Encoding {
  import opened Options
  import opened Grid
  import opened Game

  type Nibble = n: nat | n < 16

  /** Unsigned 64-bit words. */
  type Word = n: nat | n < 0x1_0000_0000_0000_0000

  /** `BIT_DICT`: tile value to 4-bit code. */
  const BitDict: map<int, Nibble> :=
    map[0 := 0, 2 := 1, 4 := 2, 8 := 3, 16 := 4, 32 := 5, 64 := 6, 128 := 7,
        256 := 8, 512 := 9, 1024 := 10, 2048 := 11, 4096 := 12, 8192 := 13,
        16384 := 14, 32768 := 15]

  /** `PLACE_DICT`: 4-bit code to tile value. The source keys it by the
      code's four-character binary spelling; here by the code itself. */
  const PlaceDict: map<Nibble, int> :=
    map[0 := 0, 1 := 2, 2 := 4, 3 := 8, 4 := 16, 5 := 32, 6 := 64, 7 := 128,
        8 := 256, 9 := 512, 10 := 1024, 11 := 2048, 12 := 4096, 13 := 8192,
        14 := 16384, 15 := 32768]

  /** The two tables are inverse to each other, and every code has a tile. */
  lemma TablesInverse()
    ensures forall n: Nibble :: n in PlaceDict && PlaceDict[n] in BitDict && BitDict[PlaceDict[n]] == n
    ensures forall v :: v in BitDict ==> BitDict[v] in PlaceDict && PlaceDict[BitDict[v]] == v
  {
    forall n: Nibble ensures n in PlaceDict && PlaceDict[n] in BitDict && BitDict[PlaceDict[n]] == n {
      PlaceThenBit(n);
    }
    forall v | v in BitDict ensures BitDict[v] in PlaceDict && PlaceDict[BitDict[v]] == v {
      BitThenPlace(v);
    }
  }

  lemma PlaceThenBit(n: Nibble)
    ensures n in PlaceDict && PlaceDict[n] in BitDict && BitDict[PlaceDict[n]] == n
  {
  }

  lemma BitThenPlace(v: int)
    requires v in BitDict
    ensures BitDict[v] in PlaceDict && PlaceDict[BitDict[v]] == v
  {
  }

  /** 16 to the power `n`. */
  function Pow16(n: nat): (p: nat)
    ensures p >= 1
  {
    if n == 0 then 1 else 16 * Pow16(n - 1)
  }

  /** The shift-and-or fold of `compress_board`: each code is shifted in
      below the ones before it. */
  function Pack(ds: seq<Nibble>): (x: nat)
    ensures x < Pow16(|ds|)
  {
    if ds == [] then 0 else Pack(ds[..|ds| - 1]) * 16 + ds[|ds| - 1]
  }

  /** The `n` low 4-bit groups of `x`, most significant first: the slices of
      its fixed-width binary spelling that `decompress` reads. */
  function Unpack(x: nat, n: nat): (ds: seq<Nibble>)
    ensures |ds| == n
  {
    if n == 0 then [] else Unpack(x / 16, n - 1) + [x % 16]
  }

  lemma {:induction false} UnpackPack(ds: seq<Nibble>)
    ensures Unpack(Pack(ds), |ds|) == ds
  {
    if ds != [] {
      var front := ds[..|ds| - 1];
      UnpackPack(front);
      assert Pack(ds) / 16 == Pack(front);
      assert ds == front + [ds[|ds| - 1]];
    }
  }

  lemma {:induction false} PackUnpack(x: nat, n: nat)
    requires x < Pow16(n)
    ensures Pack(Unpack(x, n)) == x
  {
    if n > 0 {
      PackUnpack(x / 16, n - 1);
      assert Unpack(x, n)[..n - 1] == Unpack(x / 16, n - 1);
    }
  }

  /** The codes of a board, or the first cell `BIT_DICT` has no entry for. */
  function Codes(b: Board): Option<seq<Nibble>>
  {
    if forall i :: 0 <= i < 16 ==> b[i] in BitDict then
      Some(seq(16, i requires 0 <= i < 16 => BitDict[b[i]]))
    else None
  }

  /** `compress_board`: `None` stands for the `KeyError` a tile outside the
      table raises. */
  function Encode(b: Board): (r: Option<Word>)
    ensures r.None? <==> exists i :: 0 <= i < 16 && b[i] !in BitDict
  {
    match Codes(b)
    case None => None
    case Some(ds) =>
      WordBound();
      Some(Pack(ds))
  }

  lemma WordBound()
    ensures Pow16(16) == 0x1_0000_0000_0000_0000
  {
    assert Pow16(4) == 0x1_0000 by {
      assert Pow16(1) == 16;
      assert Pow16(2) == 256;
      assert Pow16(3) == 4096;
    }
    Pow16Add(4, 4);
    Pow16Add(8, 8);
  }

  lemma {:induction false} Pow16Add(m: nat, n: nat)
    ensures Pow16(m + n) == Pow16(m) * Pow16(n)
  {
    if m > 0 {
      Pow16Add(m - 1, n);
      assert Pow16(m + n) == 16 * Pow16(m - 1 + n);
    }
  }

  /** `decompress`: every 4-bit group, read most significant first, is looked
      up in `PLACE_DICT` and written to the next cell in row-major order. */
  function Decode(x: Word): (b: Board)
    ensures forall i :: 0 <= i < 16 ==> b[i] in BitDict
  {
    TablesInverse();
    var ds := Unpack(x, 16);
    seq(16, i requires 0 <= i < 16 => PlaceDict[ds[i]])
  }

  /** Decoding an encoded board gives the board back. */
  lemma DecodeEncode(b: Board)
    requires Encode(b).Some?
    ensures Decode(Encode(b).value) == b
  {
    TablesInverse();
    var ds := Codes(b).value;
    UnpackPack(ds);
  }

  /** Every word is the encoding of the board it decodes to. */
  lemma EncodeDecode(x: Word)
    ensures Encode(Decode(x)) == Some(x)
  {
    TablesInverse();
    var b := Decode(x);
    var ds := Unpack(x, 16);
    assert Codes(b).value == ds;
    WordBound();
    PackUnpack(x, 16);
  }

  /** `is_goal` on an encoded board: true when some 4-bit group equals the
      target's code. `None` stands for the `KeyError` of a target outside the
      table. */
  function IsGoalEncoded(x: Word, target: int): (r: Option<bool>)
    ensures r.None? <==> target !in BitDict
  {
    if target in BitDict then
      Some(exists i :: 0 <= i < 16 && Unpack(x, 16)[i] == BitDict[target])
    else None
  }

  /** On an encoded board the goal test asks whether the target tile is
      present anywhere. */
  lemma IsGoalEncodedMeansPresent(b: Board, target: int)
    requires Encode(b).Some? && target in BitDict
    ensures IsGoalEncoded(Encode(b).value, target) == Some(exists i :: 0 <= i < 16 && b[i] == target)
  {
    TablesInverse();
    var ds := Codes(b).value;
    UnpackPack(ds);
    var x := Encode(b).value;
    assert Unpack(x, 16) == ds;
    if exists i :: 0 <= i < 16 && ds[i] == BitDict[target] {
      var i :| 0 <= i < 16 && ds[i] == BitDict[target];
      assert PlaceDict[BitDict[b[i]]] == PlaceDict[BitDict[target]];
      assert b[i] == target;
    }
    if exists i :: 0 <= i < 16 && b[i] == target {
      var i :| 0 <= i < 16 && b[i] == target;
      assert ds[i] == BitDict[target];
      assert Unpack(x, 16)[i] == BitDict[target];
    }
  }

  /** Every plain goal is also an encoded goal. */
  lemma PlainGoalIsEncodedGoal(b: Board, target: int)
    requires Encode(b).Some? && target in BitDict && IsGoal(b, target)
    ensures IsGoalEncoded(Encode(b).value, target) == Some(true)
  {
    IsGoalMeaning(b, target);
    IsGoalEncodedMeansPresent(b, target);
  }

  /** The converse fails: a board holding both 8 and 16 is an encoded goal
      for 8 but not a plain one, since its largest tile overshoots. */
  lemma BranchesDiffer()
    ensures var b: Board := [8, 16, 0, 0, 0, 0, 0, 0, 0, 0, 0, 0, 0, 0, 0, 0];
      && Encode(b).Some?
      && !IsGoal(b, 8)
      && IsGoalEncoded(Encode(b).value, 8) == Some(true)
  {
    var b: Board := [8, 16, 0, 0, 0, 0, 0, 0, 0, 0, 0, 0, 0, 0, 0, 0];
    assert b[0] == 8 && b[1] > 8;
    IsGoalMeaning(b, 8);
    IsGoalEncodedMeansPresent(b, 8);
  }
}
