/// The seven quadromino kinds of tetrad.js and their literal rotation
/// tables. Orientations are written out per kind, never computed.
module Shapes {

  /** A rotation layout: a square grid of sub-cells, 1 where the piece has a
      block, indexed [row][column] from the piece's top-left anchor. */
  type Layout = seq<seq<int>>

  /** The seven piece constructors of the Quadromino object. */
  datatype Kind = Tetril | Tad | Basil | Jed | Led | Zaw | Saw

  /** The `tiles` array: spawn index 0..6 to kind, in declaration order. */
  const Tiles: seq<Kind> := [Tetril, Tad, Basil, Jed, Led, Zaw, Saw]

  /** The number of layouts each constructor lists. */
  function LayoutCount(k: Kind): nat
  {
    match k
    case Basil => 1
    case Zaw | Saw => 2
    case _ => 4
  }

  /** The edge length of each kind's square layouts. */
  function Size(k: Kind): nat
  {
    match k
    case Tetril => 4
    case Basil => 2
    case _ => 3
  }

  /** The `rotations` list each constructor assigns. */
  function Rotations(k: Kind): (rs: seq<Layout>)
    ensures |rs| == LayoutCount(k)
  {
    match k
    case Tetril =>
      [ [[0, 1, 0, 0],
         [0, 1, 0, 0],
         [0, 1, 0, 0],
         [0, 1, 0, 0]],
        [[0, 0, 0, 0],
         [1, 1, 1, 1],
         [0, 0, 0, 0],
         [0, 0, 0, 0]],
        [[0, 0, 1, 0],
         [0, 0, 1, 0],
         [0, 0, 1, 0],
         [0, 0, 1, 0]],
        [[0, 0, 0, 0],
         [0, 0, 0, 0],
         [1, 1, 1, 1],
         [0, 0, 0, 0]] ]
    case Tad =>
      [ [[0, 0, 0],
         [1, 1, 1],
         [0, 1, 0]],
        [[0, 1, 0],
         [1, 1, 0],
         [0, 1, 0]],
        [[0, 1, 0],
         [1, 1, 1],
         [0, 0, 0]],
        [[0, 1, 0],
         [0, 1, 1],
         [0, 1, 0]] ]
    case Basil =>
      [ [[1, 1],
         [1, 1]] ]
    case Jed =>
      [ [[0, 1, 1],
         [0, 1, 0],
         [0, 1, 0]],
        [[0, 0, 0],
         [1, 1, 1],
         [0, 0, 1]],
        [[0, 0, 1],
         [0, 0, 1],
         [0, 1, 1]],
        [[1, 0, 0],
         [1, 1, 1],
         [0, 0, 0]] ]
    case Led =>
      [ [[1, 1, 0],
         [0, 1, 0],
         [0, 1, 0]],
        [[0, 0, 1],
         [1, 1, 1],
         [0, 0, 0]],
        [[0, 1, 0],
         [0, 1, 0],
         [0, 1, 1]],
        [[0, 0, 0],
         [1, 1, 1],
         [1, 0, 0]] ]
    case Zaw =>
      [ [[1, 1, 0],
         [0, 1, 1],
         [0, 0, 0]],
        [[0, 0, 1],
         [0, 1, 1],
         [0, 1, 0]] ]
    case Saw =>
      [ [[0, 1, 1],
         [1, 1, 0],
         [0, 0, 0]],
        [[1, 0, 0],
         [1, 1, 0],
         [0, 1, 0]] ]
  }

  /** `rotations[curRotation % rotations.length]`: the layout a tile with
      the table `rs` shows after `rotation` quarter turns. */
  function Pick(rs: seq<Layout>, rotation: nat): Layout
    requires |rs| > 0
  {
    rs[rotation % |rs|]
  }


  /** The sub-cells of a layout that hold a block, as (row, column) pairs. */
  function BlockCells(l: Layout): set<(int, int)>
  {
    set i, j | 0 <= i < |l| && 0 <= j < |l[i]| && l[i][j] != 0 :: (i, j)
  }

  /** An `n` by `n` grid whose cells are all 0 or 1. */
  predicate SquareOfBits(l: Layout, n: nat)
  {
    |l| == n && forall i :: 0 <= i < n ==> |l[i]| == n && forall j :: 0 <= j < n ==> l[i][j] in {0, 1}
  }

  /** A layout the movement engine can rely on: a square grid of 0s and 1s
      with at least one block (so a free placement pins the anchor near the
      board). */
  predicate Shaped(l: Layout)
  {
    && (forall i :: 0 <= i < |l| ==> |l[i]| == |l|)
    && (forall i, j :: 0 <= i < |l| && 0 <= j < |l[i]| ==> l[i][j] == 0 || l[i][j] == 1)
    && exists i, j :: 0 <= i < |l| && 0 <= j < |l| && l[i][j] != 0
  }

  /** Four distinct cells make a set of four. */
  lemma FourCells(a: (int, int), b: (int, int), c: (int, int), d: (int, int))
    requires a != b && a != c && a != d && b != c && b != d && c != d
    ensures |{a, b, c, d}| == 4
  {
  }

  /** The blocks of each Tetril layout, as (row, column) coordinates: the I tetromino. */
  lemma TetrilCells()
    ensures BlockCells(Rotations(Tetril)[0]) == {(0, 1), (1, 1), (2, 1), (3, 1)} && |BlockCells(Rotations(Tetril)[0])| == 4
    ensures BlockCells(Rotations(Tetril)[1]) == {(1, 0), (1, 1), (1, 2), (1, 3)} && |BlockCells(Rotations(Tetril)[1])| == 4
    ensures BlockCells(Rotations(Tetril)[2]) == {(0, 2), (1, 2), (2, 2), (3, 2)} && |BlockCells(Rotations(Tetril)[2])| == 4
    ensures BlockCells(Rotations(Tetril)[3]) == {(2, 0), (2, 1), (2, 2), (2, 3)} && |BlockCells(Rotations(Tetril)[3])| == 4
  {
    FourCells((0, 1), (1, 1), (2, 1), (3, 1));
    FourCells((1, 0), (1, 1), (1, 2), (1, 3));
    FourCells((0, 2), (1, 2), (2, 2), (3, 2));
    FourCells((2, 0), (2, 1), (2, 2), (2, 3));
  }

  /** The blocks of each Tad layout, as (row, column) coordinates: the T tetromino. */
  lemma TadCells()
    ensures BlockCells(Rotations(Tad)[0]) == {(1, 0), (1, 1), (1, 2), (2, 1)} && |BlockCells(Rotations(Tad)[0])| == 4
    ensures BlockCells(Rotations(Tad)[1]) == {(0, 1), (1, 0), (1, 1), (2, 1)} && |BlockCells(Rotations(Tad)[1])| == 4
    ensures BlockCells(Rotations(Tad)[2]) == {(0, 1), (1, 0), (1, 1), (1, 2)} && |BlockCells(Rotations(Tad)[2])| == 4
    ensures BlockCells(Rotations(Tad)[3]) == {(0, 1), (1, 1), (1, 2), (2, 1)} && |BlockCells(Rotations(Tad)[3])| == 4
  {
    FourCells((1, 0), (1, 1), (1, 2), (2, 1));
    FourCells((0, 1), (1, 0), (1, 1), (2, 1));
    FourCells((0, 1), (1, 0), (1, 1), (1, 2));
    FourCells((0, 1), (1, 1), (1, 2), (2, 1));
  }

  /** The blocks of each Basil layout, as (row, column) coordinates: the O tetromino. */
  lemma BasilCells()
    ensures BlockCells(Rotations(Basil)[0]) == {(0, 0), (0, 1), (1, 0), (1, 1)} && |BlockCells(Rotations(Basil)[0])| == 4
  {
    FourCells((0, 0), (0, 1), (1, 0), (1, 1));
  }

  /** The blocks of each Jed layout, as (row, column) coordinates: the J tetromino. */
  lemma JedCells()
    ensures BlockCells(Rotations(Jed)[0]) == {(0, 1), (0, 2), (1, 1), (2, 1)} && |BlockCells(Rotations(Jed)[0])| == 4
    ensures BlockCells(Rotations(Jed)[1]) == {(1, 0), (1, 1), (1, 2), (2, 2)} && |BlockCells(Rotations(Jed)[1])| == 4
    ensures BlockCells(Rotations(Jed)[2]) == {(0, 2), (1, 2), (2, 1), (2, 2)} && |BlockCells(Rotations(Jed)[2])| == 4
    ensures BlockCells(Rotations(Jed)[3]) == {(0, 0), (1, 0), (1, 1), (1, 2)} && |BlockCells(Rotations(Jed)[3])| == 4
  {
    FourCells((0, 1), (0, 2), (1, 1), (2, 1));
    FourCells((1, 0), (1, 1), (1, 2), (2, 2));
    FourCells((0, 2), (1, 2), (2, 1), (2, 2));
    FourCells((0, 0), (1, 0), (1, 1), (1, 2));
  }

  /** The blocks of each Led layout, as (row, column) coordinates: the L tetromino. */
  lemma LedCells()
    ensures BlockCells(Rotations(Led)[0]) == {(0, 0), (0, 1), (1, 1), (2, 1)} && |BlockCells(Rotations(Led)[0])| == 4
    ensures BlockCells(Rotations(Led)[1]) == {(0, 2), (1, 0), (1, 1), (1, 2)} && |BlockCells(Rotations(Led)[1])| == 4
    ensures BlockCells(Rotations(Led)[2]) == {(0, 1), (1, 1), (2, 1), (2, 2)} && |BlockCells(Rotations(Led)[2])| == 4
    ensures BlockCells(Rotations(Led)[3]) == {(1, 0), (1, 1), (1, 2), (2, 0)} && |BlockCells(Rotations(Led)[3])| == 4
  {
    FourCells((0, 0), (0, 1), (1, 1), (2, 1));
    FourCells((0, 2), (1, 0), (1, 1), (1, 2));
    FourCells((0, 1), (1, 1), (2, 1), (2, 2));
    FourCells((1, 0), (1, 1), (1, 2), (2, 0));
  }

  /** The blocks of each Zaw layout, as (row, column) coordinates: the Z tetromino. */
  lemma ZawCells()
    ensures BlockCells(Rotations(Zaw)[0]) == {(0, 0), (0, 1), (1, 1), (1, 2)} && |BlockCells(Rotations(Zaw)[0])| == 4
    ensures BlockCells(Rotations(Zaw)[1]) == {(0, 2), (1, 1), (1, 2), (2, 1)} && |BlockCells(Rotations(Zaw)[1])| == 4
  {
    FourCells((0, 0), (0, 1), (1, 1), (1, 2));
    FourCells((0, 2), (1, 1), (1, 2), (2, 1));
  }

  /** The blocks of each Saw layout, as (row, column) coordinates: the S tetromino. */
  lemma SawCells()
    ensures BlockCells(Rotations(Saw)[0]) == {(0, 1), (0, 2), (1, 0), (1, 1)} && |BlockCells(Rotations(Saw)[0])| == 4
    ensures BlockCells(Rotations(Saw)[1]) == {(0, 0), (1, 0), (1, 1), (2, 1)} && |BlockCells(Rotations(Saw)[1])| == 4
  {
    FourCells((0, 1), (0, 2), (1, 0), (1, 1));
    FourCells((0, 0), (1, 0), (1, 1), (2, 1));
  }

  /** Every layout of kind `k` is a `Size(k)`-square of bits. */
  lemma TablesSquare(k: Kind)
    ensures forall r :: 0 <= r < |Rotations(k)| ==> SquareOfBits(Rotations(k)[r], Size(k))
  {
  }

  /** Every layout of the tables is a `Size(k)`-square of bits with exactly
      four blocks; the kinds carry 4, 4, 1, 4, 4, 2 and 2 layouts. */
  lemma TablesWellFormed(k: Kind)
    ensures LayoutCount(k) == (if k == Basil then 1 else if k in {Zaw, Saw} then 2 else 4)
    ensures forall r :: 0 <= r < |Rotations(k)| ==>
      SquareOfBits(Rotations(k)[r], Size(k)) && |BlockCells(Rotations(k)[r])| == 4
  {
    TablesSquare(k);
    match k
    case Tetril => TetrilCells();
    case Tad => TadCells();
    case Basil => BasilCells();
    case Jed => JedCells();
    case Led => LedCells();
    case Zaw => ZawCells();
    case Saw => SawCells();
  }

  /** A rotation table the movement engine can rely on: not empty, and
      every layout Shaped and at most four cells wide. */
  predicate Usable(rs: seq<Layout>)
  {
    |rs| > 0 && forall r :: 0 <= r < |rs| ==> Shaped(rs[r]) && |rs[r]| <= 4
  }

  /** Every layout a usable table picks is Shaped and at most four cells wide. */
  lemma PickUsable(rs: seq<Layout>, rotation: nat)
    requires Usable(rs)
    ensures Shaped(Pick(rs, rotation)) && |Pick(rs, rotation)| <= 4
  {
  }

  /** Every kind's table is usable. */
  lemma TablesUsable(k: Kind)
    ensures Usable(Rotations(k))
  {
    TablesWellFormed(k);
    forall r | 0 <= r < |Rotations(k)|
      ensures Shaped(Rotations(k)[r]) && |Rotations(k)[r]| <= 4
    {
      var l := Rotations(k)[r];
      assert |BlockCells(l)| == 4;
      var c :| c in BlockCells(l);
    }
  }
}
