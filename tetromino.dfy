/**
 * The seven falling pieces: their constant shape and colour tables, and the
 * mutable pose (x, y, rotation) of one piece on the board.
 */
module Tetrominoes {

  /** The seven piece kinds, in the order the random spawner lists them. */
  datatype Kind = I | J | L | O | S | T | Z

  /** The kinds as `randomTetromino` indexes them. */
  const Kinds: seq<Kind> := [I, J, L, O, S, T, Z]

  /** A shape matrix: rows of 0/1 entries, 1 where the piece has a block. */
  type Shape = seq<seq<int>>

  /** The pose of a piece: the board position of its matrix's top-left corner and its rotation index. */
  datatype Pose = Pose(x: int, y: int, rotation: int)

  /** The rotation states of each kind, clockwise from state 0. */
  function Shapes(k: Kind): seq<Shape>
  {
    match k
    case I => [
      [[0, 0, 0, 0], [1, 1, 1, 1], [0, 0, 0, 0], [0, 0, 0, 0]],
      [[0, 0, 1, 0], [0, 0, 1, 0], [0, 0, 1, 0], [0, 0, 1, 0]],
      [[0, 0, 0, 0], [0, 0, 0, 0], [1, 1, 1, 1], [0, 0, 0, 0]],
      [[0, 1, 0, 0], [0, 1, 0, 0], [0, 1, 0, 0], [0, 1, 0, 0]]]
    case J => [
      [[1, 0, 0], [1, 1, 1], [0, 0, 0]],
      [[0, 1, 1], [0, 1, 0], [0, 1, 0]],
      [[0, 0, 0], [1, 1, 1], [0, 0, 1]],
      [[0, 1, 0], [0, 1, 0], [1, 1, 0]]]
    case L => [
      [[0, 0, 1], [1, 1, 1], [0, 0, 0]],
      [[0, 1, 0], [0, 1, 0], [0, 1, 1]],
      [[0, 0, 0], [1, 1, 1], [1, 0, 0]],
      [[1, 1, 0], [0, 1, 0], [0, 1, 0]]]
    case O => [
      [[0, 0, 0, 0], [0, 1, 1, 0], [0, 1, 1, 0], [0, 0, 0, 0]]]
    case S => [
      [[0, 1, 1], [1, 1, 0], [0, 0, 0]],
      [[0, 1, 0], [0, 1, 1], [0, 0, 1]],
      [[0, 0, 0], [0, 1, 1], [1, 1, 0]],
      [[1, 0, 0], [1, 1, 0], [0, 1, 0]]]
    case T => [
      [[0, 1, 0], [1, 1, 1], [0, 0, 0]],
      [[0, 1, 0], [0, 1, 1], [0, 1, 0]],
      [[0, 0, 0], [1, 1, 1], [0, 1, 0]],
      [[0, 1, 0], [1, 1, 0], [0, 1, 0]]]
    case Z => [
      [[1, 1, 0], [0, 1, 1], [0, 0, 0]],
      [[0, 0, 1], [0, 1, 1], [0, 1, 0]],
      [[0, 0, 0], [1, 1, 0], [0, 1, 1]],
      [[0, 1, 0], [1, 1, 0], [1, 0, 0]]]
  }

  /** The fixed colour of each kind. */
  function ColorOf(k: Kind): (c: string)
    ensures |c| == 7 && c[0] == '#'
  {
    match k
    case I => "#00f0f0"
    case J => "#0000f0"
    case L => "#f0a000"
    case O => "#f0f000"
    case S => "#00f000"
    case T => "#a000f0"
    case Z => "#f00000"
  }

  /** Each kind has its own colour, so a filled cell's colour tells which kind left it. */
  lemma ColorsDistinct(k1: Kind, k2: Kind)
    ensures ColorOf(k1) == ColorOf(k2) ==> k1 == k2
  {
  }

  /** The side of a kind's square matrices. */
  function Side(k: Kind): nat
  {
    if k == I || k == O then 4 else 3
  }

  predicate Square(s: Shape, n: nat)
  {
    |s| == n && forall r :: 0 <= r < n ==> |s[r]| == n
  }

  /** Whether entry (r, c) of the matrix is a block (the source tests the entry's truthiness). */
  predicate Filled(s: Shape, r: int, c: int)
  {
    0 <= r < |s| && 0 <= c < |s[r]| && s[r][c] != 0
  }

  /** Number of blocks in the first n entries of a row. */
  function RowCount(row: seq<int>, n: nat): nat
    requires n <= |row|
  {
    if n == 0 then 0 else RowCount(row, n - 1) + (if row[n - 1] != 0 then 1 else 0)
  }

  /** Number of blocks in the first n rows of a matrix. */
  function BlockCount(s: Shape, n: nat): nat
    requires n <= |s|
  {
    if n == 0 then 0 else BlockCount(s, n - 1) + RowCount(s[n - 1], |s[n - 1]|)
  }

  /** What `getCurrentShape` returns for a piece of kind k at rotation index rotation. */
  function ShapeOf(k: Kind, rotation: int): Shape
    requires k == O || 0 <= rotation < |Shapes(k)|
  {
    if k == O then Shapes(O)[0] else Shapes(k)[rotation]
  }

  /** The rotation index after one clockwise `rotate`. */
  function Rotated(k: Kind, rotation: int): int
    requires 0 <= rotation
  {
    if k == O then rotation else (rotation + 1) % |Shapes(k)|
  }

  /** The table: O has one state and the other kinds four; every state is a
      square matrix of side 4 (I, O) or 3 (the rest) with exactly four blocks. */
  lemma ShapeTable(k: Kind)
    ensures |Shapes(k)| == (if k == O then 1 else 4)
    ensures forall r :: 0 <= r < |Shapes(k)| ==>
      Square(Shapes(k)[r], Side(k)) && BlockCount(Shapes(k)[r], Side(k)) == 4
  {
    match k
    case I => TableI();
    case J => TableJ();
    case L => TableL();
    case O => TableO();
    case S => TableS();
    case T => TableT();
    case Z => TableZ();
  }

  /** The table entry of one kind is well formed: ShapeTable's claim for that kind. */
  ghost predicate TableOk(k: Kind)
  {
    |Shapes(k)| == (if k == O then 1 else 4)
    && forall r :: 0 <= r < |Shapes(k)| ==>
      Square(Shapes(k)[r], Side(k)) && BlockCount(Shapes(k)[r], Side(k)) == 4
  }

  // One lemma per kind keeps each evaluation of the literal table small.
  lemma TableI() ensures TableOk(I) {}
  lemma TableJ() ensures TableOk(J) {}
  lemma TableL() ensures TableOk(L) {}
  lemma TableO() ensures TableOk(O) {}
  lemma TableS() ensures TableOk(S) {}
  lemma TableT() ensures TableOk(T) {}
  lemma TableZ() ensures TableOk(Z) {}

  /** Each shape has a block in its matrix; the blocks lie in a Side(k) square. */
  lemma ShapeBlocks(k: Kind, rotation: int)
    requires 0 <= rotation < |Shapes(k)|
    ensures Square(ShapeOf(k, rotation), Side(k)) && Side(k) <= 4
    ensures exists r, c :: Filled(ShapeOf(k, rotation), r, c)
  {
    ShapeTable(k);
    var s := ShapeOf(k, rotation);
    if !exists r, c :: Filled(s, r, c) {
      NoBlockCount(s, |s|);
    }
  }

  lemma {:induction false} NoBlockCount(s: Shape, n: nat)
    requires n <= |s|
    requires forall r, c :: !Filled(s, r, c)
    ensures BlockCount(s, n) == 0
  {
    if n > 0 {
      NoBlockCount(s, n - 1);
      var row := s[n - 1];
      forall c | 0 <= c < |row|
        ensures row[c] == 0
      {
        assert !Filled(s, n - 1, c);
      }
      NoBlockRow(row, |row|);
    }
  }

  lemma {:induction false} NoBlockRow(row: seq<int>, n: nat)
    requires n <= |row|
    requires forall c :: 0 <= c < |row| ==> row[c] == 0
    ensures RowCount(row, n) == 0
  {
    if n > 0 {
      NoBlockRow(row, n - 1);
    }
  }

  /** Non-O kinds cycle through four states, so four rotations restore the index. */
  lemma FourRotationsRestore(k: Kind, rotation: int)
    requires 0 <= rotation < |Shapes(k)|
    ensures Rotated(k, Rotated(k, Rotated(k, Rotated(k, rotation)))) == rotation
    ensures 0 <= Rotated(k, rotation) < |Shapes(k)|
  {
  }

  /** For O, rotation is a no-op and the current shape is always its single state. */
  lemma ORotationFixed(rotation: int)
    requires 0 <= rotation
    ensures Rotated(O, rotation) == rotation
    ensures ShapeOf(O, rotation) == Shapes(O)[0]
  {
  }

  /** One piece: its kind and the tables looked up for it are constant, its pose changes in place. */
  class Tetromino {
    const kind: Kind
    const shape: seq<Shape>
    const color: string
    var x: int
    var y: int
    var rotation: int

    ghost predicate Valid()
      reads this
    {
      shape == Shapes(kind) && color == ColorOf(kind) && 0 <= rotation < |shape|
    }

    function GetPose(): Pose
      reads this
    {
      Pose(x, y, rotation)
    }

    /** A new piece of the given kind, at the spawn pose (3, 0) in rotation state 0. */
    constructor (kind: Kind)
      ensures Valid() && this.kind == kind && color == ColorOf(kind)
      ensures GetPose() == Pose(3, 0, 0)
    {
      this.kind := kind;
      shape := Shapes(kind);
      color := ColorOf(kind);
      x := 3;
      y := 0;
      rotation := 0;
    }

    /** The matrix of the current rotation state; O ignores its index. */
    function GetCurrentShape(): (s: Shape)
      reads this
      requires Valid()
      ensures s == ShapeOf(kind, rotation)
      ensures Square(s, Side(kind)) && exists r, c :: Filled(s, r, c)
    {
      ShapeBlocks(kind, rotation);
      if kind == O then shape[0] else shape[rotation]
    }

    method MoveLeft()
      modifies this
      ensures GetPose() == Pose(old(x) - 1, old(y), old(rotation))
      ensures old(Valid()) ==> Valid()
    {
      x := x - 1;
    }

    method MoveRight()
      modifies this
      ensures GetPose() == Pose(old(x) + 1, old(y), old(rotation))
      ensures old(Valid()) ==> Valid()
    {
      x := x + 1;
    }

    method MoveDown()
      modifies this
      ensures GetPose() == Pose(old(x), old(y) + 1, old(rotation))
      ensures old(Valid()) ==> Valid()
    {
      y := y + 1;
    }

    /** Clockwise rotation; O pieces do not rotate. */
    method Rotate()
      requires Valid()
      modifies this
      ensures Valid()
      ensures GetPose() == Pose(old(x), old(y), Rotated(kind, old(rotation)))
    {
      if kind == O {
        return;
      }
      rotation := (rotation + 1) % |shape|;
    }

    /** A fresh piece of the same kind and pose; being fresh, changing it cannot change this one. */
    method Clone() returns (c: Tetromino)
      requires Valid()
      ensures fresh(c) && c.Valid() && c.kind == kind && c.GetPose() == GetPose()
    {
      c := new Tetromino(kind);
      c.x := x;
      c.y := y;
      c.rotation := rotation;
    }
  }

  /** `randomTetromino`, with the random index into Kinds supplied by the caller. */
  method RandomTetromino(choice: nat) returns (t: Tetromino)
    requires choice < |Kinds|
    ensures fresh(t) && t.Valid() && t.kind == Kinds[choice] && t.GetPose() == Pose(3, 0, 0)
  {
    t := new Tetromino(Kinds[choice]);
  }

  /** A step left followed by a step right puts the piece back where it was. */
  method LeftThenRightRestores(t: Tetromino)
    requires t.Valid()
    modifies t
    ensures t.Valid() && t.GetPose() == old(t.GetPose())
  {
    t.MoveLeft();
    t.MoveRight();
  }

  /** Moving and rotating a clone changes the clone only; the original keeps its pose. */
  method CloneIsIndependent(t: Tetromino) returns (c: Tetromino)
    requires t.Valid()
    ensures fresh(c) && c.Valid() && c.kind == t.kind && unchanged(t)
    ensures c.GetPose() == Pose(t.x - 1, t.y + 1, Rotated(t.kind, t.rotation))
  {
    c := t.Clone();
    c.MoveLeft();
    c.MoveDown();
    c.Rotate();
  }
}
