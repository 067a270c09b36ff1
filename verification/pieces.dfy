/**
 The piece catalog (the seven tetromino kinds I, O, T, L, J, S, Z) and the
 factory that spawns a piece of a given kind at the top of the board.
 The kind is chosen at random by the game; here it is a parameter.
 */
module Pieces {
  import opened Grid

  /** A falling piece: its shape, its colour and the board position of the top-left corner of its box. */
  datatype Piece = Piece(shape: Shape, color: int, x: int, y: int)

  const KINDS: nat := 7

  /** The canonical shapes, indexed by kind: I, O, T, L, J, S, Z. */
  const SHAPES: seq<Shape> := [
    [[true, true, true, true]],
    [[true, true], [true, true]],
    [[false, true, false], [true, true, true]],
    [[false, false, true], [true, true, true]],
    [[true, false, false], [true, true, true]],
    [[false, true, true], [true, true, false]],
    [[true, true, false], [false, true, true]]
  ]

  /** A piece the game can hold: a well-formed shape and one of the colours. */
  predicate PieceOk(p: Piece) {
    ShapeOk(p.shape) && 1 <= p.color <= COLOURS
  }

  lemma CatalogShapesOk(kind: nat)
    requires kind < KINDS
    ensures ShapeOk(SHAPES[kind])
  {
    // every catalog shape occupies column 1 of its bottom row
    var s := SHAPES[kind];
    assert s[|s| - 1][1];
  }

  /**
   Spawns a piece of the given kind: the catalog shape, the kind's colour,
   row 0, and the box centred horizontally (an odd width sits one column
   right of centre).
   */
  function CreatePiece(kind: nat): (p: Piece)
    requires kind < KINDS
    ensures PieceOk(p) && p.shape == SHAPES[kind] && p.color == kind + 1
    ensures p.y == 0
    ensures 0 <= p.x && p.x + |p.shape[0]| <= COLS
    ensures (COLS - (p.x + |p.shape[0]|)) - p.x == (if |p.shape[0]| % 2 == 0 then 0 else -1)
  {
    CatalogShapesOk(kind);
    Piece(SHAPES[kind], kind + 1, COLS / 2 - |SHAPES[kind][0]| / 2, 0)
  }

  /** The I piece spawns in columns 3..6, the O piece in columns 4..5. */
  lemma SpawnColumns()
    ensures CreatePiece(0).x == 3 && CreatePiece(1).x == 4
    ensures forall kind :: 2 <= kind < KINDS ==> CreatePiece(kind).x == 4
  {
  }
}
