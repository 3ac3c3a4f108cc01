/** What the flag table means geometrically. Each orientation of a square
    tile is one of eight signed permutation matrices acting on pixel offsets
    from the tile centre, with the y axis pointing down the screen.

    The TMX format applies its flags in a fixed order: the diagonal flip
    (a transpose) first, then the horizontal flip, then the vertical one.
    The converter itself does not say which way `rot` turns. The theorem
    below shows that the table in `TileFlags.FlipState` is correct for the
    reading "an optional horizontal flip, followed by `rot` quarter turns
    clockwise": under that reading it turns the editor's description into
    the TMX one. */
module Orientation {
  import opened TileFlags

  /** A signed permutation of the two axes: optionally swap x and y, then
      optionally negate each coordinate. */
  datatype Symmetry = Symmetry(swap: bool, negX: bool, negY: bool)

  function Signed(negate: bool, v: int): int {
    if negate then -v else v
  }

  /** The point (x, y) moved by `m`. */
  function Apply(m: Symmetry, x: int, y: int): (int, int) {
    var (u, v) := if m.swap then (y, x) else (x, y);
    (Signed(m.negX, u), Signed(m.negY, v))
  }

  /** `Then(first, second)`: apply `first`, then `second`. */
  function Then(first: Symmetry, second: Symmetry): (m: Symmetry)
    ensures forall x: int, y: int {:trigger Apply(m, x, y)} ::
      Apply(m, x, y) == Apply(second, Apply(first, x, y).0, Apply(first, x, y).1)
  {
    Symmetry(first.swap != second.swap,
        (if second.swap then first.negY else first.negX) != second.negX,
        (if second.swap then first.negX else first.negY) != second.negY)
  }

  const Identity := Symmetry(false, false, false)
  const MirrorX := Symmetry(false, true, false)     // horizontal flip: x becomes -x
  const MirrorY := Symmetry(false, false, true)     // vertical flip: y becomes -y
  const Transpose := Symmetry(true, false, false)   // diagonal flip: x and y swap
  /** A quarter turn clockwise on screen: (x, y) goes to (-y, x), so right goes to down. */
  const QuarterTurn := Symmetry(true, true, false)

  /** `k` quarter turns. */
  function Turns(k: nat): Symmetry {
    if k == 0 then Identity else Then(Turns(k - 1), QuarterTurn)
  }

  /** The transformation a TMX renderer applies for the flag bits of `p`. */
  function FlagsTransform(p: bv32): Symmetry {
    var diagonal := if p & FlippedDiagonally != 0 then Transpose else Identity;
    var horizontal := if p & FlippedHorizontally != 0 then Then(diagonal, MirrorX) else diagonal;
    if p & FlippedVertically != 0 then Then(horizontal, MirrorY) else horizontal
  }

  /** The reading of the editor's `rot` and `flipX` under which the table is
      correct: the optional horizontal flip, then `rot` clockwise quarter
      turns. */
  function EditorTransform(rot: bv32, flipX: bool): Symmetry
    requires rot <= 3
  {
    var turns := if rot == 0 then 0 else if rot == 1 then 1 else if rot == 2 then 2 else 3;
    Then(if flipX then MirrorX else Identity, Turns(turns))
  }

  /** Under that reading, the flag table renders every tile as the editor
      placed it. */
  lemma FlipStateRealisesEditorTransform(rot: bv32, flipX: bool)
    requires rot <= 3
    ensures FlagsTransform(FlipState(rot, flipX)) == EditorTransform(rot, flipX)
  {
    assert Turns(1) == QuarterTurn;
    assert Turns(2) == Symmetry(false, true, true);
    assert Turns(3) == Symmetry(true, false, true);
  }

  /** The eight classes are eight different transformations, so no two
      (rotation, flip) pairs render alike. */
  lemma EditorTransformInjective(r1: bv32, f1: bool, r2: bv32, f2: bool)
    requires r1 <= 3 && r2 <= 3
    requires EditorTransform(r1, f1) == EditorTransform(r2, f2)
    ensures r1 == r2 && f1 == f2
  {
    assert Turns(1) == QuarterTurn;
    assert Turns(2) == Symmetry(false, true, true);
    assert Turns(3) == Symmetry(true, false, true);
  }
}
