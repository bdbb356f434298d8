/** The `Sprite` value object: a labelled bounding box, validated on construction. */
module Sprites {
  import opened Wrappers

  /** A Python value passed as a coordinate: an `int`, or anything else (a float, a string, a numpy scalar). */
  datatype Coord = Int(v: int) | NonInt

  /** The fields fixed by the constructor; the datatype's destructors are the read-only properties. */
  datatype Sprite = Sprite(spriteLabel: int, width: int, height: int, topLeft: (int, int), bottomRight: (int, int))

  const InvalidCoordinates: Error := ValueError("Invalid coordinates")

  /** Python's tuple comparison `(a, b) <= (c, d)`. */
  predicate LexLessEq(a: int, b: int, c: int, d: int)
    // equal pairs compare `<=`, and a smaller first component decides whatever the second
    ensures a == c && b == d ==> LexLessEq(a, b, c, d)
    ensures a < c ==> LexLessEq(a, b, c, d)
    ensures c < a ==> !LexLessEq(a, b, c, d)
  {
    a < c || (a == c && b <= d)
  }

  /** `Sprite(label, x1, y1, x2, y2)`. */
  function NewSprite(spriteLabel: int, x1: Coord, y1: Coord, x2: Coord, y2: Coord): (r: Outcome<Sprite>)
    // accepted exactly when all four are ints, none is negative and (x2, y2) is lexicographically above (x1, y1)
    ensures r.Ok? <==>
      && x1.Int? && y1.Int? && x2.Int? && y2.Int?
      && x1.v >= 0 && y1.v >= 0 && x2.v >= 0 && y2.v >= 0
      && !LexLessEq(x2.v, y2.v, x1.v, y1.v)
    ensures r.Fail? ==> r.err == InvalidCoordinates
    // width and height count the x and y extents; the corners swap the axes to (y, x)
    ensures r.Ok? ==>
      && r.value.spriteLabel == spriteLabel
      && r.value.width == x2.v - x1.v + 1 && r.value.height == y2.v - y1.v + 1
      && r.value.topLeft == (y1.v, x1.v) && r.value.bottomRight == (y2.v, x2.v)
  {
    if !(x1.Int? && x2.Int? && y1.Int? && y2.Int?) then Fail(InvalidCoordinates)
    else if x1.v < 0 || x2.v < 0 || y1.v < 0 || y2.v < 0 then Fail(InvalidCoordinates)
    else if LexLessEq(x2.v, y2.v, x1.v, y1.v) then Fail(InvalidCoordinates)
    else Ok(Sprite(spriteLabel, x2.v - x1.v + 1, y2.v - y1.v + 1, (y1.v, x1.v), (y2.v, x2.v)))
  }

  /** Every accepted sprite is at least one unit wide; its height is positive only when y2 >= y1. */
  lemma AcceptedExtents(spriteLabel: int, x1: int, y1: int, x2: int, y2: int)
    requires NewSprite(spriteLabel, Int(x1), Int(y1), Int(x2), Int(y2)).Ok?
    ensures NewSprite(spriteLabel, Int(x1), Int(y1), Int(x2), Int(y2)).value.width >= 1
    ensures NewSprite(spriteLabel, Int(x1), Int(y1), Int(x2), Int(y2)).value.height >= 1 <==> y2 >= y1
  {
  }

  /** The lexicographic check lets a box with x2 > x1 and y2 < y1 through, with a non-positive height. */
  lemma InvertedHeightAccepted()
    ensures NewSprite(1, Int(0), Int(5), Int(1), Int(2)) == Ok(Sprite(1, 2, -2, (5, 0), (2, 1)))
  {
  }

  /** Equal corners (a single cell) are rejected. */
  lemma SingleCellRejected(spriteLabel: int, x: nat, y: nat)
    ensures NewSprite(spriteLabel, Int(x), Int(y), Int(x), Int(y)) == Fail(InvalidCoordinates)
  {
  }

  /** The commented examples at the end of the class file. */
  lemma CommentedExamples()
    ensures NewSprite(1, Int(-1), Int(0), Int(0), Int(0)).Fail?
    ensures NewSprite(1, NonInt, Int(0), Int(0), Int(0)).Fail?
    ensures NewSprite(1, Int(12), Int(23), Int(145), Int(208)) == Ok(Sprite(1, 134, 186, (23, 12), (208, 145)))
    ensures NewSprite(8, Int(55), Int(88), Int(457), Int(124)) == Ok(Sprite(8, 403, 37, (88, 55), (124, 457)))
  {
  }
}
