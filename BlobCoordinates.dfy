/** The cell address used while flood-filling a frame (the `BlobCoordinates` value class):
    the Java constructor stores `x` in `x1` and `y` in `y1`, `equals` compares both fields,
    and `hashCode` folds them into a 32-bit hash. */
module Coordinates {
  import opened JavaInt

  /** `new BlobCoordinates(x, y)` is `BlobCoordinates(x, y)`: column `x1`, row `y1`. */
  datatype BlobCoordinates = BlobCoordinates(x1: int, y1: int)

  /** The argument of `equals(Object v)`: null, a cell address, or any other object. */
  datatype CoordArg = NullArg | CoordObject(coord: BlobCoordinates) | OtherObject

  /** `equals`: true exactly for a cell address with the same two fields. */
  function CoordEquals(self: BlobCoordinates, v: CoordArg): (r: bool)
    ensures r <==> v == CoordObject(self)
  {
    match v
    case CoordObject(ptr) => ptr.x1 == self.x1 && ptr.y1 == self.y1
    case _ => false
  }

  /** `hashCode`: `hash = 23; hash = hash * 31 + x1; hash = hash * 31 + y1` in `int` arithmetic. */
  function CoordHash(c: BlobCoordinates): (h: int)
    ensures IsInt32(h)
  {
    var hash := 23;
    var hash := Wrap32(hash * 31 + c.x1);
    Wrap32(hash * 31 + c.y1)
  }

  /** The step-by-step wrapped hash is the closed polynomial `(23*31 + x1)*31 + y1` taken modulo 2^32. */
  lemma CoordHashClosedForm(c: BlobCoordinates)
    ensures CoordHash(c) == Wrap32((23 * 31 + c.x1) * 31 + c.y1)
  {
    WrapStep(23 * 31 + c.x1, c.y1);
  }

  /** `equals` is an equivalence relation on cell addresses, and equal addresses hash alike. */
  lemma CoordEqualsContract(a: BlobCoordinates, b: BlobCoordinates, c: BlobCoordinates)
    ensures CoordEquals(a, CoordObject(a))
    ensures CoordEquals(a, CoordObject(b)) == CoordEquals(b, CoordObject(a))
    ensures CoordEquals(a, CoordObject(b)) && CoordEquals(b, CoordObject(c)) ==> CoordEquals(a, CoordObject(c))
    ensures CoordEquals(a, CoordObject(b)) ==> CoordHash(a) == CoordHash(b)
    ensures !CoordEquals(a, NullArg) && !CoordEquals(a, OtherObject)
  {
  }
}
