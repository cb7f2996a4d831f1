/** The detector's rectangle (the `BlobBoundingBox` value class): four `int` fields set by the
    constructor, structural `equals`, a 32-bit `hashCode` and a `toString` for logging. */
module BoundingBoxes {
  import opened JavaInt

  /** `new BlobBoundingBox(x1, y1, x2, y2)` is `BlobBoundingBox(x1, y1, x2, y2)`. */
  datatype BlobBoundingBox = BlobBoundingBox(x1: int, y1: int, x2: int, y2: int)

  /** The argument of `equals(Object v)`: null, a bounding box, or any other object. */
  datatype BoxArg = NullArg | BoxObject(box: BlobBoundingBox) | OtherObject

  /** `equals`: true exactly for a bounding box whose four fields all match. */
  function BoxEquals(self: BlobBoundingBox, v: BoxArg): (r: bool)
    ensures r <==> v == BoxObject(self)
  {
    match v
    case BoxObject(ptr) => ptr.x1 == self.x1 && ptr.y1 == self.y1 && ptr.x2 == self.x2 && ptr.y2 == self.y2
    case _ => false
  }

  /** `hashCode`: starting from 23, each field in turn is folded in by `hash * 31 + field`
      in `int` arithmetic. */
  function BoxHash(b: BlobBoundingBox): (h: int)
    ensures IsInt32(h)
  {
    var hash := 23;
    var hash := Wrap32(hash * 31 + b.x1);
    var hash := Wrap32(hash * 31 + b.y1);
    var hash := Wrap32(hash * 31 + b.x2);
    Wrap32(hash * 31 + b.y2)
  }

  /** The step-by-step wrapped hash is the polynomial `(((23*31+x1)*31+y1)*31+x2)*31+y2` modulo 2^32. */
  lemma BoxHashClosedForm(b: BlobBoundingBox)
    ensures BoxHash(b) == Wrap32((((23 * 31 + b.x1) * 31 + b.y1) * 31 + b.x2) * 31 + b.y2)
  {
    var p1 := 23 * 31 + b.x1;
    var p2 := p1 * 31 + b.y1;
    var p3 := p2 * 31 + b.x2;
    WrapStep(p1, b.y1);
    WrapStep(p2, b.x2);
    WrapStep(p3, b.y2);
  }

  /** `equals` is an equivalence relation on boxes, rejects null and foreign objects,
      and equal boxes hash alike. */
  lemma BoxEqualsContract(a: BlobBoundingBox, b: BlobBoundingBox, c: BlobBoundingBox)
    ensures BoxEquals(a, BoxObject(a))
    ensures BoxEquals(a, BoxObject(b)) == BoxEquals(b, BoxObject(a))
    ensures BoxEquals(a, BoxObject(b)) && BoxEquals(b, BoxObject(c)) ==> BoxEquals(a, BoxObject(c))
    ensures BoxEquals(a, BoxObject(b)) ==> BoxHash(a) == BoxHash(b)
    ensures !BoxEquals(a, NullArg) && !BoxEquals(a, OtherObject)
  {
  }

  /** `toString`: `"x1:" + x1 + "; y1:" + y1 + "; x2:" + x2 + "; y2:" + y2 + ";"`
      (grouped from the right, which concatenation allows). */
  function BoxToString(b: BlobBoundingBox): (s: string)
    ensures |s| > 4 && s[..3] == "x1:" && s[|s| - 1] == ';'
  {
    "x1:" + (IntToString(b.x1) + ("; y1:" + (IntToString(b.y1)
      + ("; x2:" + (IntToString(b.x2) + ("; y2:" + (IntToString(b.y2) + ";")))))))
  }

  predicate NoSemicolon(s: string) {
    forall i :: 0 <= i < |s| ==> s[i] != ';'
  }

  /** A prefix free of ';' followed by text that starts with ';' is determined by the whole. */
  lemma SplitAtSemicolon(a: string, r: string, a': string, r': string)
    requires NoSemicolon(a) && NoSemicolon(a')
    requires |r| > 0 && r[0] == ';' && |r'| > 0 && r'[0] == ';'
    requires a + r == a' + r'
    ensures a == a' && r == r'
  {
    assert a == (a + r)[..|a|];
    assert a' == (a' + r')[..|a'|];
    assert r == (a + r)[|a|..];
    assert r' == (a' + r')[|a'|..];
  }

  lemma NumberHasNoSemicolon(n: int)
    ensures NoSemicolon(IntToString(n))
  {
  }

  /** Peels one `<number>` field off the front of a printed box. */
  lemma PeelField(m: int, n: int, rest: string, rest': string, sep: string)
    requires |sep| > 0 && sep[0] == ';'
    requires IntToString(m) + (sep + rest) == IntToString(n) + (sep + rest')
    ensures m == n && rest == rest'
  {
    NumberHasNoSemicolon(m);
    NumberHasNoSemicolon(n);
    SplitAtSemicolon(IntToString(m), sep + rest, IntToString(n), sep + rest');
    IntToStringInjective(m, n);
    assert rest == (sep + rest)[|sep|..];
    assert rest' == (sep + rest')[|sep|..];
  }

  /** `toString` tells boxes apart: two boxes that print the same are equal. */
  lemma BoxToStringInjective(a: BlobBoundingBox, b: BlobBoundingBox)
    requires BoxToString(a) == BoxToString(b)
    ensures a == b
  {
    var ta := IntToString(a.x1) + ("; y1:" + (IntToString(a.y1) + ("; x2:" + (IntToString(a.x2) + ("; y2:" + (IntToString(a.y2) + ";"))))));
    var tb := IntToString(b.x1) + ("; y1:" + (IntToString(b.y1) + ("; x2:" + (IntToString(b.x2) + ("; y2:" + (IntToString(b.y2) + ";"))))));
    assert ta == BoxToString(a)[3..];
    assert tb == BoxToString(b)[3..];
    PeelField(a.x1, b.x1, IntToString(a.y1) + ("; x2:" + (IntToString(a.x2) + ("; y2:" + (IntToString(a.y2) + ";")))),
                          IntToString(b.y1) + ("; x2:" + (IntToString(b.x2) + ("; y2:" + (IntToString(b.y2) + ";")))), "; y1:");
    PeelField(a.y1, b.y1, IntToString(a.x2) + ("; y2:" + (IntToString(a.y2) + ";")),
                          IntToString(b.x2) + ("; y2:" + (IntToString(b.y2) + ";")), "; x2:");
    PeelField(a.x2, b.x2, IntToString(a.y2) + ";", IntToString(b.y2) + ";", "; y2:");
    assert ";" + [] == ";";
    PeelField(a.y2, b.y2, [], [], ";");
  }
}
