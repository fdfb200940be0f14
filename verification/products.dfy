/** Products of non-negative integers, as the cutoff arithmetic needs them. */
module Products {

  /** Multiplying by a non-negative factor preserves `<=`. */
  lemma MulMonotone(a: int, b: int, c: int)
    requires a <= b && 0 <= c
    ensures a * c <= b * c
  {
    var k := b - a;
    assert b * c == a * c + k * c;
    assert k * c >= 0;
  }

  /** Multiplying by a positive factor preserves `<`. */
  lemma MulStrict(a: int, b: int, c: int)
    requires a < b && 0 < c
    ensures a * c < b * c
  {
    MulMonotone(a + 1, b, c);
  }
}
