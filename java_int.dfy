/** Java's 32-bit `int` arithmetic, as the event tree uses it for counts and key comparisons. */
module JavaInt {
  const MIN_INT: int := -0x8000_0000
  const MAX_INT: int := 0x7FFF_FFFF
  const MODULUS: int := 0x1_0000_0000

  /** The values a Java `int` can hold. */
  predicate IsInt(x: int) {
    MIN_INT <= x <= MAX_INT
  }

  /** Two's-complement truncation of a mathematical integer to a Java `int`. */
  function Wrap(x: int): (r: int)
    ensures IsInt(r)
    ensures IsInt(x) ==> r == x
  {
    (x - MIN_INT) % MODULUS + MIN_INT
  }

  /** Java's `a + b` on `int`. */
  function Add(a: int, b: int): int {
    Wrap(a + b)
  }

  /** Java's `a - b` on `int`. */
  function Sub(a: int, b: int): int {
    Wrap(a - b)
  }

  /** Wrapping is insensitive to multiples of 2^32. */
  lemma WrapShift(x: int, q: int)
    ensures Wrap(x + q * MODULUS) == Wrap(x)
  {
    var m := (x - MIN_INT) % MODULUS;
    var d := (x - MIN_INT) / MODULUS;
    assert x - MIN_INT == d * MODULUS + m;
    assert x + q * MODULUS - MIN_INT == (d + q) * MODULUS + m;
  }

  /** Adding wrapped operands and wrapping once gives the wrapped mathematical sum,
      so a chain of Java `+` computes the true sum modulo 2^32. */
  lemma AddWrapped(x: int, y: int)
    ensures Wrap(Wrap(x) + y) == Wrap(x + y)
    ensures Wrap(x + Wrap(y)) == Wrap(x + y)
  {
    var dx := (x - MIN_INT) / MODULUS;
    assert Wrap(x) == x - dx * MODULUS;
    WrapShift(x + y, -dx);
    var dy := (y - MIN_INT) / MODULUS;
    assert Wrap(y) == y - dy * MODULUS;
    WrapShift(x + y, -dy);
  }

  /** The comparison the tree code writes as `a - b < 0` on Java ints. */
  predicate SubLess(a: int, b: int) {
    Sub(a, b) < 0
  }

  /** As written, the subtraction test misorders two ints whose difference overflows:
      2147483647 - (-1) wraps to -2147483648, so the larger key is taken to be the smaller. */
  lemma SubtractionMisorders()
    ensures IsInt(MAX_INT) && IsInt(-1)
    ensures SubLess(MAX_INT, -1) && !(MAX_INT < -1)
  {
  }

  /** Whenever the difference of two ints fits in an int, the subtraction tests decide the
      integer order. */
  lemma SubtractionAgreesWithoutOverflow(a: int, b: int)
    requires IsInt(a - b)
    ensures SubLess(a, b) <==> a < b
    ensures Sub(a, b) == 0 <==> a == b
    ensures Sub(a, b) <= 0 <==> a <= b
    ensures Sub(a, b) >= 0 <==> a >= b
  {
  }

  /** An event id: a non-negative Java int, as the bootstrap data (digits only, no sign)
      delivers them. */
  predicate IsId(x: int) {
    0 <= x <= MAX_INT
  }

  /** The difference of two event ids never overflows, so every subtraction test the tree
      writes (`< 0`, `<= 0`, `>= 0`, `== 0`) decides the integer order of the ids. */
  lemma CompareIds(a: int, b: int)
    requires IsId(a) && IsId(b)
    ensures IsInt(a - b)
    ensures Sub(a, b) < 0 <==> a < b
    ensures Sub(a, b) == 0 <==> a == b
    ensures Sub(a, b) <= 0 <==> a <= b
    ensures Sub(a, b) >= 0 <==> a >= b
  {
    SubtractionAgreesWithoutOverflow(a, b);
  }

  /** Every entry of an event-count map is an event id with a Java int count. */
  predicate JavaEntries(m: map<int, int>) {
    forall k :: k in m ==> IsId(k) && IsInt(m[k])
  }

  /** `c + l + r` evaluated in Java `int` arithmetic on wrapped `l` and `r` is the wrapped
      mathematical sum. */
  lemma WrapSum3(c: int, l: int, r: int)
    ensures Wrap(Wrap(c + Wrap(l)) + Wrap(r)) == Wrap(c + l + r)
  {
    AddWrapped(c, l);
    AddWrapped(Wrap(c + l), r);
    AddWrapped(c + l, r);
  }
}
