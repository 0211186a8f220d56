/** Types, constants and small arithmetic facts that every part of the model shares. */
module Base {

  datatype Option<+T> = None | Some(value: T)

  type Byte = x: int | 0 <= x < 0x100
  type U16 = x: int | 0 <= x < 0x1_0000
  type U32 = x: int | 0 <= x < 0x1_0000_0000
  type U64 = x: int | 0 <= x < 0x1_0000_0000_0000_0000

  const POW2_16 := 0x1_0000
  const POW2_32 := 0x1_0000_0000
  const POW2_63 := 0x8000_0000_0000_0000
  const POW2_64 := 0x1_0000_0000_0000_0000

  /** The `/` of C: the quotient is truncated toward zero. */
  function TruncDiv(a: int, b: int): int
    requires b > 0
  {
    if a >= 0 then a / b else -(-a / b)
  }

  /** What a 64-bit sum becomes once it is stored in an int64_t. */
  function ToInt64(x: int): int {
    var u := x % POW2_64;
    if u < POW2_63 then u else u - POW2_64
  }

  /** The least integer that is not below a / b. */
  function CeilDiv(a: int, b: int): int
    requires b > 0
  {
    (a + b - 1) / b
  }

  /** A product keeps the order of its first factor. */
  lemma MulMonotone(x: int, y: int, b: int)
    requires x <= y && 0 <= b
    ensures x * b <= y * b
  {
    assert 0 <= (y - x) * b;
  }

  /** The integer quotient is the only q with q * b <= a < (q + 1) * b. */
  lemma DivUnique(q: int, b: int, a: int)
    requires b > 0
    requires q * b <= a < (q + 1) * b
    ensures a / b == q
  {
    var d := a / b;
    assert d * b <= a < (d + 1) * b;
    if d < q {
      MulMonotone(d + 1, q, b);
    } else if q < d {
      MulMonotone(q + 1, d, b);
    }
  }

  lemma DivMonotone(a: int, c: int, b: int)
    requires b > 0 && a <= c
    ensures a / b <= c / b
  {
    var d, e := a / b, c / b;
    assert d * b <= a && c < (e + 1) * b;
    if e < d {
      MulMonotone(e + 1, d, b);
    }
  }

  /** The ceiling q of a / n: (q - 1) * n < a <= q * n. */
  lemma CeilDivBounds(a: int, n: nat)
    requires n >= 1
    ensures var q := CeilDiv(a, n); (q - 1) * n < a <= q * n
  {
    var q := CeilDiv(a, n);
    var x := a + n - 1;
    assert q * n <= x < (q + 1) * n;
    assert (q - 1) * n == q * n - n && (q + 1) * n == q * n + n;
  }

  /** Dividing a number of things into groups makes no more groups than things. */
  lemma CeilDivAtMost(a: nat, n: nat)
    requires n >= 1
    ensures 0 <= CeilDiv(a, n) <= a
  {
    DivMonotone(0, a + n - 1, n);
    MulMonotone(1, n, a);
    if a > 0 {
      assert a + n - 1 <= a * n by { MulMonotone(0, n - 1, a - 1); assert (n - 1) * (a - 1) == a * n - a - n + 1; }
      DivMonotone(a + n - 1, a * n, n);
      DivUnique(a, n, a * n);
    } else {
      DivUnique(0, n, n - 1);
    }
  }

  lemma CancelFactor(a: int, b: int, n: nat)
    requires a * n < b * n
    ensures a < b
  {
    if b <= a {
      MulMonotone(b, a, n);
    }
  }

  /** The ceiling is the only q with (q - 1) * n < a <= q * n. */
  lemma CeilDivUnique(q: int, n: nat, a: int)
    requires n >= 1 && (q - 1) * n < a <= q * n
    ensures CeilDiv(a, n) == q
  {
    CeilDivBounds(a, n);
    var c := CeilDiv(a, n);
    CancelFactor(q - 1, c, n);
    CancelFactor(c - 1, q, n);
  }

  lemma Associates<T>(a: seq<T>, b: seq<T>, c: seq<T>)
    ensures a + (b + c) == a + b + c
  {
  }
}
