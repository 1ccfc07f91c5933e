/** Machine words, bytes and the failure-carrying results the other modules share. */
module Words {
  const U64_LIMIT: int := 0x1_0000_0000_0000_0000
  const U128_LIMIT: int := 0x1_0000_0000_0000_0000_0000_0000_0000_0000
  const I64_MAX: int := 0x7fff_ffff_ffff_ffff

  type u64 = x: int | 0 <= x < 0x1_0000_0000_0000_0000
  type i64 = x: int | -0x8000_0000_0000_0000 <= x < 0x8000_0000_0000_0000
  type u128 = x: int | 0 <= x < 0x1_0000_0000_0000_0000_0000_0000_0000_0000
  type Byte = x: int | 0 <= x < 256
  type Bytes = seq<Byte>

  /** A 32-byte value: a hash or a public key. */
  type Digest = b: Bytes | |b| == 32 witness seq(32, _ => 0)
  type Pubkey = Digest

  datatype Option<+T> = None | Some(value: T) {
    function GetOr(default: T): T {
      if Some? then value else default
    }
  }

  datatype Result<+T, +E> = Ok(value: T) | Err(error: E) {
    predicate IsFailure() {
      Err?
    }

    function PropagateFailure<U>(): Result<U, E>
      requires Err?
    {
      Err(error)
    }

    function Extract(): T
      requires Ok?
    {
      value
    }
  }

  /** A Rust `as u64` cast of a wider unsigned value keeps the low 64 bits. */
  function TruncateU64(x: u128): u64 {
    x % U64_LIMIT
  }

  /** A Rust `as u64` cast of a signed value reinterprets its two's complement bits. */
  function ReinterpretI64(x: i64): u64 {
    if x < 0 then x + U64_LIMIT else x
  }

  // ---- arithmetic facts the solver does not find by itself

  lemma MulMono(a: int, b: int, c: nat)
    requires a <= b
    ensures a * c <= b * c
  {
  }

  lemma MulBound(a: u64, b: u64)
    ensures 0 <= a * b < U128_LIMIT
  {
    MulBelow(a, b, U64_LIMIT - 1);
  }

  lemma MulBelow(a: nat, b: nat, m: nat)
    requires a <= m && b <= m
    ensures 0 <= a * b <= m * m
  {
    MulMono(0, a, b);
    MulMono(a, m, b);
    MulMono(b, m, m);
    assert m * b == b * m;
  }

  /** `q` is the floor of `a / d` when it is squeezed from both sides. */
  lemma FloorUnique(a: int, d: int, q: int)
    requires d > 0 && q * d <= a < q * d + d
    ensures a / d == q
  {
    var e := a / d;
    assert e * d <= a < e * d + d;
    assert (e + 1) * d == e * d + d && (q + 1) * d == q * d + d;
    if e < q {
      MulMono(e + 1, q, d);
    } else if q < e {
      MulMono(q + 1, e, d);
    }
  }

  lemma DivMono(a: nat, b: nat, d: nat)
    requires a <= b && d > 0
    ensures 0 <= a / d <= b / d
  {
    var x, y := a / d, b / d;
    assert x * d <= a && b < y * d + d == (y + 1) * d;
    if y < x {
      MulMono(y + 1, x, d);
    }
  }

  /** A share `part / whole` of `x`, rounded down, is at most `x`. */
  lemma ShareBound(x: nat, part: nat, whole: nat)
    requires part <= whole && whole > 0
    ensures 0 <= part * x / whole <= x
  {
    MulMono(part, whole, x);
    DivMono(part * x, whole * x, whole);
    assert whole * x / whole == x by {
      assert x * whole == whole * x;
      FloorUnique(whole * x, whole, x);
    }
    assert 0 <= part * x;
  }

  /** Rounding two shares down separately loses nothing to rounding their sum down. */
  lemma FloorAdd(a: nat, b: nat, d: nat)
    requires d > 0
    ensures a / d + b / d <= (a + b) / d
  {
    FloorBounds(a, d);
    FloorBounds(b, d);
    FloorBounds(a + b, d);
    FloorsAdd(a, b, d, a / d, b / d, (a + b) / d);
  }

  lemma FloorBounds(a: int, d: nat)
    requires d > 0
    ensures a / d * d <= a < a / d * d + d
  {
  }

  lemma FloorsAdd(a: int, b: int, d: nat, x: int, y: int, z: int)
    requires x * d <= a && y * d <= b && a + b < z * d + d
    ensures x + y <= z
  {
    assert (x + y) * d == x * d + y * d && (z + 1) * d == z * d + d;
    if z < x + y {
      MulMono(z + 1, x + y, d);
    }
  }
}
