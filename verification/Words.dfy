/** Machine words, checked arithmetic and the page mask of the acquisition engine. */
module Words {

  datatype Option<+T> = None | Some(value: T)

  datatype Result<+T, +E> = Ok(value: T) | Err(error: E)

  const U32_MAX: int := 0xFFFF_FFFF
  const U64_MAX: int := 0xFFFF_FFFF_FFFF_FFFF

  type u32 = x: int | 0 <= x <= U32_MAX
  type u64 = x: int | 0 <= x <= U64_MAX
  type i32 = x: int | -0x8000_0000 <= x <= 0x7FFF_FFFF
  type byte = x: int | 0 <= x <= 255

  /** Addition that refuses to leave the 64-bit range. */
  function CheckedAdd(value: u64, increment: u64): (sum: Option<u64>)
    ensures sum.Some? <==> value + increment <= U64_MAX
    ensures sum.Some? ==> sum.value == value + increment
  {
    if increment > U64_MAX - value then None else Some(value + increment)
  }

  function Min(a: int, b: int): int {
    if a <= b then a else b
  }

  function Max(a: int, b: int): int {
    if a >= b then a else b
  }

  /** `n` zero bytes. */
  function Zeros(n: nat): seq<byte> {
    seq(n, _ => 0)
  }

  ghost predicate AllZero(bytes: seq<byte>) {
    forall i :: 0 <= i < |bytes| ==> bytes[i] == 0
  }

  // ---- what happens at which tick of a clock ----

  /** At how many of the first `n` ticks it happened. */
  function Times(happens: nat -> bool, n: nat): nat {
    if n == 0 then 0 else Times(happens, n - 1) + (if happens(n - 1) then 1 else 0)
  }

  /** What happened at some tick is a tick at which it happens. */
  lemma {:induction false} HappenedSometime(happens: nat -> bool, n: nat)
    requires Times(happens, n) > 0
    ensures exists k :: 0 <= k < n && happens(k)
  {
    if !happens(n - 1) {
      HappenedSometime(happens, n - 1);
      var k :| 0 <= k < n - 1 && happens(k);
      assert 0 <= k < n && happens(k);
    }
  }

  // ---- bitwise and, for the page mask ----

  function BitAnd(a: nat, b: nat): nat {
    if a == 0 || b == 0 then 0
    else 2 * BitAnd(a / 2, b / 2) + (if a % 2 == 1 && b % 2 == 1 then 1 else 0)
  }

  predicate IsPowerOfTwo(p: nat) {
    p == 1 || (p > 1 && p % 2 == 0 && IsPowerOfTwo(p / 2))
  }

  lemma {:induction false} HalvedModulo(a: nat, q: nat)
    requires q > 0
    ensures a % (2 * q) == 2 * ((a / 2) % q) + a % 2
  {
    var h := a / 2;
    var k := h / q;
    var r := 2 * (h % q) + a % 2;
    assert a == 2 * q * k + r by {
      assert h == q * k + h % q;
      assert a == 2 * h + a % 2;
      assert 2 * q * k == 2 * (q * k);
    }
    assert 0 <= r < 2 * q;
    QuotientIsUnique(a, 2 * q, k, r);
  }

  lemma {:induction false} MultipleAtLeast(d: int, n: int)
    requires d > 0 && n >= 1
    ensures d * n >= d
  {
  }

  lemma {:induction false} QuotientIsUnique(a: int, d: int, k: int, r: int)
    requires 0 <= r < d && a == d * k + r
    ensures a % d == r
  {
    var k' := a / d;
    assert d * (k - k') == a % d - r;
    if k > k' {
      MultipleAtLeast(d, k - k');
    }
    if k < k' {
      assert d * (k' - k) == r - a % d;
      MultipleAtLeast(d, k' - k);
    }
  }

  /** Masking with a power of two less one is the remainder. */
  lemma {:induction false} MaskIsModulo(a: nat, p: nat)
    requires IsPowerOfTwo(p)
    ensures BitAnd(a, p - 1) == a % p
    decreases p
  {
    if p > 1 {
      var q := p / 2;
      assert p == 2 * q;
      assert (p - 1) / 2 == q - 1 && (p - 1) % 2 == 1;
      MaskIsModulo(a / 2, q);
      HalvedModulo(a, q);
    }
  }
}
