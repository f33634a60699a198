/** Fixed-width words of the C code: bytes, 16- and 32-bit fields, masks that are powers of two
    minus one, and the network byte order of the stream format. */
module Words {
  datatype Option<+T> = None | Some(value: T)

  type u8 = x: int | 0 <= x < 0x100
  type u16 = x: int | 0 <= x < 0x1_0000
  type u32 = x: int | 0 <= x < 0x1_0000_0000

  /** A key: non-empty, short enough for the 16-bit length field, and free of the NUL terminator. */
  type Key = s: seq<u8> | 0 < |s| < 0xFFFF && 0 !in s witness [1]

  ghost predicate IsPow2(n: nat) {
    n == 1 || (n % 2 == 0 && n > 0 && IsPow2(n / 2))
  }

  /** Two to the power of `n`. */
  function Pow2(n: nat): (r: nat)
    ensures r > n
  {
    if n == 0 then 1 else 2 * Pow2(n - 1)
  }

  lemma Pow2Step(n: nat)
    ensures Pow2(0) == 1 && Pow2(n + 1) == 2 * Pow2(n)
  {}

  lemma Pow4()
    ensures IsPow2(4)
  {
    assert IsPow2(2);
  }

  lemma Pow2Double(n: nat)
    requires IsPow2(n)
    ensures IsPow2(2 * n) && n > 0
  {}

  lemma Pow16()
    ensures IsPow2(0x1_0000)
  {
    assert IsPow2(2);
    assert IsPow2(16) by { assert IsPow2(4); }
    assert IsPow2(256) by { assert IsPow2(64); }
    assert IsPow2(4096) by { assert IsPow2(1024); }
    assert IsPow2(16384);
  }

  /** Powers of two are at least a factor of two apart. */
  lemma {:induction false} Pow2Gap(a: nat, b: nat)
    requires IsPow2(a) && IsPow2(b) && a < b
    ensures 2 * a <= b
  {
    if a > 1 { Pow2Gap(a / 2, b / 2); }
  }

  /** The C operator `a & b` on unsigned words of any width, bit by bit. */
  function BitAnd(a: nat, b: nat): (r: nat)
    ensures r <= a && r <= b
  {
    if a == 0 || b == 0 then 0 else 2 * BitAnd(a / 2, b / 2) + (if a % 2 == 1 && b % 2 == 1 then 1 else 0)
  }

  /** Masking with a power of two minus one is the remainder: the reason for the table sizes. */
  lemma {:induction false} MaskIsRemainder(a: nat, n: nat)
    requires IsPow2(n)
    ensures BitAnd(a, n - 1) == a % n
  {
    if n > 1 {
      MaskIsRemainder(a / 2, n / 2);
      assert (n - 1) / 2 == n / 2 - 1 && (n - 1) % 2 == 1;
      SplitRemainder(a, n / 2);
      if a != 0 {
        assert BitAnd(a, n - 1) == 2 * BitAnd(a / 2, (n - 1) / 2) + a % 2;
      }
    }
  }

  lemma SplitRemainder(a: nat, m: nat)
    requires m > 0
    ensures a % (2 * m) == 2 * ((a / 2) % m) + a % 2
  {
    var q, r := (a / 2) / m, (a / 2) % m;
    assert a == (2 * m) * q + (2 * r + a % 2) by {
      assert a / 2 == m * q + r;
    }
    RemainderUnique(2 * m, q, 2 * r + a % 2);
  }

  lemma {:induction false} RemainderUnique(d: nat, q: nat, r: nat)
    requires r < d
    ensures (d * q + r) % d == r
  {
    var x := d * q + r;
    var e := x / d - q;
    assert d * e == d * (x / d) - d * q;
    assert e > 0 ==> d * e >= d;
    assert e < 0 ==> d * e + d <= 0;
  }

  lemma SmallRemainder(a: nat, d: nat)
    requires a < d
    ensures a % d == a
  {}

  lemma SelfRemainder(d: nat)
    requires d > 0
    ensures d % d == 0
  {}
}
