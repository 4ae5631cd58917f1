/** The carry loops of the child key derivation of BIP32-Ed25519. */
module KeyDerivation {
  import opened Primitives

  const UINT16_RANGE: nat := 0x1_0000

  function Power256(n: nat): (p: nat)
    ensures p > 0
  {
    if n == 0 then 1 else 0x100 * Power256(n - 1)
  }

  /** The number a little-endian digit list stands for; the digits may exceed the base. */
  function LittleEndian(digits: seq<nat>): nat {
    if digits == [] then 0
    else LittleEndian(digits[..|digits|-1]) + digits[|digits|-1] * Power256(|digits| - 1)
  }

  lemma Monotone(a: nat, b: nat, p: nat)
    requires a < b
    ensures (a + 1) * p <= b * p && (a + 1) * p == a * p + p
  {
    assert b * p == (a + 1) * p + (b - a - 1) * p;
  }

  lemma {:induction false} BytesAreBelow(s: seq<Byte>)
    ensures LittleEndian(s) < Power256(|s|)
  {
    if s != [] {
      BytesAreBelow(s[..|s|-1]);
      Monotone(s[|s|-1], 0x100, Power256(|s| - 1));
    }
  }

  /** Different byte strings of one length stand for different numbers. */
  lemma {:induction false} BytesAreDetermined(a: seq<Byte>, b: seq<Byte>)
    requires |a| == |b| && LittleEndian(a) == LittleEndian(b)
    ensures a == b
  {
    if a != [] {
      hide Power256;
      var x, y := a[|a|-1], b[|b|-1];
      BytesAreBelow(a[..|a|-1]);
      BytesAreBelow(b[..|b|-1]);
      if x < y {
        Monotone(x, y, Power256(|a| - 1));
      } else if y < x {
        Monotone(y, x, Power256(|a| - 1));
      }
      BytesAreDetermined(a[..|a|-1], b[..|b|-1]);
      assert a == a[..|a|-1] + [x] && b == b[..|b|-1] + [y];
    }
  }

  /** 8 y over the low 28 bytes, as digits. */
  function Eightfold(y: seq<Byte>): seq<nat>
    requires |y| == 32
  {
    seq(32, i requires 0 <= i < 32 => if i < 28 then var digit: nat := y[i]; 8 * digit else 0)
  }

  lemma {:induction false} EightfoldValue(y: seq<Byte>, n: nat)
    requires |y| == 32 && n <= 32
    ensures LittleEndian(Eightfold(y)[..n]) == 8 * LittleEndian(if n <= 28 then y[..n] else y[..28])
  {
    if n > 0 {
      hide Power256;
      EightfoldValue(y, n - 1);
      assert Eightfold(y)[..n][..n-1] == Eightfold(y)[..n-1];
      if n <= 28 {
        assert y[..n][..n-1] == y[..n-1];
        Regroup(y[n-1], Power256(n - 1));
      }
    }
  }

  lemma Regroup(a: nat, p: nat)
    ensures 8 * a * p == 8 * (a * p)
  {
  }

  /** What the loops keep: the digits written and the carry make up the sum of the digits read. */
  ghost predicate SumsUp(out: seq<nat>, carry: nat, x: seq<nat>, y: seq<nat>, i: nat)
    requires i <= |out| && i <= |x| && i <= |y|
  {
    LittleEndian(out[..i]) + carry * Power256(i) == LittleEndian(x[..i]) + LittleEndian(y[..i])
  }

  lemma NothingSumsUp(out: seq<nat>, x: seq<nat>, y: seq<nat>)
    ensures SumsUp(out, 0, x, y, 0)
  {
  }

  lemma SumStep(out: seq<nat>, carry: nat, x: seq<nat>, y: seq<nat>, i: nat, out': seq<nat>)
    requires i < |out| == |out'| && i < |x| && i < |y| && SumsUp(out, carry, x, y, i)
    requires out' == out[i := (x[i] + y[i] + carry) % 0x100]
    ensures SumsUp(out', (x[i] + y[i] + carry) / 0x100, x, y, i + 1)
  {
    var r, p := x[i] + y[i] + carry, Power256(i);
    assert out'[..i+1][..i] == out[..i] && x[..i+1][..i] == x[..i] && y[..i+1][..i] == y[..i];
    calc {
      r % 0x100 * p + r / 0x100 * (0x100 * p);
      (r % 0x100 + r / 0x100 * 0x100) * p;
      r * p;
      x[i] * p + y[i] * p + carry * p;
    }
  }

  lemma SumIsModulo(out: seq<Byte>, carry: nat, x: seq<Byte>, y: seq<nat>)
    requires |out| == |x| == |y| == 32 && SumsUp(out, carry, x, y, 32)
    ensures LittleEndian(out) == (LittleEndian(x) + LittleEndian(y)) % Power256(32)
  {
    assert out[..32] == out && x[..32] == x && y[..32] == y;
    BytesAreBelow(out);
    ModuloOf(LittleEndian(out), carry, Power256(32));
  }

  lemma ModuloOf(low: nat, carry: nat, p: nat)
    requires low < p
    ensures (low + carry * p) % p == low
  {
    var n := low + carry * p;
    var q := n / p;
    assert n == q * p + n % p;
    if q < carry {
      Monotone(q, carry, p);
    } else if carry < q {
      Monotone(carry, q, p);
    }
  }

  method Le32(i: nat) returns (bytes: seq<Byte>)
    requires i < 0x1_0000_0000
    ensures |bytes| == 4 && LittleEndian(bytes) == i
  {
    bytes := [i % 0x100, i / 0x100 % 0x100, i / 0x1_0000 % 0x100, i / 0x100_0000 % 0x100];
    FourDigits(i % 0x100, i / 0x100 % 0x100, i / 0x1_0000 % 0x100, i / 0x100_0000 % 0x100);
    FourBytes(i);
    hide LittleEndian;
  }

  lemma FourDigits(a: nat, b: nat, c: nat, d: nat)
    ensures LittleEndian([a, b, c, d]) == a + 0x100 * b + 0x1_0000 * c + 0x100_0000 * d
  {
    assert Power256(1) == 0x100 && Power256(2) == 0x1_0000 && Power256(3) == 0x100_0000;
    assert [a, b, c, d][..3] == [a, b, c] && [a, b, c][..2] == [a, b] && [a, b][..1] == [a] && [a][..0] == [];
    assert LittleEndian([a]) == a;
    assert LittleEndian([a, b]) == a + 0x100 * b;
    assert LittleEndian([a, b, c]) == a + 0x100 * b + 0x1_0000 * c;
  }

  lemma FourBytes(i: nat)
    requires i < 0x1_0000_0000
    ensures i % 0x100 + 0x100 * (i / 0x100 % 0x100) + 0x1_0000 * (i / 0x1_0000 % 0x100) + 0x100_0000 * (i / 0x100_0000 % 0x100) == i
  {
  }

  /** out may be the same span as x or y; the 16-bit sums never overflow. */
  method Add28Mul8(out: array<Byte>, x: array<Byte>, y: array<Byte>)
    requires out.Length == x.Length == y.Length == 32
    modifies out
    ensures LittleEndian(out[..]) == (LittleEndian(old(x[..])) + 8 * LittleEndian(old(y[..28]))) % Power256(32)
  {
    hide SumsUp, LittleEndian, Power256;
    ghost var x0, y0 := x[..], Eightfold(y[..]);
    NothingSumsUp(out[..], x0, y0);
    var carry: nat := 0;
    for i := 0 to 28
      invariant carry <= 8 && SumsUp(out[..], carry, x0, y0, i)
      invariant forall k :: i <= k < 32 ==> x[k] == x0[k] && y[k] == old(y[..])[k]
    {
      var r := x[i] + 8 * y[i] + carry;
      assert r < UINT16_RANGE;
      SumStep(out[..], carry, x0, y0, i, out[..][i := r % 0x100]);
      out[i] := r % 0x100;
      carry := r / 0x100;
    }
    for i := 28 to 32
      invariant carry <= 8 && SumsUp(out[..], carry, x0, y0, i)
      invariant forall k :: i <= k < 32 ==> x[k] == x0[k]
    {
      var r := x[i] + carry;
      assert r < UINT16_RANGE;
      SumStep(out[..], carry, x0, y0, i, out[..][i := r % 0x100]);
      out[i] := r % 0x100;
      carry := r / 0x100;
    }
    SumIsModulo(out[..], carry, x0, y0);
    EightfoldValue(old(y[..]), 32);
    assert y0[..32] == y0 && old(y[..])[..28] == old(y[..28]);
  }

  method Add256Bits(out: array<Byte>, x: array<Byte>, y: array<Byte>)
    requires out.Length == x.Length == y.Length == 32
    modifies out
    ensures LittleEndian(out[..]) == (LittleEndian(old(x[..])) + LittleEndian(old(y[..]))) % Power256(32)
  {
    hide SumsUp, LittleEndian, Power256;
    ghost var x0, y0 := x[..], y[..];
    NothingSumsUp(out[..], x0, y0);
    var carry: nat := 0;
    for i := 0 to 32
      invariant carry <= 1 && SumsUp(out[..], carry, x0, y0, i)
      invariant forall k :: i <= k < 32 ==> x[k] == x0[k] && y[k] == y0[k]
    {
      var r := x[i] + y[i] + carry;
      assert r < UINT16_RANGE;
      SumStep(out[..], carry, x0, y0, i, out[..][i := r % 0x100]);
      out[i] := r % 0x100;
      carry := r / 0x100;
    }
    SumIsModulo(out[..], carry, x0, y0);
  }
}
