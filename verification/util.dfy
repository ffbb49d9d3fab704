/** Bit and number-formatting helpers of the interpreter: the byte type,
    `ByteToBits`, the bitwise operators on small non-negative integers, and
    `ToHex` / `ToBinary` with the `parseInt` that reads them back. */
module Util {

  /** One memory cell or register: an unsigned 8-bit value. */
  type Byte = b: int | 0 <= b < 256

  function Pow2(k: nat): (r: nat)
    ensures r >= 1
  {
    if k == 0 then 1 else 2 * Pow2(k - 1)
  }

  /** `(v >> i) & 1` for a non-negative `v`: shifting right once halves. */
  function Bit(v: nat, i: nat): (b: nat)
    ensures b == 0 || b == 1
  {
    if i == 0 then v % 2 else Bit(v / 2, i - 1)
  }

  /** Bits of `v` from position 0 up to `k - 1`, least significant first. */
  function LowBits(v: nat, k: nat): seq<nat>
  {
    seq(k, i requires 0 <= i < k => Bit(v, i))
  }

  /** The value of a least-significant-first bit list: sum of bits[i] * 2^i. */
  function BitsValue(bits: seq<int>): int
  {
    if bits == [] then 0 else bits[0] + 2 * BitsValue(bits[1..])
  }

  /** `ByteToBits`: eight entries, entry idx is `byte >> idx & 1`. */
  function ByteToBits(b: Byte): (bits: seq<nat>)
    ensures |bits| == 8
    ensures forall i :: 0 <= i < |bits| ==> bits[i] <= 1
  {
    LowBits(b, 8)
  }

  lemma {:induction false} LowBitsValue(v: nat, k: nat)
    requires v < Pow2(k)
    ensures BitsValue(LowBits(v, k)) == v
    decreases k
  {
    if k == 0 {
      assert LowBits(v, k) == [];
    } else {
      var bits := LowBits(v, k);
      assert bits[1..] == LowBits(v / 2, k - 1) by {
        forall i | 0 <= i < k - 1
          ensures bits[1..][i] == LowBits(v / 2, k - 1)[i]
        {
          assert bits[1..][i] == Bit(v, i + 1);
        }
      }
      LowBitsValue(v / 2, k - 1);
    }
  }

  /** Reading the eight bits back as sum of bits[i] * 2^i gives the byte. */
  lemma ByteToBitsRoundTrip(b: Byte)
    ensures BitsValue(ByteToBits(b)) == b
  {
    assert Pow2(8) == 256;
    LowBitsValue(b, 8);
  }

  /** The three bitwise operators the instruction set uses. */
  datatype BitOp = OrOp | AndOp | XorOp

  function Combine(op: BitOp, p: nat, q: nat): nat
    requires p <= 1 && q <= 1
  {
    match op
    case OrOp => if p == 1 || q == 1 then 1 else 0
    case AndOp => if p == 1 && q == 1 then 1 else 0
    case XorOp => if p != q then 1 else 0
  }

  /** `a | b`, `a & b` or `a ^ b` on the low `width` bits, bit by bit. */
  function Bitwise(op: BitOp, a: nat, b: nat, width: nat): (r: nat)
    ensures r < Pow2(width)
    decreases width
  {
    if width == 0 then 0
    else Combine(op, a % 2, b % 2) + 2 * Bitwise(op, a / 2, b / 2, width - 1)
  }

  /** Each bit of the result is the operator applied to the operands' bits. */
  lemma {:induction false} BitwiseBit(op: BitOp, a: nat, b: nat, width: nat, i: nat)
    requires i < width
    ensures Bit(Bitwise(op, a, b, width), i) == Combine(op, Bit(a, i), Bit(b, i))
    decreases i
  {
    var rest := Bitwise(op, a / 2, b / 2, width - 1);
    var c := Combine(op, a % 2, b % 2);
    assert Bitwise(op, a, b, width) == c + 2 * rest;
    if i > 0 {
      assert (c + 2 * rest) / 2 == rest;
      BitwiseBit(op, a / 2, b / 2, width - 1, i - 1);
    }
  }

  lemma {:induction false} ModHalves(v: nat, p: nat)
    requires p >= 1
    ensures v % (2 * p) == v % 2 + 2 * ((v / 2) % p)
  {
    var q := v / 2;
    var r := 2 * (q % p) + v % 2;
    assert v == (2 * p) * (q / p) + r by {
      assert q == p * (q / p) + q % p;
      assert v == 2 * q + v % 2;
    }
    assert 0 <= r < 2 * p;
    DivModUnique(v, 2 * p, q / p, r);
  }

  lemma {:induction false} MulGrows(d: nat, a: nat)
    requires a >= 1
    ensures d * a >= d
    decreases a
  {
    if a > 1 {
      MulGrows(d, a - 1);
      assert d * a == d * (a - 1) + d;
    }
  }

  lemma DivModUnique(v: nat, d: nat, k: nat, r: nat)
    requires d >= 1 && r < d && v == d * k + r
    ensures v % d == r && v / d == k
  {
    var k' := v / d;
    var r' := v % d;
    assert v == d * k' + r';
    if k' < k {
      assert d * k == d * k' + d * (k - k');
      MulGrows(d, k - k');
    } else if k' > k {
      assert d * k' == d * k + d * (k' - k);
      MulGrows(d, k' - k);
    }
  }

  /** Masking with 2^k - 1 keeps the low k bits: `v & (2^k - 1) == v % 2^k`.
      This is why `v & 63`, `v & 31` and `v & 15` are written `% 64`, `% 32`
      and `% 16` elsewhere in the model. */
  lemma {:induction false} MaskIsMod(v: nat, k: nat, width: nat)
    requires k <= width
    ensures Bitwise(AndOp, v, Pow2(k) - 1, width) == v % Pow2(k)
    decreases k
  {
    if k == 0 {
      AndZero(v, width);
    } else {
      var m := Pow2(k) - 1;
      var half := Pow2(k - 1);
      assert m == 2 * (half - 1) + 1;
      assert m % 2 == 1 && m / 2 == half - 1;
      calc {
        Bitwise(AndOp, v, m, width);
        Combine(AndOp, v % 2, m % 2) + 2 * Bitwise(AndOp, v / 2, m / 2, width - 1);
        v % 2 + 2 * Bitwise(AndOp, v / 2, half - 1, width - 1);
        { MaskIsMod(v / 2, k - 1, width - 1); }
        v % 2 + 2 * ((v / 2) % half);
        { ModHalves(v, half); }
        v % (2 * half);
      }
    }
  }

  /** `v & 0` is 0. */
  lemma {:induction false} AndZero(v: nat, width: nat)
    ensures Bitwise(AndOp, v, 0, width) == 0
    decreases width
  {
    if width > 0 {
      AndZero(v / 2, width - 1);
    }
  }

  /** `v | 0` keeps the low `width` bits of `v`. */
  lemma {:induction false} OrZero(v: nat, width: nat)
    requires v < Pow2(width)
    ensures Bitwise(OrOp, v, 0, width) == v
    decreases width
  {
    if width > 0 {
      OrZero(v / 2, width - 1);
    }
  }

  /** `hi << k | lo` is `hi * 2^k + lo` when `lo` fits in `k` bits: the two
      operands have no set bit in common. */
  lemma {:induction false} OrShifted(hi: nat, lo: nat, k: nat, width: nat)
    requires lo < Pow2(k) && k <= width && hi * Pow2(k) < Pow2(width)
    ensures Bitwise(OrOp, hi * Pow2(k), lo, width) == hi * Pow2(k) + lo
    decreases k
  {
    if k == 0 {
      OrZero(hi, width);
    } else {
      var p := Pow2(k - 1);
      assert hi * Pow2(k) == 2 * (hi * p);
      assert hi * p < Pow2(width - 1);
      OrShifted(hi, lo / 2, k - 1, width - 1);
    }
  }

  /** Every bit of a `width`-bit bitwise result, at once. */
  lemma BitwiseBits(op: BitOp, a: nat, b: nat, width: nat)
    ensures forall i :: 0 <= i < width ==>
      Bit(Bitwise(op, a, b, width), i) == Combine(op, Bit(a, i), Bit(b, i))
  {
    forall i | 0 <= i < width
      ensures Bit(Bitwise(op, a, b, width), i) == Combine(op, Bit(a, i), Bit(b, i))
    {
      BitwiseBit(op, a, b, width, i);
    }
  }

  // ---------------------------------------------------------------------
  // Number formatting: `num.toString(base)`, `padStart` and `parseInt`.

  /** A digit of `toString(base)`: '0'..'9' then 'a'..'f', lower case. */
  predicate IsDigit(c: char, base: nat)
  {
    ('0' <= c <= '9' && (c - '0') as nat < base) || ('a' <= c <= 'f' && (c - 'a') as nat + 10 < base)
  }

  function DigitChar(d: nat): (c: char)
    requires d < 16
  {
    if d < 10 then ('0' as int + d) as char else ('a' as int + d - 10) as char
  }

  /** The value of one digit character, as `Number(c)` and `parseInt` read it. */
  function DigitValue(c: char): (d: nat)
    ensures d < 16
  {
    if '0' <= c <= '9' then (c - '0') as nat
    else if 'a' <= c <= 'f' then (c - 'a') as nat + 10
    else 0
  }

  lemma DigitCharValue(d: nat)
    requires d < 16
    ensures DigitValue(DigitChar(d)) == d
  {
  }

  /** Positional value of a digit list, most significant first. */
  function Horner(ds: seq<int>, base: nat): int
  {
    if ds == [] then 0 else Horner(ds[..|ds| - 1], base) * base + ds[|ds| - 1]
  }

  function DigitValues(s: string): (ds: seq<nat>)
    ensures |ds| == |s|
  {
    seq(|s|, i requires 0 <= i < |s| => DigitValue(s[i]))
  }

  /** `parseInt(s, base)` on a string of valid digits. */
  function ParseInt(s: string, base: nat): int
  {
    Horner(DigitValues(s), base)
  }

  lemma {:induction false} MulMono(a: nat, b: nat, c: nat)
    requires a <= b
    ensures a * c <= b * c
    decreases c
  {
    if c > 0 {
      MulMono(a, b, c - 1);
      assert a * c == a * (c - 1) + a;
      assert b * c == b * (c - 1) + b;
    }
  }

  /** Dividing by a base of at least 2 strictly shrinks a number that is at
      least the base, and leaves a quotient of at least 1. */
  lemma DivShrinks(n: nat, base: nat)
    requires 2 <= base <= n
    ensures 1 <= n / base < n
  {
    var q := n / base;
    assert n == base * q + n % base;
    MulMono(2, base, q);
    assert 2 * q <= base * q;
  }

  /** `num.toString(base)`: digits without leading zeros, "0" for zero. */
  function ToBase(n: nat, base: nat): (s: string)
    requires 2 <= base <= 16
    ensures |s| >= 1
    ensures forall i :: 0 <= i < |s| ==> IsDigit(s[i], base)
    ensures n > 0 ==> s[0] != '0'
    decreases n
  {
    if n < base then [DigitChar(n)]
    else
      DivShrinks(n, base);
      var prefix := ToBase(n / base, base);
      prefix + [DigitChar(n % base)]
  }

  lemma DivModRecompose(n: nat, d: nat)
    requires d >= 1
    ensures (n / d) * d + n % d == n
  {
  }

  /** `parseInt` reads `toString` back, in every base from 2 to 16. */
  lemma {:induction false} ToBaseRoundTrip(n: nat, base: nat)
    requires 2 <= base <= 16
    ensures ParseInt(ToBase(n, base), base) == n
    decreases n
  {
    var s := ToBase(n, base);
    if n < base {
      DigitCharValue(n);
      assert DigitValues(s) == [n];
      assert DigitValues(s)[..0] == [];
      assert Horner([n], base) == Horner([], base) * base + n;
    } else {
      DivShrinks(n, base);
      var prefix := ToBase(n / base, base);
      var ds := DigitValues(s);
      assert s == prefix + [DigitChar(n % base)];
      assert ds[..|ds| - 1] == DigitValues(prefix);
      DigitCharValue(n % base);
      assert ds[|ds| - 1] == n % base;
      ToBaseRoundTrip(n / base, base);
      calc {
        ParseInt(s, base);
        Horner(ds, base);
        Horner(ds[..|ds| - 1], base) * base + ds[|ds| - 1];
        Horner(DigitValues(prefix), base) * base + n % base;
        (n / base) * base + n % base;
        { DivModRecompose(n, base); }
        n;
      }
    }
  }

  /** `s.padStart(width, c)`. */
  function PadStart(s: string, width: nat, c: char): (r: string)
    ensures |r| == if |s| >= width then |s| else width
    ensures r[|r| - |s|..] == s
    ensures forall i :: 0 <= i < |r| - |s| ==> r[i] == c
  {
    if |s| >= width then s else seq(width - |s|, _ => c) + s
  }

  lemma {:induction false} HornerZeros(z: nat, base: nat)
    ensures Horner(seq(z, _ => 0), base) == 0
    decreases z
  {
    if z > 0 {
      assert seq(z, _ => 0)[..z - 1] == seq(z - 1, _ => 0);
      HornerZeros(z - 1, base);
    }
  }

  lemma {:induction false} HornerLeadingZeros(z: nat, ds: seq<int>, base: nat)
    ensures Horner(seq(z, _ => 0) + ds, base) == Horner(ds, base)
    decreases |ds|
  {
    var zs := seq(z, _ => 0);
    if ds == [] {
      assert zs + ds == zs;
      HornerZeros(z, base);
    } else {
      var init := ds[..|ds| - 1];
      assert (zs + ds)[..|zs + ds| - 1] == zs + init;
      HornerLeadingZeros(z, init, base);
    }
  }

  /** Leading zeros do not change what `parseInt` reads. */
  lemma ParseLeadingZeros(z: nat, s: string, base: nat)
    ensures ParseInt(seq(z, _ => '0') + s, base) == ParseInt(s, base)
  {
    assert DigitValues(seq(z, _ => '0') + s) == seq(z, _ => 0) + DigitValues(s);
    HornerLeadingZeros(z, DigitValues(s), base);
  }

  /** `ToHex`: at least four lower-case hex digits, and `parseInt(.., 16)`
      reads the number back. */
  function ToHex(num: nat): (r: string)
    ensures |r| >= 4
    ensures forall i :: 0 <= i < |r| ==> IsDigit(r[i], 16)
    ensures ParseInt(r, 16) == num
  {
    var s := ToBase(num, 16);
    var r := PadStart(s, 4, '0');
    ToBaseRoundTrip(num, 16);
    PaddedParse(s, 4, 16);
    r
  }

  /** `ToBinary`: at least sixteen binary digits, read back by `parseInt(.., 2)`. */
  function ToBinary(num: nat): (r: string)
    ensures |r| >= 16
    ensures forall i :: 0 <= i < |r| ==> IsDigit(r[i], 2)
    ensures ParseInt(r, 2) == num
  {
    var s := ToBase(num, 2);
    var r := PadStart(s, 16, '0');
    ToBaseRoundTrip(num, 2);
    PaddedParse(s, 16, 2);
    r
  }

  lemma PaddedParse(s: string, width: nat, base: nat)
    requires 2 <= base <= 16
    requires forall i :: 0 <= i < |s| ==> IsDigit(s[i], base)
    ensures var r := PadStart(s, width, '0');
      && ParseInt(r, base) == ParseInt(s, base)
      && forall i :: 0 <= i < |r| ==> IsDigit(r[i], base)
  {
    var r := PadStart(s, width, '0');
    if |s| < width {
      assert r == seq(width - |s|, _ => '0') + s;
      ParseLeadingZeros(width - |s|, s, base);
      forall i | 0 <= i < |r|
        ensures IsDigit(r[i], base)
      {
        if i < width - |s| {
          assert r[i] == '0';
        } else {
          assert r[i] == s[i - (width - |s|)];
        }
      }
    }
  }
}
