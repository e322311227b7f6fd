/** Octal numeric fields: the digits `sprintf("%0<n>o", v)` prints into a
    header on the writing side, and the number `decodeTarOctal` computes from
    a field on the reading side. */
module Octal {
  import opened TarHeader

  function Pow8(n: nat): (p: nat)
    ensures p >= 1
  {
    if n == 0 then 1 else 8 * Pow8(n - 1)
  }

  /** ASCII '0' .. '7'. */
  predicate IsOctalDigit(b: byte)
  {
    48 <= b <= 55
  }

  /** The `n` octal digits of `v`, most significant first, padded with '0':
      what `sprintf` prints for the conversion `%0<n>o` when `v < 8^n`. */
  function Digits(v: nat, n: nat): (ds: seq<byte>)
    requires v < Pow8(n)
    ensures |ds| == n
    ensures forall i :: 0 <= i < n ==> IsOctalDigit(ds[i])
  {
    if n == 0 then [] else Digits(v / 8, n - 1) + [48 + v % 8]
  }

  /** A field of `width` bytes as `sprintf` fills it: `width - 1` digits and
      the terminating NUL. */
  function OctalField(v: nat, width: nat): (f: seq<byte>)
    requires 1 <= width && v < Pow8(width - 1)
    ensures |f| == width && f[width - 1] == 0
    ensures forall i :: 0 <= i < width - 1 ==> IsOctalDigit(f[i])
  {
    Digits(v, width - 1) + [0]
  }

  /** The number `decodeTarOctal` accumulates from the bytes it treats as
      digits: each byte counts as `byte - 48` (`ASCII_TO_NUMBER`, unchecked),
      the last byte with weight 1 and each earlier one with eight times the
      weight of the next. */
  function Value(ds: seq<byte>): int
  {
    if |ds| == 0 then 0 else 8 * Value(ds[..|ds| - 1]) + DigitOf(ds[|ds| - 1])
  }

  /** `ASCII_TO_NUMBER(num)`, which is `num - 48`. */
  function DigitOf(b: byte): int
  {
    b as int - 48
  }

  /** NUL or space: the bytes that end the digits of a field. */
  predicate IsTerminator(b: byte)
  {
    b == 0 || b == 32
  }

  /** The index of the first NUL or space, or the length when there is none. */
  function FirstTerminator(s: seq<byte>): (k: nat)
    ensures k <= |s|
    ensures forall i :: 0 <= i < k ==> !IsTerminator(s[i])
    ensures k < |s| ==> IsTerminator(s[k])
  {
    if |s| == 0 || IsTerminator(s[0]) then 0 else 1 + FirstTerminator(s[1..])
  }

  /** 2^64: `decodeTarOctal` accumulates into `uint64_t`. */
  const U64: nat := 0x1_0000_0000_0000_0000

  /** The value `decodeTarOctal` returns when it scans the bytes of `window`:
      the digits before the first NUL or space, reduced modulo 2^64. */
  function TarOctal(window: seq<byte>): (r: nat)
    ensures r < U64
  {
    Value(window[..FirstTerminator(window)]) % U64
  }

  /** Reading digits from the most significant end: the first digit carries
      the weight 8^(n-1). */
  lemma {:induction false} ValueOfFirst(s: seq<byte>)
    requires |s| > 0
    ensures Value(s) == DigitOf(s[0]) * Pow8(|s| - 1) + Value(s[1..])
  {
    var n := |s|;
    if n > 1 {
      var init := s[..n - 1];
      ValueOfFirst(init);
      var d0, dl := DigitOf(s[0]), DigitOf(s[n - 1]);
      var p, a := Pow8(n - 2), Value(s[1..n - 1]);
      assert init[1..] == s[1..n - 1];
      assert s[1..][..n - 2] == s[1..n - 1];
      assert Value(init) == d0 * p + a;
      assert Value(s) == 8 * (d0 * p + a) + dl;
      assert Value(s[1..]) == 8 * a + dl;
      assert 8 * (d0 * p + a) == d0 * (8 * p) + 8 * a by {
        DistributeEight(d0, p, a);
      }
    } else {
      assert s[..0] == [];
      assert s[1..] == [];
    }
  }

  lemma DistributeEight(d: int, p: int, a: int)
    ensures 8 * (d * p + a) == d * (8 * p) + 8 * a
  {
  }

  /** Digits printed by `sprintf` decode back to the number printed. */
  lemma {:induction false} ValueOfDigits(v: nat, n: nat)
    requires v < Pow8(n)
    ensures Value(Digits(v, n)) == v
  {
    if n > 0 {
      assert v / 8 < Pow8(n - 1);
      var ds := Digits(v, n);
      assert ds[..n - 1] == Digits(v / 8, n - 1);
      ValueOfDigits(v / 8, n - 1);
    }
  }

  /** The first terminator of a string that has one inside its first part does
      not depend on what follows. */
  lemma {:induction false} FirstTerminatorOfPrefix(a: seq<byte>, b: seq<byte>)
    requires FirstTerminator(a) < |a|
    ensures FirstTerminator(a + b) == FirstTerminator(a)
  {
    if !IsTerminator(a[0]) {
      assert (a + b)[1..] == a[1..] + b;
      FirstTerminatorOfPrefix(a[1..], b);
    }
  }

  /** Bytes after the first NUL or space do not affect the decoded value. */
  lemma TarOctalIgnoresTail(a: seq<byte>, b: seq<byte>)
    requires FirstTerminator(a) < |a|
    ensures TarOctal(a + b) == TarOctal(a)
  {
    FirstTerminatorOfPrefix(a, b);
    var k := FirstTerminator(a);
    assert (a + b)[..k] == a[..k];
  }

  lemma {:induction false} Pow8Monotone(m: nat, n: nat)
    requires m <= n
    ensures Pow8(m) <= Pow8(n)
  {
    if m < n {
      Pow8Monotone(m, n - 1);
    }
  }

  lemma Pow8Values()
    ensures Pow8(6) == 262144
    ensures Pow8(7) == 2097152
    ensures Pow8(11) == 8589934592
    ensures Pow8(21) == 0x8000_0000_0000_0000
  {
  }

  /** A field written by `sprintf` and decoded by `decodeTarOctal` gives back
      the number written, whatever bytes the decoder scans after the field,
      as long as the field has at most 21 digits (so the value stays below
      2^63). */
  lemma OctalFieldRoundTrip(v: nat, width: nat, tail: seq<byte>)
    requires 1 <= width <= 22 && v < Pow8(width - 1)
    ensures TarOctal(OctalField(v, width) + tail) == v
  {
    var f := OctalField(v, width);
    assert FirstTerminator(f) == width - 1;
    TarOctalIgnoresTail(f, tail);
    assert f[..width - 1] == Digits(v, width - 1);
    ValueOfDigits(v, width - 1);
    Pow8Monotone(width - 1, 21);
    Pow8Values();
  }
}
