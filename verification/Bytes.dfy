/** Byte strings, hexadecimal text, fixed-width integers and an abstract SHA-256. */
module Bytes {
  import opened Wrappers

  newtype byte = n: int | 0 <= n < 256

  type Bytes = seq<byte>

  type Digest = d: Bytes | |d| == 32 witness seq(32, _ => 0)

  /** SHA-256 is an arbitrary function here. Results that rest on it say "equal,
      or here are two byte strings with one digest". */
  type Hash = Bytes -> Digest

  predicate Collide(sha: Hash, pair: (Bytes, Bytes)) {
    pair.0 != pair.1 && sha(pair.0) == sha(pair.1)
  }

  const TWO_64: int := 0x1_0000_0000_0000_0000
  type uint64 = n: int | 0 <= n < TWO_64

  // ----- integers -----

  /** The low n bytes of v, most significant first. */
  function BigEndian(v: nat, n: nat): (b: Bytes)
    ensures |b| == n
  {
    if n == 0 then [] else BigEndian(v / 256, n - 1) + [(v % 256) as byte]
  }

  /** The low n bytes of v, least significant first. */
  function LittleEndian(v: nat, n: nat): (b: Bytes)
    ensures |b| == n
  {
    if n == 0 then [] else [(v % 256) as byte] + LittleEndian(v / 256, n - 1)
  }

  function FromLittleEndian(b: Bytes): nat {
    if b == [] then 0 else b[0] as int + 256 * FromLittleEndian(b[1..])
  }

  function Power256(n: nat): nat {
    if n == 0 then 1 else 256 * Power256(n - 1)
  }

  lemma {:induction false} BigEndianInjective(v: nat, w: nat, n: nat)
    requires v < Power256(n) && w < Power256(n)
    requires BigEndian(v, n) == BigEndian(w, n)
    ensures v == w
  {
    if n > 0 {
      var a, b := BigEndian(v, n), BigEndian(w, n);
      assert a[n - 1] as int == v % 256 && b[n - 1] as int == w % 256;
      assert a[..n - 1] == BigEndian(v / 256, n - 1) && b[..n - 1] == BigEndian(w / 256, n - 1);
      BigEndianInjective(v / 256, w / 256, n - 1);
    }
  }

  lemma {:induction false} FromLittleEndianOf(v: nat, n: nat)
    requires v < Power256(n)
    ensures FromLittleEndian(LittleEndian(v, n)) == v
  {
    if n > 0 {
      FromLittleEndianOf(v / 256, n - 1);
      assert LittleEndian(v, n)[1..] == LittleEndian(v / 256, n - 1);
    }
  }

  lemma {:induction false} LittleEndianOfFrom(b: Bytes)
    ensures FromLittleEndian(b) < Power256(|b|)
    ensures LittleEndian(FromLittleEndian(b), |b|) == b
  {
    if b != [] {
      LittleEndianOfFrom(b[1..]);
      var v := FromLittleEndian(b);
      assert v % 256 == b[0] as int && v / 256 == FromLittleEndian(b[1..]);
    }
  }

  lemma DivUnique(v: int, d: int, q: int, t: int)
    requires d > 0 && v == d * q + t && 0 <= t < d
    ensures v / d == q
  {
    var w := v / d;
    if w < q { Multiples(d, w + 1, q); }
    if q < w { Multiples(d, q + 1, w); }
  }

  lemma Multiples(d: int, a: int, b: int)
    requires d > 0 && a <= b
    ensures d * a <= d * b && d * (a - 1) == d * a - d && d * (b - 1) == d * b - d
  {
    assert d * (b - a) >= 0;
  }

  /** Dividing by 256 and then by p is dividing by 256 * p. */
  lemma DivDiv(v: nat, p: nat)
    requires p > 0
    ensures v / 256 / p == v / (256 * p)
  {
    var x := v / 256;
    var q, s, r := x / p, x % p, v % 256;
    assert x == p * q + s && v == 256 * x + r;
    assert v == 256 * (p * q) + 256 * s + r;
    assert 256 * (p * q) == (256 * p) * q;
    DivUnique(v, 256 * p, q, 256 * s + r);
  }

  lemma PowerIsPositive(n: nat)
    ensures Power256(n) > 0
  {
  }

  /** Every byte of a number written most significant first. */
  lemma {:induction false} BigEndianAt(v: nat, n: nat, k: nat)
    requires k < n
    ensures Power256(n - 1 - k) > 0 && BigEndian(v, n)[k] as int == v / Power256(n - 1 - k) % 256
  {
    PowerIsPositive(n - 1 - k);
    if k < n - 1 {
      BigEndianAt(v / 256, n - 1, k);
      PowerIsPositive(n - 2 - k);
      DivDiv(v, Power256(n - 2 - k));
    }
  }

  /** And least significant first. */
  lemma {:induction false} LittleEndianAt(v: nat, n: nat, k: nat)
    requires k < n
    ensures Power256(k) > 0 && LittleEndian(v, n)[k] as int == v / Power256(k) % 256
  {
    PowerIsPositive(k);
    if k > 0 {
      LittleEndianAt(v / 256, n - 1, k - 1);
      PowerIsPositive(k - 1);
      DivDiv(v, Power256(k - 1));
    }
  }

  lemma EightBytes()
    ensures Power256(8) == TWO_64 && Power256(4) == 0x1_0000_0000
  {
    assert Power256(4) == 256 * 256 * 256 * 256 by {
      assert Power256(1) == 256 && Power256(2) == 256 * Power256(1) && Power256(3) == 256 * Power256(2);
    }
    assert Power256(5) == 256 * Power256(4) && Power256(6) == 256 * Power256(5);
    assert Power256(7) == 256 * Power256(6) && Power256(8) == 256 * Power256(7);
  }

  // ----- hexadecimal text -----

  function HexDigit(n: int): byte
    requires 0 <= n < 16
  {
    if n < 10 then (48 + n) as byte else (87 + n) as byte
  }

  predicate IsLowerHexDigit(c: byte) {
    48 <= c <= 57 || 97 <= c <= 102
  }

  /** hex.EncodeToString, and fmt's %x */
  function HexEncode(b: Bytes): (s: Bytes)
    ensures |s| == 2 * |b|
    ensures forall i :: 0 <= i < |s| ==> IsLowerHexDigit(s[i])
  {
    if b == [] then []
    else
      var v := b[0] as int;
      [HexDigit(v / 16), HexDigit(v % 16)] + HexEncode(b[1..])
  }

  function HexValue(c: byte): Option<int> {
    if 48 <= c <= 57 then Some(c as int - 48)
    else if 97 <= c <= 102 then Some(c as int - 87)
    else if 65 <= c <= 70 then Some(c as int - 55)
    else None
  }

  /** hex.DecodeString */
  function HexDecode(s: Bytes): Option<Bytes> {
    if s == [] then Some([])
    else if |s| == 1 then None
    else
      var hi, lo, rest := HexValue(s[0]), HexValue(s[1]), HexDecode(s[2..]);
      if hi.None? || lo.None? || rest.None? then None
      else Some([(16 * hi.value + lo.value) as byte] + rest.value)
  }

  /** The two characters of every byte: 0 to 9 from 48 on, a to f from 97 on. */
  lemma {:induction false} HexAt(b: Bytes, i: nat)
    requires i < |b|
    ensures
      var s, hi, lo := HexEncode(b), b[i] as int / 16, b[i] as int % 16;
      && s[2 * i] as int == (if hi < 10 then 48 + hi else 97 + (hi - 10))
      && s[2 * i + 1] as int == (if lo < 10 then 48 + lo else 97 + (lo - 10))
  {
    if i > 0 {
      HexAt(b[1..], i - 1);
      assert HexEncode(b)[2..] == HexEncode(b[1..]);
      assert HexEncode(b)[2 * i] == HexEncode(b)[2..][2 * (i - 1)];
      assert HexEncode(b)[2 * i + 1] == HexEncode(b)[2..][2 * (i - 1) + 1];
    }
  }

  lemma {:induction false} DecodeOfEncode(b: Bytes)
    ensures HexDecode(HexEncode(b)) == Some(b)
  {
    if b != [] {
      DecodeOfEncode(b[1..]);
      assert HexEncode(b)[2..] == HexEncode(b[1..]);
      var v := b[0] as int;
      assert HexValue(HexDigit(v / 16)) == Some(v / 16) && HexValue(HexDigit(v % 16)) == Some(v % 16);
      assert [b[0]] + b[1..] == b;
    }
  }
}
