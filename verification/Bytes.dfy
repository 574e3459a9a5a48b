/** Bytes, fixed-width unsigned fields and their little-endian images. */
module Bytes {

  type byte = bv8
  /** One more than the largest 32-bit value: where counters and ticks wrap. */
  const WRAP: nat := 0x1_0000_0000

  type uint16 = n: nat | n < 0x1_0000
  type uint32 = n: nat | n < 0x1_0000_0000
  type uint64 = n: nat | n < 0x1_0000_0000_0000_0000

  datatype Option<+T> = None | Some(value: T)

  /** A buffer of `n` zero bytes, as memset(.., 0, n) leaves it. */
  function Zeros(n: nat): (z: seq<byte>)
    ensures |z| == n
  {
    seq(n, _ => 0)
  }

  function Pow256(n: nat): (p: nat)
    ensures p > 0
  {
    if n == 0 then 1 else 256 * Pow256(n - 1)
  }

  lemma FieldWidths()
    ensures Pow256(1) == 0x100 && Pow256(2) == 0x1_0000
    ensures Pow256(4) == 0x1_0000_0000 && Pow256(8) == 0x1_0000_0000_0000_0000
  {
    assert Pow256(2) == 256 * Pow256(1);
    assert Pow256(4) == 256 * 256 * Pow256(2);
    assert Pow256(6) == 256 * 256 * Pow256(4);
    assert Pow256(8) == 256 * 256 * Pow256(6);
  }

  /** The `n`-byte little-endian image of `x`, truncated as a C store into an n-byte field truncates. */
  function LE(x: nat, n: nat): (s: seq<byte>)
    ensures |s| == n
  {
    if n == 0 then [] else [(x % 256) as byte] + LE(x / 256, n - 1)
  }

  /** The value a little-endian load of `s` yields. */
  function FromLE(s: seq<byte>): nat {
    if |s| == 0 then 0 else s[0] as nat + 256 * FromLE(s[1..])
  }

  /** The byte with the binary digits of `n`, built from the top digit down. */
  function Digits(n: nat): byte
    requires n < 256
  {
    if n == 0 then 0
    else if n % 2 == 1 then (Digits(n / 2) << 1) | 1
    else Digits(n / 2) << 1
  }

  lemma AppendDigit(b: byte)
    requires b < 128
    ensures (b << 1) as nat == 2 * (b as nat) && ((b << 1) | 1) as nat == 2 * (b as nat) + 1
  {
  }

  lemma HighDigitClear(b: byte)
    ensures b as nat < 128 <==> b < 128
  {
  }

  lemma {:induction false} DigitsValue(n: nat)
    requires n < 256
    ensures Digits(n) as nat == n
  {
    if n > 0 {
      DigitsValue(n / 2);
      HighDigitClear(Digits(n / 2));
      AppendDigit(Digits(n / 2));
    }
  }

  lemma ByteOfNat(n: nat)
    requires n < 256
    ensures (n as byte) as nat == n
  {
    DigitsValue(n);
    NatOfByte(Digits(n));
  }

  lemma NatOfByte(b: byte)
    ensures b as nat < 256 && (b as nat) as byte == b
  {
  }

  lemma {:induction false} FromLEBound(s: seq<byte>)
    ensures FromLE(s) < Pow256(|s|)
  {
    if |s| > 0 {
      FromLEBound(s[1..]);
      NatOfByte(s[0]);
    }
  }

  /** Storing a value that fits and loading it back gives the value. */
  lemma {:induction false} LoadStore(x: nat, n: nat)
    requires x < Pow256(n)
    ensures FromLE(LE(x, n)) == x
  {
    if n > 0 {
      LoadStore(x / 256, n - 1);
      ByteOfNat(x % 256);
      assert LE(x, n)[1..] == LE(x / 256, n - 1);
    }
  }

  /** Loading a field and storing it back gives the same bytes. */
  lemma {:induction false} StoreLoad(s: seq<byte>)
    ensures LE(FromLE(s), |s|) == s
  {
    if |s| > 0 {
      StoreLoad(s[1..]);
      NatOfByte(s[0]);
      var v := FromLE(s[1..]);
      assert FromLE(s) % 256 == s[0] as nat && FromLE(s) / 256 == v;
      assert s == [s[0]] + s[1..];
    }
  }

  /** `x` without its lowest `n` digits. */
  function Drop256(x: nat, n: nat): nat {
    if n == 0 then x else Drop256(x / 256, n - 1)
  }

  lemma {:induction false} ImageSplit(x: nat, m: nat, n: nat)
    ensures LE(x, m + n) == LE(x, m) + LE(Drop256(x, m), n)
    decreases m
  {
    if m > 0 {
      ImageSplit(x / 256, m - 1, n);
    }
  }

  lemma TwoDigits(x: nat)
    ensures LE(x, 2) == [(x % 256) as byte, (x / 256 % 256) as byte]
  {
    assert LE(x / 256, 1) == [(x / 256 % 256) as byte];
  }

  lemma DropDigits(x: nat)
    ensures Drop256(x, 2) == x / 256 / 256 && Drop256(x, 4) == x / 256 / 256 / 256 / 256
  {
    var y := x / 256 / 256;
    assert Drop256(x, 2) == Drop256(x / 256, 1) == Drop256(y, 0);
    assert Drop256(y, 2) == Drop256(y / 256, 1) == Drop256(y / 256 / 256, 0);
    assert Drop256(x, 4) == Drop256(x / 256, 3) == Drop256(y, 2);
  }

  /** The images of the field widths in use, digit by digit to base 256, lowest first. */
  lemma LittleEndian(x: nat)
    ensures LE(x, 2) == [(x % 256) as byte, (x / 256 % 256) as byte]
    ensures LE(x, 4) == LE(x, 2) + LE(x / 256 / 256, 2)
    ensures LE(x, 8) == LE(x, 4) + LE(x / 256 / 256 / 256 / 256, 4)
  {
    hide LE, Drop256;
    TwoDigits(x);
    DropDigits(x);
    ImageSplit(x, 2, 2);
    ImageSplit(x, 4, 4);
  }

  function Load16(s: seq<byte>): uint16
    requires |s| == 2
  {
    FromLEBound(s);
    FieldWidths();
    FromLE(s)
  }

  function Load32(s: seq<byte>): uint32
    requires |s| == 4
  {
    FromLEBound(s);
    FieldWidths();
    FromLE(s)
  }
}
