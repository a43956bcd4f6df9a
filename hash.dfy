/**
 * gen/markdown/hash.go: hash20. sha256.New().Sum(b) appends the digest of
 * the (empty) hashed input to b, so the working bytes are b followed by the
 * fixed SHA-256 digest of the empty message (FIPS 180-4). They are folded
 * twice by XORing the front half with the mirrored back half, and the
 * front quarter is printed as lowercase hex.
 */
module Hash {
  type byte = bv8

  /** SHA-256 of the empty message. */
  const EmptyDigest: seq<byte> := [
    0xe3, 0xb0, 0xc4, 0x42, 0x98, 0xfc, 0x1c, 0x14, 0x9a, 0xfb, 0xf4, 0xc8, 0x99, 0x6f, 0xb9, 0x24,
    0x27, 0xae, 0x41, 0xe4, 0x64, 0x9b, 0x93, 0x4c, 0xa4, 0x95, 0x99, 0x1b, 0x78, 0x52, 0xb8, 0x55]

  /** One fold over the first n bytes: byte i < n/2 becomes d[i] ^ d[n-1-i]; the rest is unchanged. */
  function Fold(d: seq<byte>, n: nat): (r: seq<byte>)
    requires n <= |d|
    ensures |r| == |d|
    ensures forall i :: 0 <= i < n / 2 ==> r[i] == d[i] ^ d[n - 1 - i]
    ensures forall i :: n / 2 <= i < |d| ==> r[i] == d[i]
  {
    seq(|d|, i requires 0 <= i < |d| => if i < n / 2 then d[i] ^ d[n - 1 - i] else d[i])
  }

  /** The in-place XOR loop `for i := 0; i < n/2; i++ { data[i] ^= data[n-1-i] }`. */
  method FoldInPlace(data: array<byte>, n: nat)
    requires n <= data.Length
    modifies data
    ensures data[..] == Fold(old(data[..]), n)
  {
    ghost var d := data[..];
    var i := 0;
    while i < n / 2
      invariant 0 <= i <= n / 2
      invariant forall k :: 0 <= k < i ==> data[k] == d[k] ^ d[n - 1 - k]
      invariant forall k :: i <= k < data.Length ==> data[k] == d[k]
    {
      assert n / 2 * 2 <= n;
      assert i < n - 1 - i < data.Length;
      assert data[n - 1 - i] == d[n - 1 - i];
      data[i] := data[i] ^ data[n - 1 - i];
      i := i + 1;
    }
    assert forall k :: 0 <= k < data.Length ==> data[..][k] == Fold(d, n)[k];
  }

  function HexDigit(x: int): (c: char)
    requires 0 <= x < 16
  {
    if x < 10 then (48 + x) as char else (87 + x) as char
  }

  predicate IsHexDigit(c: char) {
    '0' <= c <= '9' || 'a' <= c <= 'f'
  }

  /** The value of a hex digit; 0 for any other character. */
  function DigitValue(c: char): (x: int)
    ensures 0 <= x < 16
  {
    if '0' <= c <= '9' then c as int - 48 else if 'a' <= c <= 'f' then c as int - 87 else 0
  }

  /** fmt's %x on a byte slice: two lowercase hex digits per byte. */
  function Hex(bs: seq<byte>): (s: string)
    ensures |s| == 2 * |bs|
    ensures forall i :: 0 <= i < |s| ==> IsHexDigit(s[i])
  {
    if bs == [] then []
    else
      var x := bs[0] as int;
      [HexDigit(x / 16), HexDigit(x % 16)] + Hex(bs[1..])
  }

  lemma DigitOfHex(x: int)
    requires 0 <= x < 16
    ensures IsHexDigit(HexDigit(x)) && DigitValue(HexDigit(x)) == x
  {
  }

  /** One byte survives printing and reading back. */
  lemma HexByte(b: byte)
    ensures var hi, lo := HexDigit(b as int / 16), HexDigit(b as int % 16);
      IsHexDigit(hi) && IsHexDigit(lo) && ByteOf(hi, lo) == b
  {
    HexOfInt(b as int);
  }

  lemma HexOfInt(x: int)
    requires 0 <= x < 256
    ensures IsHexDigit(HexDigit(x / 16)) && IsHexDigit(HexDigit(x % 16))
    ensures DigitValue(HexDigit(x / 16)) * 16 + DigitValue(HexDigit(x % 16)) == x
  {
    DigitOfHex(x / 16);
    DigitOfHex(x % 16);
  }

  /** The byte two hex digits spell. */
  function ByteOf(hi: char, lo: char): byte
  {
    (DigitValue(hi) * 16 + DigitValue(lo)) as byte
  }

  /** Reading hex back, two digits per byte (a trailing odd digit is dropped): the inverse of Hex on its image. */
  function Unhex(s: string): seq<byte>
  {
    if |s| < 2 then []
    else [ByteOf(s[0], s[1])] + Unhex(s[2..])
  }

  lemma UnhexCons(hi: char, lo: char, rest: string)
    ensures Unhex([hi, lo] + rest) == [ByteOf(hi, lo)] + Unhex(rest)
  {
    assert ([hi, lo] + rest)[2..] == rest;
  }

  lemma {:induction false} UnhexHex(bs: seq<byte>)
    ensures Unhex(Hex(bs)) == bs
  {
    if bs != [] {
      var x := bs[0] as int;
      var hi, lo := HexDigit(x / 16), HexDigit(x % 16);
      var rest := Hex(bs[1..]);
      assert Hex(bs) == [hi, lo] + rest;
      HexByte(bs[0]);
      UnhexCons(hi, lo, rest);
      assert Unhex(Hex(bs)) == [bs[0]] + Unhex(rest);
      UnhexHex(bs[1..]);
      assert bs == [bs[0]] + bs[1..];
    }
  }

  /** The two folds and the cut to the front quarter: byte i is the XOR of four mirrored bytes of d. */
  function Folded(d: seq<byte>): (r: seq<byte>)
    ensures var n := |d|;
      |r| == n / 2 / 2 &&
      forall i :: 0 <= i < |r| ==> r[i] == (d[i] ^ d[n - 1 - i]) ^ (d[n / 2 - 1 - i] ^ d[n - 1 - (n / 2 - 1 - i)])
  {
    var n := |d|;
    var f1 := Fold(d, n);
    var f2 := Fold(f1, n / 2);
    f2[..n / 2 / 2]
  }

  /** What hash20 returns: the hex of the folded bytes of b followed by the digest. */
  function Hash20Of(b: seq<byte>): (s: string)
    ensures |s| == 2 * ((|b| + 32) / 2 / 2)
    ensures forall i :: 0 <= i < |s| ==> IsHexDigit(s[i])
  {
    Hex(Folded(b + EmptyDigest))
  }

  /** The hash is never shorter than 16 characters. */
  lemma Hash20Length(b: seq<byte>)
    ensures |Hash20Of(b)| >= 16
  {
    var n := |b| + 32;
    assert n / 2 / 2 >= 8;
  }

  /** hash20 on a fresh array holding b and the digest. */
  method Hash20(b: seq<byte>) returns (s: string)
    ensures s == Hash20Of(b)
  {
    var d := b + EmptyDigest;
    var data := new byte[|d|](i requires 0 <= i < |d| => d[i]);
    assert data[..] == d;
    var n := data.Length;
    FoldInPlace(data, n);
    n := n / 2;
    FoldInPlace(data, n);
    s := Hex(data[..n / 2]);
  }

  /** The printed bytes are the folded bytes of b followed by the digest, as Folded describes them. */
  lemma Hash20Bytes(b: seq<byte>)
    ensures Unhex(Hash20Of(b)) == Folded(b + EmptyDigest)
  {
    UnhexHex(Folded(b + EmptyDigest));
  }
}
