/** Bytes, unsigned 32-bit words and their little-endian encoding, as the
    `struct` format character 'I' lays them out on a little-endian host. */
module Bytes {

  type Byte = b: nat | b < 256
  type U32 = x: nat | x < 0x1_0000_0000

  /** The error-or-value wrapper used by both scripts. */
  datatype Result<T, E> = Ok(value: T) | Err(error: E)

  datatype Option<T> = None | Some(value: T)

  function Min(a: nat, b: nat): nat { if a <= b then a else b }
  function Max(a: nat, b: nat): nat { if a <= b then b else a }

  predicate FitsU32(x: int) { 0 <= x < 0x1_0000_0000 }

  /** `n` zero bytes: what `'\0' * n` writes. */
  function Zeros(n: nat): (r: seq<Byte>)
    ensures |r| == n
    ensures forall i :: 0 <= i < n ==> r[i] == 0
  {
    seq(n, _ => 0)
  }

  function Pow256(n: nat): (r: nat)
    ensures r >= 1
  {
    if n == 0 then 1 else 256 * Pow256(n - 1)
  }

  /** The `n` low-order base-256 digits of `x`, least significant first. */
  function EncodeLE(x: nat, n: nat): (r: seq<Byte>)
    ensures |r| == n
  {
    if n == 0 then [] else [x % 256] + EncodeLE(x / 256, n - 1)
  }

  /** The number whose little-endian digits are `s`. */
  function DecodeLE(s: seq<Byte>): (r: nat)
    ensures r < Pow256(|s|)
  {
    if s == [] then 0 else s[0] + 256 * DecodeLE(s[1..])
  }

  lemma DigitSplit(a: nat, b: nat)
    requires a < 256
    ensures (a + 256 * b) % 256 == a
    ensures (a + 256 * b) / 256 == b
  {
  }

  lemma {:induction false} DecodeEncodeLE(x: nat, n: nat)
    requires x < Pow256(n)
    ensures DecodeLE(EncodeLE(x, n)) == x
  {
    if n > 0 {
      assert x / 256 < Pow256(n - 1);
      DecodeEncodeLE(x / 256, n - 1);
      assert EncodeLE(x, n)[1..] == EncodeLE(x / 256, n - 1);
    }
  }

  lemma {:induction false} EncodeDecodeLE(s: seq<Byte>)
    ensures EncodeLE(DecodeLE(s), |s|) == s
  {
    if s != [] {
      DigitSplit(s[0], DecodeLE(s[1..]));
      EncodeDecodeLE(s[1..]);
    }
  }

  /** struct.pack('I', x) on a little-endian host. */
  function EncodeU32(x: U32): (r: seq<Byte>)
    ensures |r| == 4
  {
    EncodeLE(x, 4)
  }

  /** struct.unpack('I', s). */
  function DecodeU32(s: seq<Byte>): (r: U32)
    requires |s| == 4
  {
    DecodeLE(s)
  }

  lemma DecodeEncodeU32(x: U32)
    ensures DecodeU32(EncodeU32(x)) == x
  {
    DecodeEncodeLE(x, 4);
  }

  lemma EncodeDecodeU32(s: seq<Byte>)
    requires |s| == 4
    ensures EncodeU32(DecodeU32(s)) == s
  {
    EncodeDecodeLE(s);
  }

  /** struct.pack('I' * |ws|, *ws): the words one after another. */
  function EncodeWords(ws: seq<U32>): (r: seq<Byte>)
    ensures |r| == 4 * |ws|
  {
    if ws == [] then [] else EncodeU32(ws[0]) + EncodeWords(ws[1..])
  }

  /** struct.unpack('I' * (|s| / 4), s). */
  function DecodeWords(s: seq<Byte>): (r: seq<U32>)
    requires |s| % 4 == 0
    ensures 4 * |r| == |s|
  {
    if s == [] then [] else [DecodeU32(s[..4])] + DecodeWords(s[4..])
  }

  lemma {:induction false} DecodeEncodeWords(ws: seq<U32>)
    ensures DecodeWords(EncodeWords(ws)) == ws
  {
    if ws != [] {
      var e := EncodeWords(ws);
      assert e[..4] == EncodeU32(ws[0]);
      assert e[4..] == EncodeWords(ws[1..]);
      DecodeEncodeU32(ws[0]);
      DecodeEncodeWords(ws[1..]);
    }
  }

  lemma {:induction false} EncodeDecodeWords(s: seq<Byte>)
    requires |s| % 4 == 0
    ensures EncodeWords(DecodeWords(s)) == s
  {
    if s != [] {
      var ws := DecodeWords(s);
      assert ws[0] == DecodeU32(s[..4]);
      assert ws[1..] == DecodeWords(s[4..]);
      EncodeDecodeU32(s[..4]);
      EncodeDecodeWords(s[4..]);
      assert s == s[..4] + s[4..];
    }
  }
}
