/** Bytes, 32-bit words in little-endian order, and in-place copies into a buffer. */
module Bytes {
  type byte = b: int | 0 <= b < 256
  type uint32 = n: int | 0 <= n < 0x1_0000_0000

  const WORD_SIZE := 4

  function EncodeWord(n: uint32): (bytes: seq<byte>)
    ensures |bytes| == WORD_SIZE
  {
    [n % 256, n / 256 % 256, n / 256 / 256 % 256, n / 256 / 256 / 256]
  }

  /** The word stored at `bytes[at..at + 4]`, as a `memcpy` into a `uint32_t` reads it. */
  function DecodeWord(bytes: seq<byte>, at: nat): uint32
    requires at + WORD_SIZE <= |bytes|
  {
    var b0: int, b1: int, b2: int, b3: int := bytes[at], bytes[at + 1], bytes[at + 2], bytes[at + 3];
    b0 + 256 * b1 + 65536 * b2 + 16777216 * b3
  }

  lemma FourDigits(n: int)
    ensures n == n % 256 + 256 * (n / 256 % 256) + 65536 * (n / 256 / 256 % 256) + 16777216 * (n / 256 / 256 / 256)
  {
    var q := n / 256;
    var r := q / 256;
    assert n == n % 256 + 256 * q && q == q % 256 + 256 * r && r == r % 256 + 256 * (r / 256);
  }

  lemma DecodeWordAt(bytes: seq<byte>, at: nat, n: uint32)
    requires at + WORD_SIZE <= |bytes|
    requires forall i {:trigger EncodeWord(n)[i]} :: 0 <= i < WORD_SIZE ==> bytes[at + i] == EncodeWord(n)[i]
    ensures DecodeWord(bytes, at) == n
  {
    var w := EncodeWord(n);
    assert bytes[at] == w[0] && bytes[at + 1] == w[1] && bytes[at + 2] == w[2] && bytes[at + 3] == w[3];
    FourDigits(n);
  }

  lemma DecodeEncodedWord(bytes: seq<byte>, at: nat, n: uint32)
    requires at + WORD_SIZE <= |bytes| && bytes[at..at + WORD_SIZE] == EncodeWord(n)
    ensures DecodeWord(bytes, at) == n
  {
    forall i | 0 <= i < WORD_SIZE ensures bytes[at + i] == EncodeWord(n)[i] {
      assert bytes[at..at + WORD_SIZE][i] == bytes[at + i];
    }
    DecodeWordAt(bytes, at, n);
  }

  /** `memcpy(buffer + at, source, |source|)`. */
  function Splice(buffer: seq<byte>, at: nat, source: seq<byte>): (r: seq<byte>)
    requires at + |source| <= |buffer|
    ensures |r| == |buffer|
    ensures forall i :: 0 <= i < |r| ==> r[i] == if at <= i < at + |source| then source[i - at] else buffer[i]
  {
    buffer[..at] + source + buffer[at + |source|..]
  }

  function Zeros(n: nat): (r: seq<byte>)
    ensures |r| == n && forall i :: 0 <= i < n ==> r[i] == 0
  {
    seq(n, _ => 0)
  }

  /** `memchr` for NUL: its index, or the length when there is none. */
  function FirstNul(bytes: seq<byte>, from: nat): (r: nat)
    requires from <= |bytes|
    ensures from <= r <= |bytes|
    ensures r < |bytes| ==> bytes[r] == 0
    ensures forall i :: from <= i < r ==> bytes[i] != 0
    decreases |bytes| - from
  {
    if from == |bytes| || bytes[from] == 0 then from else FirstNul(bytes, from + 1)
  }

  /** A C string ends at its first NUL. */
  function UpToNul(text: seq<byte>): seq<byte> {
    text[..FirstNul(text, 0)]
  }
}
