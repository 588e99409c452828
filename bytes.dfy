/**
 * How 32-bit fields are stored in the tile's byte array. The targets of the
 * renderer (Apple CPUs and GPUs) are little-endian, so a field occupies four
 * consecutive bytes, least significant first. A field is kept as exactly those
 * four bytes: a `float` as an opaque bit pattern (nothing here computes with
 * it), a C `int` or a `vgerOp` as the two's-complement pattern whose value
 * `Unsigned` and `Int32Value` give (`Int32Word` stores an `int`).
 */
module Bytes {
  /** A C `int`. */
  newtype int32 = x: int | -0x8000_0000 <= x < 0x8000_0000

  const WordSize: nat := 4

  /** A 32-bit field as laid out in memory: its bytes, least significant first. */
  datatype Word = Word(b0: bv8, b1: bv8, b2: bv8, b3: bv8)

  /** The four bytes a field occupies. */
  function EncodeWord(w: Word): (r: seq<bv8>)
    ensures |r| == WordSize
  {
    [w.b0, w.b1, w.b2, w.b3]
  }

  /** The field stored at `bytes[off..off + 4]`. */
  function WordAt(bytes: seq<bv8>, off: nat): Word
    requires off + WordSize <= |bytes|
  {
    Word(bytes[off], bytes[off + 1], bytes[off + 2], bytes[off + 3])
  }

  /** The field's value as an unsigned 32-bit number. */
  function Unsigned(w: Word): (n: nat)
    ensures n < 0x1_0000_0000
  {
    w.b0 as int + 0x100 * w.b1 as int + 0x1_0000 * w.b2 as int + 0x100_0000 * w.b3 as int
  }

  /** The field's value as a C `int` (two's complement). */
  function Int32Value(w: Word): (x: int32)
    ensures x < 0 <==> w.b3 >= 0x80
    ensures x as int + (if x < 0 then 0x1_0000_0000 else 0) == Unsigned(w)
  {
    var n := Unsigned(w);
    if n < 0x8000_0000 then n as int32 else (n - 0x1_0000_0000) as int32
  }

  /** The byte holding the number `k`, counted up from zero. */
  function ByteFrom(k: nat): bv8
    requires k < 0x100
  {
    if k == 0 then 0 else ByteFrom(k - 1) + 1
  }

  /** The byte built from `k` has the value `k`. */
  lemma {:induction false} ByteFromValue(k: nat)
    requires k < 0x100
    ensures ByteFrom(k) as int == k
  {
    if k > 0 {
      ByteFromValue(k - 1);
      var b := ByteFrom(k - 1);
      assert (b + 1) as int == b as int + 1;
    }
  }

  /** Every byte is the one built from its own value. */
  lemma ByteFromOf(b: bv8)
    ensures ByteFrom(b as int) == b
  {
    ByteFromValue(b as int);
  }

  /** The field holding the unsigned 32-bit number `n`, least significant byte first. */
  function UnsignedWord(n: nat): Word
    requires n < 0x1_0000_0000
  {
    var q1 := n / 0x100;
    var q2 := q1 / 0x100;
    Word(ByteFrom(n % 0x100), ByteFrom(q1 % 0x100), ByteFrom(q2 % 0x100), ByteFrom(q2 / 0x100))
  }

  /** The field a C `int` is stored as: its two's-complement pattern. */
  function Int32Word(x: int32): Word
  {
    UnsignedWord(if x < 0 then x as int + 0x1_0000_0000 else x as int)
  }

  /** Storing an unsigned number and reading it back gives the number. */
  lemma UnsignedRoundTrip(n: nat)
    requires n < 0x1_0000_0000
    ensures Unsigned(UnsignedWord(n)) == n
  {
    var q1 := n / 0x100;
    var q2 := q1 / 0x100;
    var b0, b1, b2, b3 := n % 0x100, q1 % 0x100, q2 % 0x100, q2 / 0x100;
    ByteFromValue(b0);
    ByteFromValue(b1);
    ByteFromValue(b2);
    ByteFromValue(b3);
    assert n == b0 + 0x100 * (b1 + 0x100 * (b2 + 0x100 * b3));
  }

  /** The low byte and the rest of `b + 256 * q`. */
  lemma SplitLowByte(b: int, q: nat)
    requires 0 <= b < 0x100
    ensures (b + 0x100 * q) / 0x100 == q && (b + 0x100 * q) % 0x100 == b
  {
  }

  /** The four digits, base 256, of a number below 2^32 are the ones it was built from. */
  lemma Digits(n: int, b0: int, b1: int, b2: int, b3: int)
    requires 0 <= b0 < 0x100 && 0 <= b1 < 0x100 && 0 <= b2 < 0x100 && 0 <= b3 < 0x100
    requires n == b0 + 0x100 * b1 + 0x1_0000 * b2 + 0x100_0000 * b3
    ensures n % 0x100 == b0 && (n / 0x100) % 0x100 == b1
    ensures (n / 0x100 / 0x100) % 0x100 == b2 && n / 0x100 / 0x100 / 0x100 == b3
  {
    var q2 := b2 + 0x100 * b3;
    var q1 := b1 + 0x100 * q2;
    SplitLowByte(b0, q1);
    SplitLowByte(b1, q2);
    SplitLowByte(b2, b3);
  }

  /** Every field is the image of its own unsigned value. */
  lemma UnsignedUnique(w: Word)
    ensures UnsignedWord(Unsigned(w)) == w
  {
    var n := Unsigned(w);
    Digits(n, w.b0 as int, w.b1 as int, w.b2 as int, w.b3 as int);
    ByteFromOf(w.b0);
    ByteFromOf(w.b1);
    ByteFromOf(w.b2);
    ByteFromOf(w.b3);
  }

  /** Round trip for a C `int`: the stored field reads back as the same `int`. */
  lemma Int32RoundTrip(x: int32)
    ensures Int32Value(Int32Word(x)) == x
  {
    var n := if x < 0 then x as int + 0x1_0000_0000 else x as int;
    UnsignedRoundTrip(n);
    assert Unsigned(Int32Word(x)) == n;
  }

  /** Every field is the stored form of the C `int` it reads as. */
  lemma Int32Unique(w: Word)
    ensures Int32Word(Int32Value(w)) == w
  {
    var x := Int32Value(w);
    UnsignedUnique(w);
    assert (if x < 0 then x as int + 0x1_0000_0000 else x as int) == Unsigned(w);
  }

  /** The field holding the small number `k` (a `vgerOp` enumerator, say). */
  function SmallWord(k: bv8): Word
  {
    Word(k, 0, 0, 0)
  }

  /** A field is read back from wherever its four bytes were stored. */
  lemma WordIn(bytes: seq<bv8>, off: nat, w: Word)
    requires off + WordSize <= |bytes|
    requires bytes[off..off + WordSize] == EncodeWord(w)
    ensures WordAt(bytes, off) == w
  {
    assert bytes[off] == EncodeWord(w)[0] && bytes[off + 1] == EncodeWord(w)[1];
    assert bytes[off + 2] == EncodeWord(w)[2] && bytes[off + 3] == EncodeWord(w)[3];
  }

  /** Fields stored one right after the other. */
  function EncodeWords(ws: seq<Word>): (r: seq<bv8>)
    ensures |r| == 4 * |ws|
  {
    if ws == [] then [] else EncodeWord(ws[0]) + EncodeWords(ws[1..])
  }

  /** The `n` fields stored from `off`, in order. */
  function WordsAt(bytes: seq<bv8>, off: nat, n: nat): (ws: seq<Word>)
    requires off + 4 * n <= |bytes|
    ensures |ws| == n
    decreases n
  {
    if n == 0 then [] else [WordAt(bytes, off)] + WordsAt(bytes, off + WordSize, n - 1)
  }

  /** A run of stored fields is read back unchanged. */
  lemma {:induction false} StoredWords(bytes: seq<bv8>, off: nat, ws: seq<Word>)
    requires off + 4 * |ws| <= |bytes|
    requires bytes[off..off + 4 * |ws|] == EncodeWords(ws)
    ensures WordsAt(bytes, off, |ws|) == ws
    decreases |ws|
  {
    if ws != [] {
      var first, rest := EncodeWord(ws[0]), EncodeWords(ws[1..]);
      assert |first| + |rest| == 4 * |ws|;
      SplitAt(bytes, off, first, rest);
      WordIn(bytes, off, ws[0]);
      StoredWords(bytes, off + WordSize, ws[1..]);
    }
  }

  // Slices of a buffer that holds a known image.

  /** A field of a stored image lies at the same offset in the buffer. */
  lemma FieldIn(bytes: seq<bv8>, off: nat, image: seq<bv8>, k: nat, n: nat)
    requires off + |image| <= |bytes| && bytes[off..off + |image|] == image
    requires k + n <= |image|
    ensures bytes[off + k..off + k + n] == image[k..k + n]
  {
    var field, stored := bytes[off + k..off + k + n], image[k..k + n];
    forall i | 0 <= i < n
      ensures field[i] == stored[i]
    {
      assert field[i] == bytes[off..off + |image|][k + i];
    }
  }

  /** A stored image, cut at `k`: its first `k` bytes, then the rest. */
  lemma CutAt(bytes: seq<bv8>, off: nat, image: seq<bv8>, k: nat)
    requires off + |image| <= |bytes| && bytes[off..off + |image|] == image
    requires k <= |image|
    ensures bytes[off..off + k] == image[..k]
    ensures bytes[off + k..off + |image|] == image[k..]
  {
    FieldIn(bytes, off, image, 0, k);
    FieldIn(bytes, off, image, k, |image| - k);
  }

  /** Two images stored one right after the other form their concatenation. */
  lemma JoinAt(bytes: seq<bv8>, first: seq<bv8>, second: seq<bv8>)
    requires |first| + |second| <= |bytes|
    requires bytes[..|first|] == first && bytes[|first|..|first| + |second|] == second
    ensures bytes[..|first| + |second|] == first + second
  {
    assert bytes[..|first| + |second|] == bytes[..|first|] + bytes[|first|..|first| + |second|];
  }

  /** A buffer holding two images back to back holds each at its own offset. */
  lemma SplitAt(bytes: seq<bv8>, off: nat, first: seq<bv8>, rest: seq<bv8>)
    requires off + |first| + |rest| <= |bytes|
    requires bytes[off..off + |first| + |rest|] == first + rest
    ensures bytes[off..off + |first|] == first
    ensures bytes[off + |first|..off + |first| + |rest|] == rest
  {
    FieldIn(bytes, off, first + rest, 0, |first|);
    FieldIn(bytes, off, first + rest, |first|, |rest|);
    assert (first + rest)[..|first|] == first;
    assert (first + rest)[|first|..|first| + |rest|] == rest;
  }
}
