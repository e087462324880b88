/** Byte-level primitives shared by the texture decoder, the PNG writer and
    the mesh parsers: fixed-width integer reads in both byte orders, the
    big-endian writes that invert them, and substring search. */
module Bytes {

  /** One octet of a Python `bytes` object. */
  type Byte = x: int | 0 <= x < 256

  /** An unsigned 16-bit value, as produced by `struct.unpack('>H' | '<H')`. */
  type U16 = x: int | 0 <= x < 0x1_0000

  function Pow2(n: nat): (r: nat)
    ensures r >= 1
  {
    if n == 0 then 1 else 2 * Pow2(n - 1)
  }

  /** `n` zero bytes: the filler of a built file. */
  function Zeros(n: nat): (r: seq<Byte>)
    ensures |r| == n
  {
    seq(n, _ => 0)
  }

  /** `struct.unpack('<H', s[o:o+2])`. */
  function U16LE(s: seq<Byte>, o: nat): (r: U16)
    requires o + 2 <= |s|
  {
    s[o] as int + 256 * (s[o + 1] as int)
  }

  /** `struct.unpack('<I', s[o:o+4])`. */
  function U32LE(s: seq<Byte>, o: nat): (r: nat)
    requires o + 4 <= |s|
    ensures r < 0x1_0000_0000
  {
    U16LE(s, o) + 0x1_0000 * U16LE(s, o + 2)
  }

  /** `struct.unpack('<Q', s[o:o+8])`. */
  function U64LE(s: seq<Byte>, o: nat): (r: nat)
    requires o + 8 <= |s|
    ensures r < 0x1_0000_0000_0000_0000
  {
    U32LE(s, o) + 0x1_0000_0000 * U32LE(s, o + 4)
  }

  /** Big-endian encoding of a 16-bit value (`struct.pack('>H', v)`). */
  function Be16(v: U16): (r: seq<Byte>)
    ensures |r| == 2
  {
    [v / 256, v % 256]
  }

  /** `read_int16_be`: `struct.unpack('>H', data[o:o+2])`, which raises
      unless two bytes are available at `o`. The value read is the one whose
      big-endian encoding is exactly those two bytes. */
  function ReadU16BE(data: seq<Byte>, o: nat): (r: U16)
    requires o + 2 <= |data|
    ensures Be16(r) == data[o..o + 2]
  {
    data[o] as int * 256 + data[o + 1]
  }

  lemma ReadU16BEOfBe16(v: U16)
    ensures ReadU16BE(Be16(v), 0) == v
  {
  }

  /** A slice of a slice is a slice of the original. */
  lemma SliceOfSlice<T>(s: seq<T>, a: nat, b: nat, c: nat, d: nat)
    requires a <= b <= |s| && c <= d <= b - a
    ensures s[a..b][c..d] == s[a + c..a + d]
  {
    var l, r := s[a..b][c..d], s[a + c..a + d];
    assert |l| == |r|;
    forall k | 0 <= k < |l|
      ensures l[k] == r[k]
    {
      assert l[k] == s[a..b][c + k];
    }
  }

  /** A buffer holding `part` at `m` is the bytes before it, `part`, and
      the bytes after it. */
  lemma SplitAround<T>(s: seq<T>, m: nat, part: seq<T>)
    requires m + |part| <= |s| && s[m..m + |part|] == part
    ensures s == s[..m] + part + s[m + |part|..]
  {
    assert s == s[..m] + s[m..m + |part|] + s[m + |part|..];
  }

  /** The three pieces of a concatenation, sliced back out. */
  lemma Pieces<T>(x: seq<T>, y: seq<T>, z: seq<T>)
    ensures (x + y + z)[0..|x|] == x
    ensures (x + y + z)[|x|..|x| + |y|] == y
    ensures (x + y + z)[|x| + |y|..|x| + |y| + |z|] == z
  {
    var s := x + y + z;
    assert s[0..|x|] == x by { assert s[0..|x|] == (x + y)[0..|x|]; }
    assert s[|x|..|x| + |y|] == y by { assert s[|x|..|x| + |y|] == (x + y)[|x|..]; }
    assert s[|x| + |y|..|x| + |y| + |z|] == z;
  }

  /** Two words with the same big-endian bytes are equal. */
  lemma Be16Injective(a: U16, b: U16)
    requires Be16(a) == Be16(b)
    ensures a == b
  {
    assert a == Be16(a)[0] as int * 256 + Be16(a)[1];
    assert b == Be16(b)[0] as int * 256 + Be16(b)[1];
  }

  /** A word's big-endian bytes, wherever they sit, read back as the word. */
  lemma ReadU16BEAt(s: seq<Byte>, o: nat, v: U16)
    requires o + 2 <= |s| && s[o..o + 2] == Be16(v)
    ensures ReadU16BE(s, o) == v
  {
    Be16Injective(ReadU16BE(s, o), v);
  }

  /** Big-endian encoding of a 32-bit value (`struct.pack('>I', v)`). */
  function Be32(v: nat): (r: seq<Byte>)
    requires v < 0x1_0000_0000
    ensures |r| == 4
  {
    [v / 0x100_0000, (v / 0x1_0000) % 256, (v / 256) % 256, v % 256]
  }

  /** Big-endian 32-bit read, the inverse of `Be32`. */
  function ReadU32BE(s: seq<Byte>, o: nat): (r: nat)
    requires o + 4 <= |s|
    ensures r < 0x1_0000_0000
    ensures Be32(r) == s[o..o + 4]
  {
    Be32Digits(s[o], s[o + 1], s[o + 2], s[o + 3]);
    s[o] as int * 0x100_0000 + s[o + 1] as int * 0x1_0000 + s[o + 2] as int * 256 + s[o + 3]
  }

  /** Four base-256 digits, most significant first, are the big-endian
      encoding of the number they spell. */
  lemma Be32Digits(a: Byte, b: Byte, c: Byte, d: Byte)
    ensures a as int * 0x100_0000 + b as int * 0x1_0000 + c as int * 256 + d < 0x1_0000_0000
    ensures Be32(a as int * 0x100_0000 + b as int * 0x1_0000 + c as int * 256 + d) == [a, b, c, d]
  {
    var v := a as int * 0x100_0000 + b as int * 0x1_0000 + c as int * 256 + d;
    var q1 := a as int * 0x1_0000 + b as int * 256 + c;
    var q2 := a as int * 256 + b;
    assert v == 256 * q1 + d;
    assert q1 == 256 * q2 + c;
    assert v / 256 == q1 && v % 256 == d;
    assert q1 % 256 == c;
    assert v / 0x1_0000 == q2 by {
      assert v == 0x1_0000 * q2 + (c as int * 256 + d);
    }
    assert q2 % 256 == b;
    assert v / 0x100_0000 == a by {
      assert v == 0x100_0000 * a + (b as int * 0x1_0000 + c as int * 256 + d);
    }
  }

  lemma ReadU32BEOfBe32(v: nat)
    requires v < 0x1_0000_0000
    ensures ReadU32BE(Be32(v), 0) == v
  {
    var a, r0 := v / 256, v % 256;
    var b, r1 := a / 256, a % 256;
    var c, r2 := b / 256, b % 256;
    assert v == 256 * a + r0;
    assert a == 256 * b + r1;
    assert b == 256 * c + r2;
    assert v / 0x1_0000 == b;
    assert v / 0x100_0000 == c;
  }

  /** A big-endian read of four bytes that hold `Be32(v)` gives back `v`,
      wherever in a buffer they sit. */
  lemma ReadU32BEAt(s: seq<Byte>, o: nat, v: nat)
    requires v < 0x1_0000_0000 && o + 4 <= |s| && s[o..o + 4] == Be32(v)
    ensures ReadU32BE(s, o) == v
  {
    var r := ReadU32BE(s, o);
    ReadU32BEOfBe32(r);
    ReadU32BEOfBe32(v);
  }

  /** The byte pattern `pat` occurs in `data` at position `i`. */
  predicate OccursAt(data: seq<Byte>, pat: seq<Byte>, i: nat)
  {
    i + |pat| <= |data| && data[i..i + |pat|] == pat
  }

  /** `data.find(pat, start)` for a non-negative `start`: the least position
      at or after `start` where `pat` occurs, or -1 when there is none. */
  function Find(data: seq<Byte>, pat: seq<Byte>, start: nat): (r: int)
    ensures r == -1 || (start <= r && OccursAt(data, pat, r))
    ensures r >= 0 ==> forall i :: start <= i < r ==> !OccursAt(data, pat, i)
    ensures r == -1 <==> forall i :: start <= i ==> !OccursAt(data, pat, i)
    decreases |data| - start
  {
    if start + |pat| > |data| then -1
    else if data[start..start + |pat|] == pat then start
    else Find(data, pat, start + 1)
  }
}
