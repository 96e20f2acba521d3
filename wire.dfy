/**
 * Byte-level framing of the RouterOS API as the client writes and reads it:
 * the 1-5 byte self-describing length prefix (encodeLength / decodeLength),
 * words (prefix followed by raw bytes) and sentences (words closed by one
 * zero byte).
 *
 * A PHP string is a byte string; it is modelled as a sequence of characters
 * each below 256, so that `chr`, `ord` and `strlen` are exact and string
 * literals such as "/login" can be written directly.
 */
module Wire {

  /** One byte of a PHP string. */
  type Octet = c: char | c as int < 256

  /** A PHP (byte) string. */
  type Bytes = seq<Octet>

  /** Words of this length or longer are beyond what the 5-byte prefix can carry. */
  const WORD_LIMIT: nat := 0x1_0000_0000

  /** PHP `ord` of one byte. */
  function Ord(c: Octet): (r: nat)
    ensures r < 256
  {
    c as int
  }

  /** PHP `chr`: keeps the low eight bits of its argument. */
  function Chr(n: nat): (c: Octet)
    ensures Ord(c) == n % 256
  {
    (n % 256) as char
  }

  /** `chr` undoes `ord` on every byte, and `ord` undoes `chr` below 256. */
  lemma ChrOrd(c: Octet, n: nat)
    ensures Chr(Ord(c)) == c
    ensures n < 256 ==> Ord(Chr(n)) == n
  {
  }

  // PHP's bitwise operators on values that fit in one byte, bit by bit.

  /** Bit `w` (a power of two) of `x`. */
  function Bit(x: nat, w: nat): (r: nat)
    requires w > 0
    ensures r < 2
  {
    (x / w) % 2
  }

  function Both(x: nat, y: nat): (r: nat)
    ensures r < 2
  {
    if x == 1 && y == 1 then 1 else 0
  }

  function Either(x: nat, y: nat): (r: nat)
    ensures r < 2
  {
    if x == 1 || y == 1 then 1 else 0
  }

  /** 2 to the power `k`. */
  function Pow2(k: nat): (r: nat)
    ensures r > 0
  {
    if k == 0 then 1 else 2 * Pow2(k - 1)
  }

  /** The low `k` bits of PHP `$a & $m`. */
  function AndLow(a: nat, m: nat, k: nat): (r: nat)
    ensures r < Pow2(k)
  {
    if k == 0 then 0 else Both(a % 2, m % 2) + 2 * AndLow(a / 2, m / 2, k - 1)
  }

  /** The low `k` bits of PHP `$a | $m`. */
  function OrLow(a: nat, m: nat, k: nat): (r: nat)
    ensures r < Pow2(k)
  {
    if k == 0 then 0 else Either(a % 2, m % 2) + 2 * OrLow(a / 2, m / 2, k - 1)
  }

  /** PHP `$a & $m`. */
  function And(a: nat, m: nat): (r: nat)
    requires a < 256 && m < 256
    ensures r < 256
  {
    AndLow(a, m, 8)
  }

  /** PHP `$a | $m`. */
  function Or(a: nat, m: nat): (r: nat)
    requires a < 256 && m < 256
    ensures r < 256
  {
    OrLow(a, m, 8)
  }

  /**
   * PHP `~$m` as far as an AND with a byte can see it: the other bits of the
   * 64-bit complement meet only zero bits.
   */
  function Not(m: nat): nat
    requires m < 256
  {
    0xFF - m
  }

  /**
   * encodeLength: the length prefix of a word of `n` bytes.  The width is
   * chosen by the thresholds 0x80, 0x4000, 0x200000 and 0x10000000; the
   * leading byte carries the width tag in its high bits.
   */
  function EncodeLength(n: nat): (r: Bytes)
    ensures 1 <= |r| <= 5
  {
    if n < 0x80 then
      [Chr(n)]
    else if n < 0x4000 then
      [Chr(Or(n / 0x100, 0x80)), Chr(n)]
    else if n < 0x20_0000 then
      [Chr(Or(n / 0x1_0000, 0xC0)), Chr(n / 0x100), Chr(n)]
    else if n < 0x1000_0000 then
      [Chr(Or(n / 0x100_0000, 0xE0)), Chr(n / 0x1_0000), Chr(n / 0x100), Chr(n)]
    else
      [Chr(0xF0), Chr(n / 0x100_0000), Chr(n / 0x1_0000), Chr(n / 0x100), Chr(n)]
  }

  /**
   * The byte `fread($socket, 1)` yields at offset `i`, as seen by `ord`: past
   * the end of the stream fread returns '' and ord('') is 0.
   */
  function ByteAt(s: Bytes, i: nat): (b: nat)
    ensures b < 256
    ensures i >= |s| ==> b == 0
  {
    if i < |s| then Ord(s[i]) else 0
  }

  /** Where the cursor stands after trying to read `k` bytes from `pos`. */
  function Skip(s: Bytes, pos: nat, k: nat): (next: nat)
    requires pos <= |s|
    ensures pos <= next <= |s|
    ensures next == pos + k || next == |s|
  {
    if pos + k <= |s| then pos + k else |s|
  }

  /**
   * Reading one byte after `k` bytes were read from `pos` sees the byte at
   * `pos + k` and ends where reading `k + 1` bytes would, also at the end of
   * the stream.
   */
  lemma ReadOn(s: Bytes, pos: nat, k: nat)
    requires pos <= |s|
    ensures ByteAt(s, Skip(s, pos, k)) == ByteAt(s, pos + k)
    ensures Skip(s, Skip(s, pos, k), 1) == Skip(s, pos, k + 1)
  {
  }

  /**
   * decodeLength, read from the stream `s` at cursor `pos`: the decoded length
   * and the cursor after the prefix.  The source picks the width by testing the
   * leading byte against the masks 0xC0, 0xE0, 0xF0 and 0xF8 in turn and keeps
   * the bits below each mask; `LeadByteMasks` shows that those tests select
   * exactly the ranges below.  A leading byte 0xF8-0xFF matches no test and
   * decodes as 0 after consuming that one byte.
   */
  function DecodeLength(s: Bytes, pos: nat): (r: (nat, nat))
    requires pos <= |s|
    ensures pos <= r.1 <= |s|
    ensures r.1 <= pos + 5
    ensures r.0 != 0 ==> pos < r.1
    ensures r.0 < WORD_LIMIT
  {
    var b := ByteAt(s, pos);
    if b < 0x80 then
      (b, Skip(s, pos, 1))
    else if b < 0xC0 then
      ((b - 0x80) * 0x100 + ByteAt(s, pos + 1), Skip(s, pos, 2))
    else if b < 0xE0 then
      ((b - 0xC0) * 0x1_0000 + ByteAt(s, pos + 1) * 0x100 + ByteAt(s, pos + 2),
       Skip(s, pos, 3))
    else if b < 0xF0 then
      ((b - 0xE0) * 0x100_0000 + ByteAt(s, pos + 1) * 0x1_0000
         + ByteAt(s, pos + 2) * 0x100 + ByteAt(s, pos + 3),
       Skip(s, pos, 4))
    else if b < 0xF8 then
      (ByteAt(s, pos + 1) * 0x100_0000 + ByteAt(s, pos + 2) * 0x1_0000
         + ByteAt(s, pos + 3) * 0x100 + ByteAt(s, pos + 4),
       Skip(s, pos, 5))
    else
      (0, Skip(s, pos, 1))
  }

  /** One word on the wire: its length prefix, then its bytes. */
  function EncodeWord(w: Bytes): (r: Bytes)
    ensures |r| > |w|
  {
    EncodeLength(|w|) + w
  }

  /** The words of a sentence, each with its prefix, back to back. */
  function EncodeWords(words: seq<Bytes>): (r: Bytes)
    ensures |r| >= |words|
  {
    if |words| == 0 then [] else EncodeWord(words[0]) + EncodeWords(words[1..])
  }

  /** A whole sentence on the wire: its words, then the zero-length terminator. */
  function EncodeSentence(words: seq<Bytes>): (r: Bytes)
    ensures |r| > 0 && Ord(r[|r| - 1]) == 0
  {
    EncodeWords(words) + [Chr(0)]
  }

  /** A sentence on the wire is its first word, then the sentence of the remaining words. */
  lemma EncodeSentenceCons(words: seq<Bytes>)
    requires |words| > 0
    ensures EncodeSentence(words) == EncodeWord(words[0]) + EncodeSentence(words[1..])
  {
    var e, rest := EncodeWord(words[0]), EncodeWords(words[1..]);
    assert EncodeWords(words) == e + rest;
    assert (e + rest) + [Chr(0)] == e + (rest + [Chr(0)]);
  }

  /** Writing one more word appends its prefix and bytes after the earlier words. */
  lemma {:induction false} EncodeWordsSnoc(words: seq<Bytes>, w: Bytes)
    ensures EncodeWords(words + [w]) == EncodeWords(words) + EncodeWord(w)
  {
    if |words| == 0 {
      assert words + [w] == [w];
      assert [w][1..] == [];
    } else {
      assert (words + [w])[1..] == words[1..] + [w];
      EncodeWordsSnoc(words[1..], w);
    }
  }

  /** Every word of the sentence is non-empty and short enough for the prefix. */
  predicate Framable(words: seq<Bytes>)
  {
    forall i :: 0 <= i < |words| ==> 0 < |words[i]| < WORD_LIMIT
  }

  // ---------------------------------------------------------------------
  // Properties of the codec
  // ---------------------------------------------------------------------

  /** Two bits of the result at a time. */
  lemma AndPair(x: nat, y: nat, k: nat)
    requires k >= 2
    ensures AndLow(x, y, k) ==
      Both(x % 2, y % 2) + 2 * Both(x / 2 % 2, y / 2 % 2) + 4 * AndLow(x / 4, y / 4, k - 2)
  {
    assert x / 2 / 2 == x / 4 && y / 2 / 2 == y / 4;
  }

  lemma AndBitsMid(a: nat, m: nat)
    ensures AndLow(a / 4, m / 4, 6) == Both(Bit(a, 4), Bit(m, 4)) + 2 * Both(Bit(a, 8), Bit(m, 8)) + 4 * AndLow(a / 16, m / 16, 4)
  {
    assert a / 4 / 2 == a / 8 && m / 4 / 2 == m / 8;
    assert a / 4 / 4 == a / 16 && m / 4 / 4 == m / 16;
    AndPair(a / 4, m / 4, 6);
  }

  lemma AndBitsLow(a: nat, m: nat)
    ensures AndLow(a, m, 8) ==
      Both(Bit(a, 1), Bit(m, 1)) + 2 * Both(Bit(a, 2), Bit(m, 2)) + 4 * Both(Bit(a, 4), Bit(m, 4)) + 8 * Both(Bit(a, 8), Bit(m, 8)) + 16 * AndLow(a / 16, m / 16, 4)
  {
    AndPair(a, m, 8);
    AndBitsMid(a, m);
  }

  lemma AndBitsHigh(a: nat, m: nat)
    ensures AndLow(a / 16, m / 16, 4) ==
      Both(Bit(a, 16), Bit(m, 16)) + 2 * Both(Bit(a, 32), Bit(m, 32)) + 4 * Both(Bit(a, 64), Bit(m, 64)) + 8 * Both(Bit(a, 128), Bit(m, 128))
  {
    assert a / 16 / 2 == a / 32 && m / 16 / 2 == m / 32;
    assert a / 16 / 4 == a / 64 && m / 16 / 4 == m / 64;
    assert a / 64 / 2 == a / 128 && m / 64 / 2 == m / 128;
    AndPair(a / 16, m / 16, 4);
    AndPair(a / 64, m / 64, 2);
  }

  /** PHP's bitwise result, bit by bit. */
  lemma AndBits(a: nat, m: nat)
    ensures AndLow(a, m, 8) ==
      Both(Bit(a, 1), Bit(m, 1)) + 2 * Both(Bit(a, 2), Bit(m, 2))
      + 4 * Both(Bit(a, 4), Bit(m, 4)) + 8 * Both(Bit(a, 8), Bit(m, 8))
      + 16 * Both(Bit(a, 16), Bit(m, 16)) + 32 * Both(Bit(a, 32), Bit(m, 32))
      + 64 * Both(Bit(a, 64), Bit(m, 64)) + 128 * Both(Bit(a, 128), Bit(m, 128))
  {
    AndBitsLow(a, m);
    AndBitsHigh(a, m);
  }

  /** Two bits of the result at a time. */
  lemma OrPair(x: nat, y: nat, k: nat)
    requires k >= 2
    ensures OrLow(x, y, k) ==
      Either(x % 2, y % 2) + 2 * Either(x / 2 % 2, y / 2 % 2) + 4 * OrLow(x / 4, y / 4, k - 2)
  {
    assert x / 2 / 2 == x / 4 && y / 2 / 2 == y / 4;
  }

  lemma OrBitsMid(a: nat, m: nat)
    ensures OrLow(a / 4, m / 4, 6) == Either(Bit(a, 4), Bit(m, 4)) + 2 * Either(Bit(a, 8), Bit(m, 8)) + 4 * OrLow(a / 16, m / 16, 4)
  {
    assert a / 4 / 2 == a / 8 && m / 4 / 2 == m / 8;
    assert a / 4 / 4 == a / 16 && m / 4 / 4 == m / 16;
    OrPair(a / 4, m / 4, 6);
  }

  lemma OrBitsLow(a: nat, m: nat)
    ensures OrLow(a, m, 8) ==
      Either(Bit(a, 1), Bit(m, 1)) + 2 * Either(Bit(a, 2), Bit(m, 2)) + 4 * Either(Bit(a, 4), Bit(m, 4)) + 8 * Either(Bit(a, 8), Bit(m, 8)) + 16 * OrLow(a / 16, m / 16, 4)
  {
    OrPair(a, m, 8);
    OrBitsMid(a, m);
  }

  lemma OrBitsHigh(a: nat, m: nat)
    ensures OrLow(a / 16, m / 16, 4) ==
      Either(Bit(a, 16), Bit(m, 16)) + 2 * Either(Bit(a, 32), Bit(m, 32)) + 4 * Either(Bit(a, 64), Bit(m, 64)) + 8 * Either(Bit(a, 128), Bit(m, 128))
  {
    assert a / 16 / 2 == a / 32 && m / 16 / 2 == m / 32;
    assert a / 16 / 4 == a / 64 && m / 16 / 4 == m / 64;
    assert a / 64 / 2 == a / 128 && m / 64 / 2 == m / 128;
    OrPair(a / 16, m / 16, 4);
    OrPair(a / 64, m / 64, 2);
  }

  /** PHP's bitwise result, bit by bit. */
  lemma OrBits(a: nat, m: nat)
    ensures OrLow(a, m, 8) ==
      Either(Bit(a, 1), Bit(m, 1)) + 2 * Either(Bit(a, 2), Bit(m, 2))
      + 4 * Either(Bit(a, 4), Bit(m, 4)) + 8 * Either(Bit(a, 8), Bit(m, 8))
      + 16 * Either(Bit(a, 16), Bit(m, 16)) + 32 * Either(Bit(a, 32), Bit(m, 32))
      + 64 * Either(Bit(a, 64), Bit(m, 64)) + 128 * Either(Bit(a, 128), Bit(m, 128))
  {
    OrBitsLow(a, m);
    OrBitsHigh(a, m);
  }

  lemma Mod4(b: nat) ensures b % 4 == b % 2 + 2 * Bit(b, 2) {}
  lemma Mod8(b: nat) ensures b % 8 == b % 4 + 4 * Bit(b, 4) {}
  lemma Mod16(b: nat) ensures b % 16 == b % 8 + 8 * Bit(b, 8) {}
  lemma Mod32(b: nat) ensures b % 32 == b % 16 + 16 * Bit(b, 16) {}
  lemma Mod64(b: nat) ensures b % 64 == b % 32 + 32 * Bit(b, 32) {}
  lemma Mod128(b: nat) ensures b % 128 == b % 64 + 64 * Bit(b, 64) {}
  lemma Mod256(b: nat) ensures b % 256 == b % 128 + 128 * Bit(b, 128) {}

  /** A byte is the sum of its bits. */
  lemma Binary(b: nat)
    requires b < 256
    ensures b % 2 == Bit(b, 1)
    ensures b % 4 == b % 2 + 2 * Bit(b, 2)
    ensures b % 8 == b % 4 + 4 * Bit(b, 4)
    ensures b % 16 == b % 8 + 8 * Bit(b, 8)
    ensures b % 32 == b % 16 + 16 * Bit(b, 16)
    ensures b % 64 == b % 32 + 32 * Bit(b, 32)
    ensures b % 128 == b % 64 + 64 * Bit(b, 64)
    ensures b == b % 128 + 128 * Bit(b, 128)
  {
    Mod4(b); Mod8(b); Mod16(b); Mod32(b); Mod64(b); Mod128(b); Mod256(b);
  }

  lemma BothOne(x: nat)
    requires x < 2
    ensures Both(x, 1) == x && Both(x, 0) == 0
  {
  }

  lemma EitherDisjoint(x: nat, y: nat)
    requires x < 2 && y < 2
    ensures Both(x, y) == 0 ==> Either(x, y) == x + y
  {
  }

  lemma HighC0(b: nat)
    requires b < 256
    ensures And(b, 0xC0) == b - b % 64
  {
    AndBits(b, 0xC0);
    Binary(b);
    assert Bit(0xC0, 1) == 0 && Bit(0xC0, 2) == 0 && Bit(0xC0, 4) == 0 && Bit(0xC0, 8) == 0;
    assert Bit(0xC0, 16) == 0 && Bit(0xC0, 32) == 0 && Bit(0xC0, 64) == 1 && Bit(0xC0, 128) == 1;
    BothOne(Bit(b, 1)); BothOne(Bit(b, 2)); BothOne(Bit(b, 4));
    BothOne(Bit(b, 8)); BothOne(Bit(b, 16)); BothOne(Bit(b, 32));
    BothOne(Bit(b, 64)); BothOne(Bit(b, 128));
  }

  lemma HighE0(b: nat)
    requires b < 256
    ensures And(b, 0xE0) == b - b % 32
  {
    AndBits(b, 0xE0);
    Binary(b);
    assert Bit(0xE0, 1) == 0 && Bit(0xE0, 2) == 0 && Bit(0xE0, 4) == 0 && Bit(0xE0, 8) == 0;
    assert Bit(0xE0, 16) == 0 && Bit(0xE0, 32) == 1 && Bit(0xE0, 64) == 1 && Bit(0xE0, 128) == 1;
    BothOne(Bit(b, 1)); BothOne(Bit(b, 2)); BothOne(Bit(b, 4));
    BothOne(Bit(b, 8)); BothOne(Bit(b, 16)); BothOne(Bit(b, 32));
    BothOne(Bit(b, 64)); BothOne(Bit(b, 128));
  }

  lemma HighF0(b: nat)
    requires b < 256
    ensures And(b, 0xF0) == b - b % 16
  {
    AndBits(b, 0xF0);
    Binary(b);
    assert Bit(0xF0, 1) == 0 && Bit(0xF0, 2) == 0 && Bit(0xF0, 4) == 0 && Bit(0xF0, 8) == 0;
    assert Bit(0xF0, 16) == 1 && Bit(0xF0, 32) == 1 && Bit(0xF0, 64) == 1 && Bit(0xF0, 128) == 1;
    BothOne(Bit(b, 1)); BothOne(Bit(b, 2)); BothOne(Bit(b, 4));
    BothOne(Bit(b, 8)); BothOne(Bit(b, 16)); BothOne(Bit(b, 32));
    BothOne(Bit(b, 64)); BothOne(Bit(b, 128));
  }

  lemma HighF8(b: nat)
    requires b < 256
    ensures And(b, 0xF8) == b - b % 8
  {
    AndBits(b, 0xF8);
    Binary(b);
    assert Bit(0xF8, 1) == 0 && Bit(0xF8, 2) == 0 && Bit(0xF8, 4) == 0 && Bit(0xF8, 8) == 1;
    assert Bit(0xF8, 16) == 1 && Bit(0xF8, 32) == 1 && Bit(0xF8, 64) == 1 && Bit(0xF8, 128) == 1;
    BothOne(Bit(b, 1)); BothOne(Bit(b, 2)); BothOne(Bit(b, 4));
    BothOne(Bit(b, 8)); BothOne(Bit(b, 16)); BothOne(Bit(b, 32));
    BothOne(Bit(b, 64)); BothOne(Bit(b, 128));
  }

  lemma MaskC0(b: nat) requires b < 256 ensures (And(b, 0xC0) == 0x80) <==> (0x80 <= b < 0xC0) { HighC0(b); }
  lemma MaskE0(b: nat) requires b < 256 ensures (And(b, 0xE0) == 0xC0) <==> (0xC0 <= b < 0xE0) { HighE0(b); }
  lemma MaskF0(b: nat) requires b < 256 ensures (And(b, 0xF0) == 0xE0) <==> (0xE0 <= b < 0xF0) { HighF0(b); }
  lemma MaskF8(b: nat) requires b < 256 ensures (And(b, 0xF8) == 0xF0) <==> (0xF0 <= b < 0xF8) { HighF8(b); }

  lemma LowC0(b: nat)
    requires b < 256
    ensures And(b, Not(0xC0)) == b % 0x40
  {
    AndBits(b, 0x3F);
    Binary(b);
    assert Bit(0x3F, 1) == 1 && Bit(0x3F, 2) == 1 && Bit(0x3F, 4) == 1 && Bit(0x3F, 8) == 1;
    assert Bit(0x3F, 16) == 1 && Bit(0x3F, 32) == 1 && Bit(0x3F, 64) == 0 && Bit(0x3F, 128) == 0;
    BothOne(Bit(b, 1)); BothOne(Bit(b, 2)); BothOne(Bit(b, 4));
    BothOne(Bit(b, 8)); BothOne(Bit(b, 16)); BothOne(Bit(b, 32));
    BothOne(Bit(b, 64)); BothOne(Bit(b, 128));
  }

  lemma LowE0(b: nat)
    requires b < 256
    ensures And(b, Not(0xE0)) == b % 0x20
  {
    AndBits(b, 0x1F);
    Binary(b);
    assert Bit(0x1F, 1) == 1 && Bit(0x1F, 2) == 1 && Bit(0x1F, 4) == 1 && Bit(0x1F, 8) == 1;
    assert Bit(0x1F, 16) == 1 && Bit(0x1F, 32) == 0 && Bit(0x1F, 64) == 0 && Bit(0x1F, 128) == 0;
    BothOne(Bit(b, 1)); BothOne(Bit(b, 2)); BothOne(Bit(b, 4));
    BothOne(Bit(b, 8)); BothOne(Bit(b, 16)); BothOne(Bit(b, 32));
    BothOne(Bit(b, 64)); BothOne(Bit(b, 128));
  }

  lemma LowF0(b: nat)
    requires b < 256
    ensures And(b, Not(0xF0)) == b % 0x10
  {
    AndBits(b, 0x0F);
    Binary(b);
    assert Bit(0x0F, 1) == 1 && Bit(0x0F, 2) == 1 && Bit(0x0F, 4) == 1 && Bit(0x0F, 8) == 1;
    assert Bit(0x0F, 16) == 0 && Bit(0x0F, 32) == 0 && Bit(0x0F, 64) == 0 && Bit(0x0F, 128) == 0;
    BothOne(Bit(b, 1)); BothOne(Bit(b, 2)); BothOne(Bit(b, 4));
    BothOne(Bit(b, 8)); BothOne(Bit(b, 16)); BothOne(Bit(b, 32));
    BothOne(Bit(b, 64)); BothOne(Bit(b, 128));
  }

  /** OR of two bytes with no bit in common is their sum. */
  lemma OrDisjoint(a: nat, m: nat)
    requires a < 256 && m < 256 && And(a, m) == 0
    ensures Or(a, m) == a + m
  {
    AndBits(a, m);
    OrBits(a, m);
    Binary(a);
    Binary(m);
    EitherDisjoint(Bit(a, 1), Bit(m, 1));
    EitherDisjoint(Bit(a, 2), Bit(m, 2));
    EitherDisjoint(Bit(a, 4), Bit(m, 4));
    EitherDisjoint(Bit(a, 8), Bit(m, 8));
    EitherDisjoint(Bit(a, 16), Bit(m, 16));
    EitherDisjoint(Bit(a, 32), Bit(m, 32));
    EitherDisjoint(Bit(a, 64), Bit(m, 64));
    EitherDisjoint(Bit(a, 128), Bit(m, 128));
  }

  lemma Tag80(h: nat)
    requires h < 0x40
    ensures Or(h, 0x80) == h + 0x80
  {
    assert Bit(h, 128) == 0;
    AndBits(h, 0x80);
    OrDisjoint(h, 0x80);
  }

  lemma TagC0(h: nat)
    requires h < 0x20
    ensures Or(h, 0xC0) == h + 0xC0
  {
    assert Bit(h, 64) == 0 && Bit(h, 128) == 0;
    AndBits(h, 0xC0);
    OrDisjoint(h, 0xC0);
  }

  lemma TagE0(h: nat)
    requires h < 0x10
    ensures Or(h, 0xE0) == h + 0xE0
  {
    assert Bit(h, 32) == 0 && Bit(h, 64) == 0 && Bit(h, 128) == 0;
    AndBits(h, 0xE0);
    OrDisjoint(h, 0xE0);
  }

  /** Width of the prefix: 1, 2, 3, 4 or 5 bytes, switching at the thresholds of PHP's `encodeLength`. */
  lemma EncodeLengthWidth(n: nat)
    ensures |EncodeLength(n)| == 1 <==> n < 0x80
    ensures |EncodeLength(n)| == 2 <==> 0x80 <= n < 0x4000
    ensures |EncodeLength(n)| == 3 <==> 0x4000 <= n < 0x20_0000
    ensures |EncodeLength(n)| == 4 <==> 0x20_0000 <= n < 0x1000_0000
    ensures |EncodeLength(n)| == 5 <==> 0x1000_0000 <= n
  {
  }

  /** A tagged leading byte that fits in a byte survives `chr`. */
  lemma TaggedByte(h: nat, tag: nat)
    requires tag < 256 && h + tag < 256 && Or(h, tag) == h + tag
    ensures Ord(Chr(Or(h, tag))) == h + tag
  {
  }

  lemma LeadingByte2(n: nat)
    requires 0x80 <= n < 0x4000
    ensures Ord(EncodeLength(n)[0]) == n / 0x100 + 0x80
  {
    var h := n / 0x100;
    assert EncodeLength(n)[0] == Chr(Or(h, 0x80));
    Tag80(h);
    TaggedByte(h, 0x80);
  }

  lemma LeadingByte3(n: nat)
    requires 0x4000 <= n < 0x20_0000
    ensures Ord(EncodeLength(n)[0]) == n / 0x1_0000 + 0xC0
  {
    var h := n / 0x1_0000;
    assert EncodeLength(n)[0] == Chr(Or(h, 0xC0));
    TagC0(h);
    TaggedByte(h, 0xC0);
  }

  lemma LeadingByte4(n: nat)
    requires 0x20_0000 <= n < 0x1000_0000
    ensures Ord(EncodeLength(n)[0]) == n / 0x100_0000 + 0xE0
  {
    var h := n / 0x100_0000;
    assert EncodeLength(n)[0] == Chr(Or(h, 0xE0));
    TagE0(h);
    TaggedByte(h, 0xE0);
  }

  /** The encoder's leading byte for each width, as a number. */
  lemma {:induction false} LeadingByte(n: nat)
    requires n < WORD_LIMIT
    ensures var b := Ord(EncodeLength(n)[0]);
      && (n < 0x80 ==> b == n)
      && (0x80 <= n < 0x4000 ==> b == n / 0x100 + 0x80)
      && (0x4000 <= n < 0x20_0000 ==> b == n / 0x1_0000 + 0xC0)
      && (0x20_0000 <= n < 0x1000_0000 ==> b == n / 0x100_0000 + 0xE0)
      && (0x1000_0000 <= n ==> b == 0xF0)
  {
    if n < 0x80 {
    } else if n < 0x4000 {
      LeadingByte2(n);
    } else if n < 0x20_0000 {
      LeadingByte3(n);
    } else if n < 0x1000_0000 {
      LeadingByte4(n);
    }
  }

  /**
   * The leading byte the encoder emits lies in exactly the class the decoder
   * tests for that width: below 0x80, then 10xxxxxx, 110xxxxx, 1110xxxx, and
   * exactly 0xF0 for the 5-byte form.
   */
  lemma {:induction false} LeadingByteClass(n: nat)
    requires n < WORD_LIMIT
    ensures var b := Ord(EncodeLength(n)[0]);
      && (n < 0x80 <==> b < 0x80)
      && (0x80 <= n < 0x4000 <==> And(b, 0xC0) == 0x80)
      && (0x4000 <= n < 0x20_0000 <==> And(b, 0xE0) == 0xC0)
      && (0x20_0000 <= n < 0x1000_0000 <==> And(b, 0xF0) == 0xE0)
      && (0x1000_0000 <= n <==> b == 0xF0)
  {
    var b := Ord(EncodeLength(n)[0]);
    LeadingByte(n);
    MaskC0(b);
    MaskE0(b);
    MaskF0(b);
  }

  /**
   * The tests of PHP's `decodeLength` on a leading byte `b` that is not
   * below 0x80: each mask test holds exactly on the range the decoder's case
   * covers, and `b & ~mask` is the offset of `b` within that range.
   */
  lemma LeadByteMasks(b: nat)
    requires 0x80 <= b < 256
    ensures (And(b, 0xC0) == 0x80) <==> b < 0xC0
    ensures And(b, 0xC0) != 0x80 ==> ((And(b, 0xE0) == 0xC0) <==> b < 0xE0)
    ensures And(b, 0xC0) != 0x80 && And(b, 0xE0) != 0xC0 ==> ((And(b, 0xF0) == 0xE0) <==> b < 0xF0)
    ensures (And(b, 0xC0) != 0x80 && And(b, 0xE0) != 0xC0 && And(b, 0xF0) != 0xE0)
              ==> ((And(b, 0xF8) == 0xF0) <==> b < 0xF8)
    ensures b < 0xC0 ==> And(b, Not(0xC0)) == b - 0x80
    ensures 0xC0 <= b < 0xE0 ==> And(b, Not(0xE0)) == b - 0xC0
    ensures 0xE0 <= b < 0xF0 ==> And(b, Not(0xF0)) == b - 0xE0
  {
    MaskC0(b);
    MaskE0(b);
    MaskF0(b);
    MaskF8(b);
    LowC0(b);
    LowE0(b);
    LowF0(b);
  }

  /** The `k` bytes from `pos` on, most significant first (0 past the end of the stream). */
  function BigEndian(s: Bytes, pos: nat, k: nat): (v: nat)
  {
    if k == 0 then 0 else BigEndian(s, pos, k - 1) * 0x100 + ByteAt(s, pos + k - 1)
  }

  /**
   * `DecodeLength` past a leading byte `b` of at least 0x80, read at `pos`:
   * the bits of `b` below its width tag, then the bytes of the tail as one
   * big-endian number, with the cursor after the tail; 0 and the cursor after
   * `b` when no tag matches.
   */
  lemma DecodeAfterLead(s: Bytes, pos: nat, b: nat, after: nat, len: nat, next: nat)
    requires pos < |s| && b == ByteAt(s, pos) && 0x80 <= b && after == pos + 1
    requires b < 0xC0 ==> len == (b - 0x80) * 0x100 + BigEndian(s, after, 1) && next == Skip(s, after, 1)
    requires 0xC0 <= b < 0xE0 ==> len == (b - 0xC0) * 0x1_0000 + BigEndian(s, after, 2) && next == Skip(s, after, 2)
    requires 0xE0 <= b < 0xF0 ==> len == (b - 0xE0) * 0x100_0000 + BigEndian(s, after, 3) && next == Skip(s, after, 3)
    requires 0xF0 <= b < 0xF8 ==> len == BigEndian(s, after, 4) && next == Skip(s, after, 4)
    requires 0xF8 <= b ==> len == 0 && next == after
    ensures DecodeLength(s, pos) == (len, next)
  {
    assert BigEndian(s, after, 1) == ByteAt(s, after);
    assert BigEndian(s, after, 2) == ByteAt(s, after) * 0x100 + ByteAt(s, after + 1);
    assert BigEndian(s, after, 3) == BigEndian(s, after, 2) * 0x100 + ByteAt(s, after + 2);
    assert BigEndian(s, after, 4) == BigEndian(s, after, 3) * 0x100 + ByteAt(s, after + 3);
  }

  /** Splitting a number into base-256 digits and joining them back. */
  lemma Digits(n: nat)
    ensures n == (n / 0x100) * 0x100 + n % 0x100
  {
  }

  lemma SplitThree(n: nat)
    ensures n == (n / 0x1_0000) * 0x1_0000 + ((n / 0x100) % 0x100) * 0x100 + n % 0x100
  {
    Digits(n);
    Digits(n / 0x100);
    assert n / 0x100 / 0x100 == n / 0x1_0000;
  }

  lemma SplitFour(n: nat)
    ensures n == (n / 0x100_0000) * 0x100_0000 + ((n / 0x1_0000) % 0x100) * 0x1_0000
                 + ((n / 0x100) % 0x100) * 0x100 + n % 0x100
    ensures n < WORD_LIMIT ==> n / 0x100_0000 < 0x100
  {
    SplitThree(n);
    Digits(n / 0x1_0000);
    assert n / 0x1_0000 / 0x100 == n / 0x100_0000;
  }

  lemma Join2(n: nat, b0: nat, b1: nat)
    requires 0x80 <= n < 0x4000
    requires b0 == n / 0x100 + 0x80 && b1 == n % 0x100
    ensures (b0 - 0x80) * 0x100 + b1 == n
  {
    Digits(n);
  }

  lemma Join3(n: nat, b0: nat, b1: nat, b2: nat)
    requires 0x4000 <= n < 0x20_0000
    requires b0 == n / 0x1_0000 + 0xC0
    requires b1 == (n / 0x100) % 0x100 && b2 == n % 0x100
    ensures (b0 - 0xC0) * 0x1_0000 + b1 * 0x100 + b2 == n
  {
    SplitThree(n);
  }

  lemma Join4Tagged(n: nat, b0: nat, b1: nat, b2: nat, b3: nat)
    requires 0x20_0000 <= n < 0x1000_0000
    requires b0 == n / 0x100_0000 + 0xE0
    requires b1 == (n / 0x1_0000) % 0x100
    requires b2 == (n / 0x100) % 0x100 && b3 == n % 0x100
    ensures (b0 - 0xE0) * 0x100_0000 + b1 * 0x1_0000 + b2 * 0x100 + b3 == n
  {
    SplitFour(n);
  }

  lemma Join4(n: nat, b1: nat, b2: nat, b3: nat, b4: nat)
    requires n < WORD_LIMIT
    requires b1 == (n / 0x100_0000) % 0x100 && b2 == (n / 0x1_0000) % 0x100
    requires b3 == (n / 0x100) % 0x100 && b4 == n % 0x100
    ensures b1 * 0x100_0000 + b2 * 0x1_0000 + b3 * 0x100 + b4 == n
  {
    SplitFour(n);
  }

  /** Reading back the bytes the encoder wrote, position by position. */
  lemma {:induction false} EncodedBytes(pre: Bytes, n: nat, rest: Bytes)
    ensures var e := EncodeLength(n); var s := pre + e + rest;
      forall k :: 0 <= k < |e| ==> ByteAt(s, |pre| + k) == Ord(e[k])
  {
  }

  // The round trip, one width at a time: first the bytes the encoder lays
  // down, then what the decoder makes of those bytes.

  lemma {:induction false} Layout2(pre: Bytes, n: nat, rest: Bytes)
    requires 0x80 <= n < 0x4000
    ensures var s := pre + EncodeLength(n) + rest; var p := |pre|;
      p + 2 <= |s| && ByteAt(s, p) == n / 0x100 + 0x80 && ByteAt(s, p + 1) == n % 0x100
  {
    EncodedBytes(pre, n, rest);
    LeadingByte(n);
  }

  lemma {:induction false} Decode2(s: Bytes, p: nat, n: nat)
    requires 0x80 <= n < 0x4000 && p + 2 <= |s|
    requires ByteAt(s, p) == n / 0x100 + 0x80 && ByteAt(s, p + 1) == n % 0x100
    ensures DecodeLength(s, p) == (n, p + 2)
  {
    Join2(n, ByteAt(s, p), ByteAt(s, p + 1));
  }

  lemma {:induction false} Layout3(pre: Bytes, n: nat, rest: Bytes)
    requires 0x4000 <= n < 0x20_0000
    ensures var s := pre + EncodeLength(n) + rest; var p := |pre|;
      && p + 3 <= |s| && ByteAt(s, p) == n / 0x1_0000 + 0xC0
      && ByteAt(s, p + 1) == (n / 0x100) % 0x100 && ByteAt(s, p + 2) == n % 0x100
  {
    EncodedBytes(pre, n, rest);
    LeadingByte(n);
  }

  lemma {:induction false} Decode3(s: Bytes, p: nat, n: nat)
    requires 0x4000 <= n < 0x20_0000 && p + 3 <= |s|
    requires ByteAt(s, p) == n / 0x1_0000 + 0xC0
    requires ByteAt(s, p + 1) == (n / 0x100) % 0x100 && ByteAt(s, p + 2) == n % 0x100
    ensures DecodeLength(s, p) == (n, p + 3)
  {
    Join3(n, ByteAt(s, p), ByteAt(s, p + 1), ByteAt(s, p + 2));
  }

  lemma {:induction false} Layout4(pre: Bytes, n: nat, rest: Bytes)
    requires 0x20_0000 <= n < 0x1000_0000
    ensures var s := pre + EncodeLength(n) + rest; var p := |pre|;
      && p + 4 <= |s| && ByteAt(s, p) == n / 0x100_0000 + 0xE0
      && ByteAt(s, p + 1) == (n / 0x1_0000) % 0x100
      && ByteAt(s, p + 2) == (n / 0x100) % 0x100 && ByteAt(s, p + 3) == n % 0x100
  {
    EncodedBytes(pre, n, rest);
    LeadingByte(n);
  }

  lemma {:induction false} Decode4(s: Bytes, p: nat, n: nat)
    requires 0x20_0000 <= n < 0x1000_0000 && p + 4 <= |s|
    requires ByteAt(s, p) == n / 0x100_0000 + 0xE0
    requires ByteAt(s, p + 1) == (n / 0x1_0000) % 0x100
    requires ByteAt(s, p + 2) == (n / 0x100) % 0x100 && ByteAt(s, p + 3) == n % 0x100
    ensures DecodeLength(s, p) == (n, p + 4)
  {
    Join4Tagged(n, ByteAt(s, p), ByteAt(s, p + 1), ByteAt(s, p + 2), ByteAt(s, p + 3));
  }

  lemma {:induction false} Layout5(pre: Bytes, n: nat, rest: Bytes)
    requires 0x1000_0000 <= n < WORD_LIMIT
    ensures var s := pre + EncodeLength(n) + rest; var p := |pre|;
      && p + 5 <= |s| && ByteAt(s, p) == 0xF0
      && ByteAt(s, p + 1) == (n / 0x100_0000) % 0x100
      && ByteAt(s, p + 2) == (n / 0x1_0000) % 0x100
      && ByteAt(s, p + 3) == (n / 0x100) % 0x100 && ByteAt(s, p + 4) == n % 0x100
  {
    EncodedBytes(pre, n, rest);
    LeadingByte(n);
  }

  lemma {:induction false} Decode5(s: Bytes, p: nat, n: nat)
    requires 0x1000_0000 <= n < WORD_LIMIT && p + 5 <= |s|
    requires ByteAt(s, p) == 0xF0
    requires ByteAt(s, p + 1) == (n / 0x100_0000) % 0x100
    requires ByteAt(s, p + 2) == (n / 0x1_0000) % 0x100
    requires ByteAt(s, p + 3) == (n / 0x100) % 0x100 && ByteAt(s, p + 4) == n % 0x100
    ensures DecodeLength(s, p) == (n, p + 5)
  {
    Join4(n, ByteAt(s, p + 1), ByteAt(s, p + 2), ByteAt(s, p + 3), ByteAt(s, p + 4));
  }

  /**
   * Round trip of the length codec: for every length below 2^32, decoding the
   * encoder's bytes, wherever they sit in the stream, gives the length back and
   * consumes exactly the bytes produced, whatever follows them.
   */
  lemma {:induction false} DecodeEncodeLength(pre: Bytes, n: nat, rest: Bytes)
    requires n < WORD_LIMIT
    ensures var s := pre + EncodeLength(n) + rest;
      DecodeLength(s, |pre|) == (n, |pre| + |EncodeLength(n)|)
  {
    var s := pre + EncodeLength(n) + rest;
    if n < 0x80 {
      EncodedBytes(pre, n, rest);
    } else if n < 0x4000 {
      Layout2(pre, n, rest);
      Decode2(s, |pre|, n);
    } else if n < 0x20_0000 {
      Layout3(pre, n, rest);
      Decode3(s, |pre|, n);
    } else if n < 0x1000_0000 {
      Layout4(pre, n, rest);
      Decode4(s, |pre|, n);
    } else {
      Layout5(pre, n, rest);
      Decode5(s, |pre|, n);
    }
  }

  /** The round trip stated for a prefix found at any position of a stream. */
  lemma DecodeEncodedAt(s: Bytes, pos: nat, n: nat)
    requires n < WORD_LIMIT
    requires pos + |EncodeLength(n)| <= |s| && s[pos..pos + |EncodeLength(n)|] == EncodeLength(n)
    ensures DecodeLength(s, pos) == (n, pos + |EncodeLength(n)|)
  {
    var e := EncodeLength(n);
    assert s == s[..pos] + e + s[pos + |e|..];
    DecodeEncodeLength(s[..pos], n, s[pos + |e|..]);
  }

  /**
   * A leading byte 0xF8-0xFF decodes as length 0 and consumes one byte: the
   * reader cannot tell it from the zero-length terminator.
   */
  lemma {:induction false} InvalidLeadIsTerminator(s: Bytes, pos: nat)
    requires pos < |s| && Ord(s[pos]) >= 0xF8
    ensures DecodeLength(s, pos) == (0, pos + 1)
  {
  }

  /** The worked example: 130 is sent as 0x80 0x82 and read back as 130. */
  lemma LengthExample130()
    ensures EncodeLength(130) == [0x80 as char, 0x82 as char]
    ensures DecodeLength([0x80 as char, 0x82 as char], 0) == (130, 2)
  {
    var e := EncodeLength(130);
    LeadingByte2(130);
    assert Ord(e[0]) == 0x80 && Ord(e[1]) == 0x82;
    DecodeEncodeLength([], 130, []);
    assert [] + e + [] == e;
  }
}
