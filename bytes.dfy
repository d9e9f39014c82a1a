/**
  Fixed-width unsigned integers (BYTE, WORD, DWORD) and the little-endian
  byte layout the packed Windows structures use for them.
 */
module Bytes {

  type byte = x: int | 0 <= x < 0x100
  type word = x: int | 0 <= x < 0x1_0000
  type dword = x: int | 0 <= x < 0x1_0000_0000

  /** The WORD stored little-endian at s[i], s[i + 1]. */
  function Word(s: seq<byte>, i: nat): word
    requires i + 2 <= |s|
  {
    s[i] as int + 0x100 * s[i + 1] as int
  }

  /** The DWORD stored little-endian at s[i .. i + 4]. */
  function Dword(s: seq<byte>, i: nat): dword
    requires i + 4 <= |s|
  {
    Word(s, i) as int + 0x1_0000 * Word(s, i + 2) as int
  }

  function EncodeWord(w: word): (r: seq<byte>)
    ensures |r| == 2 && Word(r, 0) == w
  {
    [w % 0x100, w / 0x100]
  }

  function EncodeDword(d: dword): (r: seq<byte>)
    ensures |r| == 4 && Dword(r, 0) == d
  {
    EncodeWord(d % 0x1_0000) + EncodeWord(d / 0x1_0000)
  }

  /** Encoding a word read back from memory restores the two bytes read. */
  lemma EncodeWordOfWord(s: seq<byte>, i: nat)
    requires i + 2 <= |s|
    ensures EncodeWord(Word(s, i)) == s[i .. i + 2]
  {
  }

  /** Encoding a dword read back from memory restores the four bytes read. */
  lemma EncodeDwordOfDword(s: seq<byte>, i: nat)
    requires i + 4 <= |s|
    ensures EncodeDword(Dword(s, i)) == s[i .. i + 4]
  {
    var lo, hi := Word(s, i), Word(s, i + 2);
    assert Dword(s, i) % 0x1_0000 == lo && Dword(s, i) / 0x1_0000 == hi;
    EncodeWordOfWord(s, i);
    EncodeWordOfWord(s, i + 2);
  }

  /** A word read at offset k of a window of s is the word at i + k of s. */
  lemma WordOfSlice(s: seq<byte>, i: nat, j: nat, k: nat)
    requires i <= j <= |s| && k + 2 <= j - i
    ensures Word(s[i .. j], k) == Word(s, i + k)
  {
  }

  /** A dword read at offset k of a window of s is the dword at i + k of s. */
  lemma DwordOfSlice(s: seq<byte>, i: nat, j: nat, k: nat)
    requires i <= j <= |s| && k + 4 <= j - i
    ensures Dword(s[i .. j], k) == Dword(s, i + k)
  {
    WordOfSlice(s, i, j, k);
    WordOfSlice(s, i, j, k + 2);
  }

  /** `n` bytes of zero: the contents given to freshly allocated memory. */
  function Zeros(n: nat): (r: seq<byte>)
    ensures |r| == n && forall i :: 0 <= i < n ==> r[i] == 0
  {
    seq(n, _ => 0)
  }

  /** A window of p seen through a + p. */
  lemma ShiftedWindow(a: seq<byte>, p: seq<byte>, i: nat, j: nat)
    requires i <= j <= |p|
    ensures (a + p)[|a| + i .. |a| + j] == p[i..j]
  {
  }

  /** A window of a seen through a + p. */
  lemma HeadWindow(a: seq<byte>, p: seq<byte>, i: nat, j: nat)
    requires i <= j <= |a|
    ensures (a + p)[i..j] == a[i..j]
  {
  }

  /** A window inside a prefix q of p is the same window of p. */
  lemma PrefixWindow(q: seq<byte>, p: seq<byte>, i: nat, j: nat)
    requires q <= p && i <= j <= |q|
    ensures p[i..j] == q[i..j]
  {
  }

  /** When b + m is a prefix of p, m sits right after b in a + p. */
  lemma PieceOf(a: seq<byte>, p: seq<byte>, q: seq<byte>, b: seq<byte>, m: seq<byte>)
    requires q == b + m && q <= p
    ensures |a| + |b| + |m| <= |a + p|
    ensures (a + p)[|a| + |b| .. |a| + |b| + |m|] == m
  {
    assert q[|b| .. |b| + |m|] == m;
    PrefixWindow(q, p, |b|, |b| + |m|);
    ShiftedWindow(a, p, |b|, |b| + |m|);
  }

  /** Zeros of a + b bytes are zeros of a bytes followed by zeros of b bytes. */
  lemma ZerosSplit(a: nat, b: nat)
    ensures Zeros(a + b) == Zeros(a) + Zeros(b)
  {
  }

  /**
    Writing e at offset at == |dir|, over the first |e| of the z zero bytes
    that follow dir, after appending pay: dir grows by e, m zeros remain,
    pay joins pre.
   */
  lemma FillSlot(dir: seq<byte>, z: nat, m: nat, pre: seq<byte>, pay: seq<byte>, e: seq<byte>, at: nat)
    requires at == |dir| && z == |e| + m
    ensures var d := dir + Zeros(z) + pre + pay;
      && at + |e| <= |d|
      && d[..at] + e + d[at + |e|..] == (dir + e) + Zeros(m) + (pre + pay)
  {
    var w, r := Zeros(|e|), Zeros(m);
    ZerosSplit(|e|, m);
    var d := dir + (w + r) + pre + pay;
    assert d[..at] == dir;
    assert d[at + |e|..] == r + pre + pay;
  }
}
