/**
  The packed structures of ICO_CUR.cpp and their byte layouts.

  A group resource (RT_GROUP_ICON / RT_GROUP_CURSOR) is an ICO_CUR_HEADER
  followed by wNumImages 14-byte ICO_CUR_RT_ENTRY records; an .ico/.cur
  file is the same header followed by 16-byte ICO_CUR_ENTRY records and
  then the image payloads.
 */
module IcoCurLayout {
  import opened Bytes

  const ICO_ID: word := 1
  const CUR_ID: word := 2

  const HEADER_SIZE: nat := 6     // sizeof(ICO_CUR_HEADER)
  const RT_ENTRY_SIZE: nat := 14  // sizeof(ICO_CUR_RT_ENTRY)
  const ENTRY_SIZE: nat := 16     // sizeof(ICO_CUR_ENTRY)
  const HOTSPOT_SIZE: nat := 4    // sizeof(CUR_HOTSPOT)

  /** ICO_CUR_HEADER. */
  datatype Header = Header(reserved: word, resId: word, numImages: word)

  function EncodeHeader(h: Header): (r: seq<byte>)
    ensures |r| == HEADER_SIZE
  {
    EncodeWord(h.reserved) + EncodeWord(h.resId) + EncodeWord(h.numImages)
  }

  function DecodeHeader(s: seq<byte>): Header
    requires HEADER_SIZE <= |s|
  {
    Header(Word(s, 0), Word(s, 2), Word(s, 4))
  }

  lemma DecodeEncodeHeader(h: Header, rest: seq<byte>)
    ensures DecodeHeader(EncodeHeader(h) + rest) == h
  {
    var s := EncodeHeader(h) + rest;
    WordOfSlice(s, 0, 2, 0);
    WordOfSlice(s, 2, 4, 0);
    WordOfSlice(s, 4, 6, 0);
    assert s[0 .. 2] == EncodeWord(h.reserved);
    assert s[2 .. 4] == EncodeWord(h.resId);
    assert s[4 .. 6] == EncodeWord(h.numImages);
  }

  /**
    ICO_CUR_RT_ENTRY. The first four bytes are a union: for an icon they
    are bWidth, bHeight, bColorCount, bReserved; for a cursor they are the
    WORDs wWidth and wHeight (twice the real height), read by CurWidth and
    CurHeight.
   */
  datatype RtEntry = RtEntry(
    width: byte, height: byte, colorCount: byte, reserved: byte,
    planes: word, bitCount: word, size: dword, id: word)
  {
    function CurWidth(): word { width as int + 0x100 * height as int }
    function CurHeight(): word { colorCount as int + 0x100 * reserved as int }
  }

  /** Number of directory entries a group's header declares. */
  function NumImages(g: seq<byte>): word
    requires HEADER_SIZE <= |g|
  {
    Word(g, 4)
  }

  /** The group is long enough for the entries its header declares. */
  predicate WellFormedGroup(g: seq<byte>)
  {
    HEADER_SIZE <= |g| && HEADER_SIZE + 14 * NumImages(g) <= |g|
  }

  /** Offset of directory entry j inside a group resource. */
  function RtEntryOffset(j: nat): nat
  {
    HEADER_SIZE + 14 * j
  }

  /** Directory entry j of a group resource. */
  function RtEntryAt(g: seq<byte>, j: nat): RtEntry
    requires WellFormedGroup(g) && j < NumImages(g)
  {
    var o := RtEntryOffset(j);
    assert o + RT_ENTRY_SIZE <= |g| by {
      assert 14 * (j + 1) <= 14 * NumImages(g);
    }
    RtEntry(g[o], g[o + 1], g[o + 2], g[o + 3],
            Word(g, o + 4), Word(g, o + 6), Dword(g, o + 8), Word(g, o + 12))
  }

  /**
    ICO_CUR_ENTRY. Bytes 4-7 are a union: wPlanes and wBitCount for an
    icon, the hotspot wHotspotX and wHotspotY for a cursor.
   */
  datatype Entry = Entry(
    width: byte, height: byte, colorCount: byte, reserved: byte,
    planesOrHotspotX: word, bitCountOrHotspotY: word,
    size: dword, offset: dword)

  function EncodeEntry(e: Entry): (r: seq<byte>)
    ensures |r| == ENTRY_SIZE
  {
    [e.width, e.height, e.colorCount, e.reserved]
    + EncodeWord(e.planesOrHotspotX) + EncodeWord(e.bitCountOrHotspotY)
    + EncodeDword(e.size) + EncodeDword(e.offset)
  }

  /** The entry stored at s[i .. i + 16]. */
  function DecodeEntry(s: seq<byte>, i: nat): Entry
    requires i + ENTRY_SIZE <= |s|
  {
    Entry(s[i], s[i + 1], s[i + 2], s[i + 3],
          Word(s, i + 4), Word(s, i + 6), Dword(s, i + 8), Dword(s, i + 12))
  }

  /** Reading back an encoded entry at its start gives the entry. */
  lemma DecodeEncodeEntryAtStart(e: Entry)
    ensures DecodeEntry(EncodeEntry(e), 0) == e
  {
    var r := EncodeEntry(e);
    var head := [e.width, e.height, e.colorCount, e.reserved] + EncodeWord(e.planesOrHotspotX)
                + EncodeWord(e.bitCountOrHotspotY);
    assert r == head + (EncodeDword(e.size) + EncodeDword(e.offset));
    assert r[4 .. 6] == EncodeWord(e.planesOrHotspotX);
    assert r[6 .. 8] == EncodeWord(e.bitCountOrHotspotY);
    assert r[8 .. 12] == EncodeDword(e.size);
    assert r[12 .. 16] == EncodeDword(e.offset);
    WordOfSlice(r, 4, 6, 0);
    WordOfSlice(r, 6, 8, 0);
    DwordOfSlice(r, 8, 12, 0);
    DwordOfSlice(r, 12, 16, 0);
  }

  /** Reading back an encoded entry gives the entry, wherever it is stored. */
  lemma DecodeEncodeEntry(e: Entry, s: seq<byte>, i: nat)
    requires i + ENTRY_SIZE <= |s| && s[i .. i + ENTRY_SIZE] == EncodeEntry(e)
    ensures DecodeEntry(s, i) == e
  {
    var w := s[i .. i + ENTRY_SIZE];
    DecodeEncodeEntryAtStart(e);
    WordOfSlice(s, i, i + ENTRY_SIZE, 4);
    WordOfSlice(s, i, i + ENTRY_SIZE, 6);
    DwordOfSlice(s, i, i + ENTRY_SIZE, 8);
    DwordOfSlice(s, i, i + ENTRY_SIZE, 12);
    assert DecodeEntry(s, i) == DecodeEntry(w, 0);
  }

  /** Encoding an entry read from memory restores the sixteen bytes read. */
  lemma EncodeDecodeEntry(s: seq<byte>, i: nat)
    requires i + ENTRY_SIZE <= |s|
    ensures EncodeEntry(DecodeEntry(s, i)) == s[i .. i + ENTRY_SIZE]
  {
    EncodeWordOfWord(s, i + 4);
    EncodeWordOfWord(s, i + 6);
    EncodeDwordOfDword(s, i + 8);
    EncodeDwordOfDword(s, i + 12);
  }

  /** Every block is one file-form entry long. */
  predicate EntrySized(bs: seq<seq<byte>>)
  {
    forall i :: 0 <= i < |bs| ==> |bs[i]| == ENTRY_SIZE
  }

  /** A container's directory so far: header h followed by the first k encoded entries bs. */
  function Directory(h: seq<byte>, bs: seq<seq<byte>>, k: nat): (r: seq<byte>)
    requires EntrySized(bs) && k <= |bs|
    ensures |r| == |h| + 16 * k
  {
    if k == 0 then h else Directory(h, bs, k - 1) + bs[k - 1]
  }

  /** One more block extends the directory by that block. */
  lemma DirectoryStep(h: seq<byte>, bs: seq<seq<byte>>, i: nat)
    requires EntrySized(bs) && i < |bs|
    ensures Directory(h, bs, i + 1) == Directory(h, bs, i) + bs[i]
  {
  }

  /** Every directory prefix starts with its header. */
  lemma {:induction false} DirectoryHeader(h: seq<byte>, bs: seq<seq<byte>>, k: nat)
    requires EntrySized(bs) && k <= |bs|
    ensures Directory(h, bs, k)[..|h|] == h
  {
    if k > 0 {
      DirectoryHeader(h, bs, k - 1);
    }
  }

  /** Entry i sits at |h| + 16 * i in every directory prefix that includes it. */
  lemma {:induction false} DirectoryAt(h: seq<byte>, bs: seq<seq<byte>>, k: nat, i: nat)
    requires EntrySized(bs) && i < k <= |bs|
    ensures Directory(h, bs, k)[|h| + 16 * i .. |h| + 16 * (i + 1)] == bs[i]
  {
    if i < k - 1 {
      DirectoryAt(h, bs, k - 1, i);
      assert Directory(h, bs, k)[|h| + 16 * i .. |h| + 16 * (i + 1)]
          == Directory(h, bs, k - 1)[|h| + 16 * i .. |h| + 16 * (i + 1)];
    }
  }

  // A rebuilt .ico/.cur file: header h, the entries bs, then the payloads ps.

  /** The first k pieces of ps, back to back. */
  function Concat(ps: seq<seq<byte>>, k: nat): seq<byte>
    requires k <= |ps|
  {
    if k == 0 then [] else Concat(ps, k - 1) + ps[k - 1]
  }

  /** One more piece appends that piece. */
  lemma ConcatStep(ps: seq<seq<byte>>, i: nat)
    requires i < |ps|
    ensures Concat(ps, i + 1) == Concat(ps, i) + ps[i]
  {
  }

  /** The first i pieces are a prefix of the first k. */
  lemma {:induction false} ConcatPrefix(ps: seq<seq<byte>>, i: nat, k: nat)
    requires i <= k <= |ps|
    ensures Concat(ps, i) <= Concat(ps, k)
  {
    if i < k {
      ConcatPrefix(ps, i, k - 1);
    }
  }

  /** The container: header, every entry, every payload. */
  function Container(h: seq<byte>, bs: seq<seq<byte>>, ps: seq<seq<byte>>): seq<byte>
    requires EntrySized(bs) && |ps| == |bs|
  {
    Directory(h, bs, |bs|) + Concat(ps, |ps|)
  }

  /** Where payload i starts in a container with n entries. */
  function PieceStart(h: seq<byte>, n: nat, ps: seq<seq<byte>>, i: nat): nat
    requires i <= |ps|
  {
    |h| + 16 * n + |Concat(ps, i)|
  }

  /** The container with only its first i entries and payloads written, zeros in the other entry slots. */
  function Partial(h: seq<byte>, bs: seq<seq<byte>>, ps: seq<seq<byte>>, i: nat): seq<byte>
    requires EntrySized(bs) && |ps| == |bs| && i <= |bs|
  {
    Directory(h, bs, i) + Zeros(16 * (|bs| - i)) + Concat(ps, i)
  }

  /** Nothing written yet: the header and zeroed entry slots. */
  lemma PartialStart(h: seq<byte>, bs: seq<seq<byte>>, ps: seq<seq<byte>>)
    requires EntrySized(bs) && |ps| == |bs|
    ensures Partial(h, bs, ps, 0) == h + Zeros(16 * |bs|)
  {
  }

  /** Appending payload i and writing entry i into its slot gives the next partial container. */
  lemma PartialStep(h: seq<byte>, bs: seq<seq<byte>>, ps: seq<seq<byte>>, i: nat, at: nat)
    requires EntrySized(bs) && |ps| == |bs| && i < |bs| && at == |h| + 16 * i
    ensures var grown := Partial(h, bs, ps, i) + ps[i];
      && at + ENTRY_SIZE <= |grown|
      && grown[..at] + bs[i] + grown[at + ENTRY_SIZE..] == Partial(h, bs, ps, i + 1)
  {
    FillSlot(Directory(h, bs, i), 16 * (|bs| - i), 16 * (|bs| - (i + 1)), Concat(ps, i), ps[i], bs[i], at);
    DirectoryStep(h, bs, i);
    ConcatStep(ps, i);
  }

  /** Everything written: the container. */
  lemma PartialEnd(h: seq<byte>, bs: seq<seq<byte>>, ps: seq<seq<byte>>, i: nat)
    requires EntrySized(bs) && |ps| == |bs| && i == |bs|
    ensures Partial(h, bs, ps, i) == Container(h, bs, ps)
  {
    assert Zeros(16 * (|bs| - i)) == [];
  }

  /** The container starts with its header. */
  lemma ContainerHeader(h: seq<byte>, bs: seq<seq<byte>>, ps: seq<seq<byte>>)
    requires EntrySized(bs) && |ps| == |bs|
    ensures |h| <= |Container(h, bs, ps)| && Container(h, bs, ps)[..|h|] == h
  {
    DirectoryHeader(h, bs, |bs|);
  }

  /** Entry i sits at at == |h| + 16 * i. */
  lemma ContainerEntry(h: seq<byte>, bs: seq<seq<byte>>, ps: seq<seq<byte>>, i: nat, at: nat)
    requires EntrySized(bs) && |ps| == |bs| && i < |bs| && at == |h| + 16 * i
    ensures at + ENTRY_SIZE <= |Container(h, bs, ps)|
    ensures Container(h, bs, ps)[at .. at + ENTRY_SIZE] == bs[i]
  {
    DirectoryAt(h, bs, |bs|, i);
    HeadWindow(Directory(h, bs, |bs|), Concat(ps, |ps|), at, at + ENTRY_SIZE);
  }

  /** Payload i sits at start == PieceStart(i), and the next one starts where it ends. */
  lemma ContainerPiece(h: seq<byte>, bs: seq<seq<byte>>, ps: seq<seq<byte>>, i: nat, start: nat, len: nat)
    requires EntrySized(bs) && |ps| == |bs| && i < |bs|
    requires start == PieceStart(h, |bs|, ps, i) && len == |ps[i]|
    ensures PieceStart(h, |bs|, ps, i + 1) == start + len
    ensures start + len <= |Container(h, bs, ps)|
    ensures Container(h, bs, ps)[start .. start + len] == ps[i]
  {
    ConcatPrefix(ps, i + 1, |ps|);
    ConcatStep(ps, i);
    PieceOf(Directory(h, bs, |bs|), Concat(ps, |ps|), Concat(ps, i + 1), Concat(ps, i), ps[i]);
  }

  /** The container ends where the last payload ends. */
  lemma ContainerLength(h: seq<byte>, bs: seq<seq<byte>>, ps: seq<seq<byte>>)
    requires EntrySized(bs) && |ps| == |bs|
    ensures |Container(h, bs, ps)| == PieceStart(h, |bs|, ps, |ps|)
  {
  }
}
