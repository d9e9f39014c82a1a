/**
  The resource dumpers of PEResourceDump.cpp: the DIB to BMP conversion,
  the image signature test, the conditions under which each dumper takes
  a resource, and the loop that hands a resource to the first dumper that
  takes it.
 */
module PEResourceDump {
  import opened Wrappers
  import opened Bytes
  import opened Resources
  import opened General
  import opened IcoCur

  // ---------------------------------------------------------------------
  // dib2bmp
  // ---------------------------------------------------------------------

  const BMP_HEADER_SIZE: nat := 14  // sizeof(BITMAPFILEHEADER)
  const BMP_TYPE: word := 0x4D42    // "BM"

  /** A BITMAPFILEHEADER: bfType, bfSize, the two reserved words, bfOffBits. */
  function BmpHeader(size: dword, offBits: dword): (h: seq<byte>)
    ensures |h| == BMP_HEADER_SIZE
    ensures Word(h, 0) == BMP_TYPE && Dword(h, 2) == size
    ensures Word(h, 6) == 0 && Word(h, 8) == 0 && Dword(h, 10) == offBits
  {
    var t, s, r1, r2, o := EncodeWord(BMP_TYPE), EncodeDword(size), EncodeWord(0), EncodeWord(0), EncodeDword(offBits);
    var h := t + s + r1 + r2 + o;
    assert h[2..6] == s && h[6..8] == r1 && h[8..10] == r2 && h[10..14] == o;
    WordOfSlice(h, 6, 8, 0);
    WordOfSlice(h, 8, 10, 0);
    DwordOfSlice(h, 2, 6, 0);
    DwordOfSlice(h, 10, 14, 0);
    h
  }

  /**
    The file dib2bmp makes of a DIB as the source writes it: bfSize is the
    new length cast to a WORD before it is stored in the DWORD field.
   */
  function BmpFileAsWritten(dib: seq<byte>): seq<byte>
    requires 4 <= |dib|
  {
    BmpHeader((|dib| + BMP_HEADER_SIZE) % 0x1_0000, (Dword(dib, 0) + BMP_HEADER_SIZE) % 0x1_0000_0000) + dib
  }

  /**
    The file dib2bmp is meant to make of a DIB: the header, with bfSize the
    new length as a DWORD and bfOffBits the DIB's header size (its first
    DWORD) plus the file header, followed by the DIB unchanged.
   */
  function BmpFile(dib: seq<byte>): seq<byte>
    requires 4 <= |dib|
  {
    BmpHeader((|dib| + BMP_HEADER_SIZE) % 0x1_0000_0000, (Dword(dib, 0) + BMP_HEADER_SIZE) % 0x1_0000_0000) + dib
  }

  /** BmpFileAsWritten with the grown size and offset given by name. */
  lemma BmpFileAsWrittenOf(dib: seq<byte>, size: nat, off: nat)
    requires 4 <= |dib| && size == |dib| + BMP_HEADER_SIZE && off == Dword(dib, 0) + BMP_HEADER_SIZE
    ensures BmpFileAsWritten(dib) == BmpHeader(size % 0x1_0000, off % 0x1_0000_0000) + dib
  {
  }

  /** A word or dword inside the file header reads the same in the whole file. */
  lemma HeaderField(h: seq<byte>, dib: seq<byte>)
    requires |h| == BMP_HEADER_SIZE
    ensures Word(h + dib, 0) == Word(h, 0) && Word(h + dib, 6) == Word(h, 6) && Word(h + dib, 8) == Word(h, 8)
    ensures Dword(h + dib, 2) == Dword(h, 2) && Dword(h + dib, 10) == Dword(h, 10)
  {
    var b := h + dib;
    assert b[..BMP_HEADER_SIZE] == h;
    WordOfSlice(b, 0, BMP_HEADER_SIZE, 0);
    WordOfSlice(b, 0, BMP_HEADER_SIZE, 6);
    WordOfSlice(b, 0, BMP_HEADER_SIZE, 8);
    DwordOfSlice(b, 0, BMP_HEADER_SIZE, 2);
    DwordOfSlice(b, 0, BMP_HEADER_SIZE, 10);
  }

  /**
    The file dib2bmp writes is 14 bytes longer than the DIB and ends with
    the DIB unchanged. Its header says "BM", carries the length modulo
    65536 as bfSize, zero reserved words, and bfOffBits the DIB's first
    DWORD plus 14.
   */
  lemma BmpLayout(dib: seq<byte>)
    requires 4 <= |dib|
    ensures var b := BmpFileAsWritten(dib);
      && |b| == |dib| + BMP_HEADER_SIZE
      && b[BMP_HEADER_SIZE..] == dib
      && Word(b, 0) == BMP_TYPE
      && Dword(b, 2) == |b| % 0x1_0000
      && Word(b, 6) == 0 && Word(b, 8) == 0
      && Dword(b, 10) == (Dword(dib, 0) + BMP_HEADER_SIZE) % 0x1_0000_0000
  {
    var h := BmpHeader((|dib| + BMP_HEADER_SIZE) % 0x1_0000, (Dword(dib, 0) + BMP_HEADER_SIZE) % 0x1_0000_0000);
    HeaderField(h, dib);
    assert BmpFileAsWritten(dib) == h + dib;
  }

  /** The corrected file has the same layout, with the full length as bfSize. */
  lemma BmpLayoutCorrected(dib: seq<byte>)
    requires 4 <= |dib|
    ensures var b := BmpFile(dib);
      && |b| == |dib| + BMP_HEADER_SIZE
      && b[BMP_HEADER_SIZE..] == dib
      && Word(b, 0) == BMP_TYPE
      && Dword(b, 2) == |b| % 0x1_0000_0000
      && Word(b, 6) == 0 && Word(b, 8) == 0
      && Dword(b, 10) == (Dword(dib, 0) + BMP_HEADER_SIZE) % 0x1_0000_0000
  {
    HeaderField(BmpHeader((|dib| + BMP_HEADER_SIZE) % 0x1_0000_0000, (Dword(dib, 0) + BMP_HEADER_SIZE) % 0x1_0000_0000), dib);
  }

  /** In the corrected file, bfSize is the file's length whenever that length fits a DWORD. */
  lemma BmpSizeField(dib: seq<byte>)
    requires 4 <= |dib| && |dib| + BMP_HEADER_SIZE < 0x1_0000_0000
    ensures Dword(BmpFile(dib), 2) == |BmpFile(dib)|
  {
    var n := |dib| + BMP_HEADER_SIZE;
    assert n % 0x1_0000_0000 == n;
    BmpLayoutCorrected(dib);
  }

  /** Below 64 KiB the WORD cast loses nothing: both files are the same. */
  lemma BmpAsWrittenBelow64K(dib: seq<byte>)
    requires 4 <= |dib| && |dib| + BMP_HEADER_SIZE < 0x1_0000
    ensures BmpFileAsWritten(dib) == BmpFile(dib)
  {
    var n := |dib| + BMP_HEADER_SIZE;
    assert n % 0x1_0000 == n % 0x1_0000_0000;
  }

  /** A DIB of exactly 64 KiB gets, as written, a bfSize of 14 instead of 65550. */
  lemma BmpSizeWrapsAt64K(dib: seq<byte>)
    requires |dib| == 0x1_0000
    ensures Dword(BmpFileAsWritten(dib), 2) == 14
    ensures |BmpFileAsWritten(dib)| == 0x1_0000 + 14
    ensures Dword(BmpFile(dib), 2) == 0x1_0000 + 14
  {
    BmpLayout(dib);
    BmpSizeField(dib);
    assert (0x1_0000 + 14) % 0x1_0000 == 14;
  }

  /** realloc: a buffer `extra` bytes longer, holding the old contents at its start. */
  method Realloc(data: array<byte>, extra: nat) returns (d: array<byte>)
    ensures fresh(d) && d.Length == data.Length + extra
    ensures d[..data.Length] == data[..]
  {
    d := new byte[data.Length + extra];
    for k := 0 to data.Length
      invariant d[..k] == data[..k]
    {
      d[k] := data[k];
    }
  }

  /**
    Shift the first n bytes of d right by gap places. The ranges overlap,
    so the bytes are copied from the end; the first `gap` bytes are left
    as they were.
   */
  method MoveRight(d: array<byte>, n: nat, gap: nat)
    requires n + gap <= d.Length
    modifies d
    ensures d[..gap] == old(d[..gap])
    ensures d[gap..gap + n] == old(d[..n])
    ensures d[gap + n..] == old(d[gap + n..])
  {
    var j := n;
    while j > 0
      invariant 0 <= j <= n
      invariant d[..j + gap] == old(d[..j + gap])
      invariant d[j + gap..gap + n] == old(d[j..n])
      invariant d[gap + n..] == old(d[gap + n..])
    {
      j := j - 1;
      d[j + gap] := d[j];
    }
  }

  /** Copy src over the start of d, leaving the rest of d alone. */
  method CopyInFront(d: array<byte>, src: seq<byte>)
    requires |src| <= d.Length
    modifies d
    ensures d[..|src|] == src
    ensures d[|src|..] == old(d[|src|..])
  {
    for k := 0 to |src|
      invariant d[..k] == src[..k]
      invariant d[|src|..] == old(d[|src|..])
    {
      d[k] := src[k];
    }
  }

  /**
    dib2bmp: grow the buffer by the 14 header bytes, shift the DIB 14 bytes
    right, then write the header in front, with the new size cast to a WORD.
   */
  method DibToBmp(data: array<byte>) returns (d: array<byte>)
    requires 4 <= data.Length
    ensures fresh(d)
    ensures d[..] == BmpFileAsWritten(data[..])
  {
    ghost var dib := data[..];
    var size := data.Length;
    var off := Dword(data[..], 0);
    d := Realloc(data, BMP_HEADER_SIZE);
    MoveRight(d, size, BMP_HEADER_SIZE);
    assert d[BMP_HEADER_SIZE..] == dib;
    size, off := size + BMP_HEADER_SIZE, off + BMP_HEADER_SIZE;
    var bmp := BmpHeader(size % 0x1_0000, off % 0x1_0000_0000);
    CopyInFront(d, bmp);
    assert d[..] == d[..BMP_HEADER_SIZE] + d[BMP_HEADER_SIZE..];
    BmpFileAsWrittenOf(dib, size, off);
  }

  // ---------------------------------------------------------------------
  // The signature test of dump_image
  // ---------------------------------------------------------------------

  const PNG_HEADER: seq<byte> := [0x89, 0x50, 0x4E, 0x47, 0x0D, 0x0A, 0x1A, 0x0A]
  const GIF_HEADER_START: seq<byte> := [0x47, 0x49, 0x46, 0x38]  // "GIF8"
  const GIF_87_HEADER: seq<byte> := [0x37, 0x61]                 // "7a"
  const GIF_89_HEADER: seq<byte> := [0x39, 0x61]                 // "9a"
  const JPEG_HEADER_START: seq<byte> := [0xFF, 0xD8, 0xFF]       // SOI and a marker
  const JPEG_1_HEADER: byte := 0xD8
  const JPEG_2_HEADER: seq<byte> := [0xE0, 0x00, 0x10, 0x4A, 0x46, 0x49, 0x46, 0x00, 0x01]  // APP0 "JFIF" 1
  const JPEG_3_HEADER: byte := 0xEE
  const JPEG_4_HEADER_START: byte := 0xE1                        // APP1
  const JPEG_4_HEADER_END: seq<byte> := [0x45, 0x78, 0x69, 0x66, 0x00, 0x00]  // "Exif" 0 0
  const JPEG_4_HEADER_GAP: nat := |JPEG_HEADER_START| + 1 + 4

  /** The tests read at most the first 14 bytes. */
  const SNIFF_SIZE: nat := 14

  datatype ImageKind = Png | Gif | Jpeg

  function Extension(k: ImageKind): string
  {
    match k
    case Png => "png"
    case Gif => "gif"
    case Jpeg => "jpg"
  }

  /** The bytes of d from offset i on start with the signature sig. */
  predicate At(d: seq<byte>, i: nat, sig: seq<byte>)
    requires i + |sig| <= |d|
  {
    d[i..i + |sig|] == sig
  }

  predicate IsPng(d: seq<byte>)
    requires SNIFF_SIZE <= |d|
  {
    At(d, 0, PNG_HEADER)
  }

  predicate IsGif(d: seq<byte>)
    requires SNIFF_SIZE <= |d|
  {
    At(d, 0, GIF_HEADER_START) && (At(d, |GIF_HEADER_START|, GIF_87_HEADER) || At(d, |GIF_HEADER_START|, GIF_89_HEADER))
  }

  /** The byte after the JPEG start is D8 or EE, or opens a JFIF APP0 segment. */
  predicate JpegMarker(d: seq<byte>)
    requires SNIFF_SIZE <= |d|
  {
    var m := |JPEG_HEADER_START|;
    d[m] == JPEG_1_HEADER || d[m] == JPEG_3_HEADER || At(d, m, JPEG_2_HEADER)
  }

  /**
    An APP1 marker at byte 3 and "Exif\0\0" at byte 8, the offset the code
    computes as 3 + 1 + 4. A standard EXIF file has its length field at
    bytes 4-5 and the identifier at byte 6, so it does not match here.
   */
  predicate ExifMarker(d: seq<byte>)
    requires SNIFF_SIZE <= |d|
  {
    d[|JPEG_HEADER_START|] == JPEG_4_HEADER_START && At(d, JPEG_4_HEADER_GAP, JPEG_4_HEADER_END)
  }

  /**
    The test as the source writes it: && binds tighter than ||, so the EXIF
    alternative stands outside the test for the JPEG start bytes.
   */
  function SniffAsWritten(d: seq<byte>): Option<ImageKind>
    requires SNIFF_SIZE <= |d|
  {
    if IsPng(d) then Some(Png)
    else if IsGif(d) then Some(Gif)
    else if (At(d, 0, JPEG_HEADER_START) && JpegMarker(d)) || ExifMarker(d) then Some(Jpeg)
    else None
  }

  /**
    The test as intended: every JPEG alternative requires the JPEG start
    bytes. Only the grouping is corrected; the EXIF identifier is still
    looked for at byte 8, as the code has it.
   */
  function Sniff(d: seq<byte>): Option<ImageKind>
    requires SNIFF_SIZE <= |d|
  {
    if IsPng(d) then Some(Png)
    else if IsGif(d) then Some(Gif)
    else if At(d, 0, JPEG_HEADER_START) && (JpegMarker(d) || ExifMarker(d)) then Some(Jpeg)
    else None
  }

  /**
    The three signatures exclude each other (their first bytes differ), so
    each answer holds exactly when its own signature is present, whatever
    the order of the tests.
   */
  lemma SniffSignatures(d: seq<byte>)
    requires SNIFF_SIZE <= |d|
    ensures Sniff(d) == Some(Png) <==> d[..8] == PNG_HEADER
    ensures Sniff(d) == Some(Gif) <==> d[..4] == GIF_HEADER_START && (d[4..6] == GIF_87_HEADER || d[4..6] == GIF_89_HEADER)
    ensures Sniff(d) == Some(Jpeg) <==> d[..3] == JPEG_HEADER_START && (JpegMarker(d) || ExifMarker(d))
    ensures Sniff(d) == None <==> !IsPng(d) && !IsGif(d) && !(At(d, 0, JPEG_HEADER_START) && (JpegMarker(d) || ExifMarker(d)))
  {
    if IsGif(d) {
      assert d[0] == 0x47;
    }
    if At(d, 0, JPEG_HEADER_START) {
      assert d[0] == 0xFF;
    }
  }

  /**
    The test as written: PNG and GIF exactly on their signatures, JPEG on
    the JPEG start with a known marker, or on the EXIF marker alone.
   */
  lemma SniffAsWrittenSignatures(d: seq<byte>)
    requires SNIFF_SIZE <= |d|
    ensures SniffAsWritten(d) == Some(Png) <==> d[..8] == PNG_HEADER
    ensures SniffAsWritten(d) == Some(Gif) <==> d[..4] == GIF_HEADER_START && (d[4..6] == GIF_87_HEADER || d[4..6] == GIF_89_HEADER)
    ensures SniffAsWritten(d) == Some(Jpeg) <==> (d[..3] == JPEG_HEADER_START && JpegMarker(d)) || ExifMarker(d)
    ensures SniffAsWritten(d) == None <==> !IsPng(d) && !IsGif(d) && !(At(d, 0, JPEG_HEADER_START) && JpegMarker(d)) && !ExifMarker(d)
  {
    SniffSignatures(d);
    SniffDifference(d);
  }

  /** The two tests differ exactly on EXIF markers that lack the JPEG start bytes. */
  lemma SniffDifference(d: seq<byte>)
    requires SNIFF_SIZE <= |d|
    ensures SniffAsWritten(d) != Sniff(d) <==> ExifMarker(d) && !At(d, 0, JPEG_HEADER_START)
    ensures SniffAsWritten(d) != Sniff(d) ==> SniffAsWritten(d) == Some(Jpeg) && Sniff(d) == None
  {
    if ExifMarker(d) {
      assert d[3] == 0xE1;
      assert d[..8] != PNG_HEADER by { assert PNG_HEADER[3] == 0x47; }
      assert d[..4] != GIF_HEADER_START by { assert GIF_HEADER_START[3] == 0x38; }
    }
  }

  /** Fourteen bytes that are not a JPEG file but that the test as written calls one. */
  const NOT_A_JPEG: seq<byte> := [0x00, 0x00, 0x00, 0xE1, 0x00, 0x00, 0x00, 0x00, 0x45, 0x78, 0x69, 0x66, 0x00, 0x00]

  lemma ExifWithoutJpegStart()
    ensures SniffAsWritten(NOT_A_JPEG) == Some(Jpeg)
    ensures Sniff(NOT_A_JPEG) == None
  {
    SniffDifference(NOT_A_JPEG);
    assert NOT_A_JPEG[0] != JPEG_HEADER_START[0];
  }

  // ---------------------------------------------------------------------
  // The dumpers
  // ---------------------------------------------------------------------

  datatype Dumper = DumpBitmap | DumpIco | DumpManifest | DumpImage | DumpBinary

  /** The dumpers that can appear in the table of the main loop. */
  type ListedDumper = h: Dumper | h != DumpImage witness DumpBinary

  /** The dumpers the main loop tries, in order; dump_image is not among them. */
  const DUMPERS: seq<ListedDumper> := [DumpBitmap, DumpIco, DumpManifest, DumpBinary]

  /** The arguments every dump_func receives (the size is the length of data). */
  datatype Args = Args(p: Provider, t: ResId, name: ResId, lang: word, directory: string, data: seq<byte>)

  /** A file as writeFile leaves it. */
  datatype File = File(path: string, contents: seq<byte>)

  /**
    writeFile: the file system is not modelled; the paths that cannot be
    written are a parameter.
   */
  function WriteFile(path: string, contents: seq<byte>, unwritable: set<string>): Option<File>
  {
    if path in unwritable then None else Some(File(path, contents))
  }

  predicate IsIcoType(t: ResId)
  {
    t == RT_ICON || t == RT_CURSOR || t == RT_GROUP_ICON || t == RT_GROUP_CURSOR
  }

  /** What the dumpers read of a resource without checking that it is there. */
  predicate ReadablePre(a: Args)
  {
    && (a.t == RT_BITMAP ==> 4 <= |a.data|)
    && (a.t == RT_ICON || a.t == RT_CURSOR ==> IndividualPre(a.p, a.t, a.name, a.lang, a.data))
    && (a.t == RT_GROUP_ICON || a.t == RT_GROUP_CURSOR ==> GroupPre(a.p, a.t, a.lang, a.data))
    && (a.t == RT_MANIFEST ==> 1 <= |a.data|)
  }

  /** A dumper's extension and the bytes it writes, or None when it turns the resource down. */
  function Converted(h: Dumper, a: Args): (r: Option<(string, seq<byte>)>)
    requires ReadablePre(a)
    requires h == DumpImage ==> SNIFF_SIZE <= |a.data|
    ensures r.Some? && h == DumpBitmap ==> a.t == RT_BITMAP
    ensures r.Some? && h == DumpIco ==> IsIcoType(a.t)
    ensures r.Some? && h != DumpBitmap && h != DumpIco ==> r.value.1 == a.data
    ensures h == DumpBinary ==> r.Some?
  {
    match h
    case DumpBitmap =>
      if a.t == RT_BITMAP then Some(("bmp", BmpFileAsWritten(a.data))) else None
    case DumpIco =>
      var ext := if IsCursorType(a.t) then "cur" else "ico";
      if a.t == RT_ICON || a.t == RT_CURSOR then
        (match ExtractIndividual(a.p, a.t, a.name, a.lang, a.data)
         case None => None
         case Some(c) => Some((ext, c)))
      else if a.t == RT_GROUP_ICON || a.t == RT_GROUP_CURSOR then
        Some((ext, ExtractGroup(a.p, a.t, a.lang, a.data)))
      else None
    case DumpManifest =>
      if a.t != RT_MANIFEST || a.data[0] != '<' as int then None else Some(("xml", a.data))
    case DumpImage =>
      (match SniffAsWritten(a.data)
       case None => None
       case Some(k) => Some((Extension(k), a.data)))
    case DumpBinary =>
      Some(("bin", a.data))
  }

  /** A dumper: the file it writes, or None when it returns false. */
  function Dump(h: Dumper, a: Args, unwritable: set<string>): (r: Option<File>)
    requires ReadablePre(a)
    requires h == DumpImage ==> SNIFF_SIZE <= |a.data|
    ensures Converted(h, a).None? ==> r.None?
    ensures r.Some? ==> r.value.path !in unwritable
    ensures r.Some? ==>
      && Converted(h, a).Some?
      && r.value.contents == Converted(h, a).value.1
      && r.value.path == GetPath(a.directory, a.name, Converted(h, a).value.0)
  {
    match Converted(h, a)
    case None => None
    case Some(c) => WriteFile(GetPath(a.directory, a.name, c.0), c.1, unwritable)
  }

  /**
    The conditions under which each dumper takes a resource, when every
    write succeeds: dump_bitmap only RT_BITMAP, dump_ico only the four icon
    and cursor types (an image no group lists fails), dump_manifest only an
    RT_MANIFEST starting with '<', dump_binary everything.
   */
  lemma AcceptConditions(a: Args)
    requires ReadablePre(a)
    ensures Dump(DumpBitmap, a, {}).Some? <==> a.t == RT_BITMAP
    ensures Dump(DumpIco, a, {}).Some? <==>
      || a.t == RT_GROUP_ICON || a.t == RT_GROUP_CURSOR
      || ((a.t == RT_ICON || a.t == RT_CURSOR) && ExtractIndividual(a.p, a.t, a.name, a.lang, a.data).Some?)
    ensures Dump(DumpManifest, a, {}).Some? <==> a.t == RT_MANIFEST && a.data[0] == 0x3C
    ensures Dump(DumpBinary, a, {}).Some?
  {
  }

  /** Where each dumper writes: the resource's name with its own extension, in the directory. */
  lemma DumpPaths(h: Dumper, a: Args, unwritable: set<string>)
    requires ReadablePre(a) && h != DumpImage
    requires Dump(h, a, unwritable).Some?
    ensures var f := Dump(h, a, unwritable).value;
      && f.path !in unwritable
      && (h == DumpBitmap ==> f == File(GetPath(a.directory, a.name, "bmp"), BmpFileAsWritten(a.data)))
      && (h == DumpIco ==> f.path == GetPath(a.directory, a.name, if IsCursorType(a.t) then "cur" else "ico"))
      && (h == DumpIco && (a.t == RT_ICON || a.t == RT_CURSOR) ==>
            f.contents == ExtractIndividual(a.p, a.t, a.name, a.lang, a.data).value)
      && (h == DumpIco && IsIcoType(a.t) && !(a.t == RT_ICON || a.t == RT_CURSOR) ==>
            f.contents == ExtractGroup(a.p, a.t, a.lang, a.data))
      && (h == DumpManifest ==> f == File(GetPath(a.directory, a.name, "xml"), a.data))
      && (h == DumpBinary ==> f == File(GetPath(a.directory, a.name, "bin"), a.data))
  {
  }

  /**
    dump_image writes the bytes unchanged under the extension of the signature
    found, and returns false when no signature matches or the write fails.
   */
  lemma ImageDumper(a: Args, unwritable: set<string>)
    requires ReadablePre(a) && SNIFF_SIZE <= |a.data|
    ensures Dump(DumpImage, a, unwritable).Some? <==>
      SniffAsWritten(a.data).Some? && GetPath(a.directory, a.name, Extension(SniffAsWritten(a.data).value)) !in unwritable
    ensures Dump(DumpImage, a, unwritable).Some? ==>
      Dump(DumpImage, a, unwritable).value == File(GetPath(a.directory, a.name, Extension(SniffAsWritten(a.data).value)), a.data)
  {
  }

  // ---------------------------------------------------------------------
  // The dispatch at the heart of wmain
  // ---------------------------------------------------------------------

  /** The index of the first dumper from i on that takes the resource, or |DUMPERS| when none does. */
  function FirstAccepting(a: Args, unwritable: set<string>, i: nat): (k: nat)
    requires ReadablePre(a) && i <= |DUMPERS|
    ensures i <= k <= |DUMPERS|
    ensures k < |DUMPERS| ==> Dump(DUMPERS[k], a, unwritable).Some?
    ensures forall j :: i <= j < k ==> Dump(DUMPERS[j], a, unwritable).None?
    decreases |DUMPERS| - i
  {
    if i == |DUMPERS| then i
    else if Dump(DUMPERS[i], a, unwritable).Some? then i
    else FirstAccepting(a, unwritable, i + 1)
  }

  /**
    The loop of wmain at one resource: try each dumper in order and stop at
    the first that returns true; warn when none did.
   */
  method DispatchResource(a: Args, unwritable: set<string>) returns (i: nat, written: Option<File>, warned: bool)
    requires ReadablePre(a)
    ensures i == FirstAccepting(a, unwritable, 0)
    ensures written == if i < |DUMPERS| then Dump(DUMPERS[i], a, unwritable) else None
    ensures warned <==> forall j :: 0 <= j < |DUMPERS| ==> Dump(DUMPERS[j], a, unwritable).None?
  {
    i := 0;
    written := None;
    while i < |DUMPERS|
      invariant i <= |DUMPERS| && written.None?
      invariant FirstAccepting(a, unwritable, i) == FirstAccepting(a, unwritable, 0)
    {
      var r := Dump(DUMPERS[i], a, unwritable);
      if r.Some? {
        written := r;
        break;
      }
      i := i + 1;
    }
    warned := i == |DUMPERS|;
  }

  /**
    With every write succeeding, a bitmap goes to dump_bitmap, an icon or
    cursor that can be rebuilt to dump_ico, a manifest starting with '<' to
    dump_manifest, and everything else to dump_binary; nothing is warned about.
   */
  lemma DispatchChoice(a: Args)
    requires ReadablePre(a)
    ensures FirstAccepting(a, {}, 0) ==
      if a.t == RT_BITMAP then 0
      else if Dump(DumpIco, a, {}).Some? then 1
      else if a.t == RT_MANIFEST && a.data[0] == 0x3C then 2
      else 3
  {
    AcceptConditions(a);
  }

  /** The warning is printed only when not even the raw .bin file could be written. */
  lemma WarningMeansBinaryFailed(a: Args, unwritable: set<string>)
    requires ReadablePre(a)
    ensures FirstAccepting(a, unwritable, 0) == |DUMPERS| <==>
      && GetPath(a.directory, a.name, "bin") in unwritable
      && forall j :: 0 <= j < |DUMPERS| ==> Dump(DUMPERS[j], a, unwritable).None?
  {
    if FirstAccepting(a, unwritable, 0) == |DUMPERS| {
      assert Dump(DUMPERS[3], a, unwritable).None?;
    }
  }
}
