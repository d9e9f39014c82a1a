/**
  Rebuilding .ico / .cur files from the split form an executable stores
  them in (ICO_CUR.cpp): a group resource holding only the directory, and
  one resource per image holding its payload.
 */
module IcoCur {
  import opened Wrappers
  import opened Bytes
  import opened Resources
  import opened IcoCurLayout

  /** The resource types dump_ico treats as cursors. */
  predicate IsCursorType(t: ResId)
  {
    t == RT_GROUP_CURSOR || t == RT_CURSOR
  }

  /** The group type extractICOIndividual searches for an image of type t. */
  function GroupTypeOf(t: ResId): ResId
  {
    if t == RT_GROUP_CURSOR || t == RT_CURSOR then RT_GROUP_CURSOR else RT_GROUP_ICON
  }

  /** The image type extractICOGroup fetches for a group of type t. */
  function ImageTypeOf(t: ResId): ResId
  {
    if t == RT_GROUP_CURSOR || t == RT_CURSOR then RT_CURSOR else RT_ICON
  }

  /** Both normalisations keep the kind (icon or cursor) and agree with each other. */
  lemma TypeNormalisation(t: ResId)
    ensures GroupTypeOf(t) == RT_GROUP_CURSOR || GroupTypeOf(t) == RT_GROUP_ICON
    ensures ImageTypeOf(t) == RT_CURSOR || ImageTypeOf(t) == RT_ICON
    ensures IsCursorType(GroupTypeOf(t)) == IsCursorType(t) == IsCursorType(ImageTypeOf(t))
    ensures GroupTypeOf(ImageTypeOf(t)) == GroupTypeOf(t) && ImageTypeOf(GroupTypeOf(t)) == ImageTypeOf(t)
  {
  }

  // ---------------------------------------------------------------------
  // findICOGroup
  // ---------------------------------------------------------------------

  /** Directory entry j of group g refers to the image called `name`. */
  predicate Lists(g: seq<byte>, name: ResId, j: nat)
    requires WellFormedGroup(g)
  {
    j < NumImages(g) && name == IntId(RtEntryAt(g, j).id)
  }

  /** Group n loads, is well-formed, and some entry of its directory refers to `name`. */
  ghost predicate ListedBy(p: Provider, t: ResId, n: ResId, name: ResId, lang: word)
  {
    && Get(p, t, n, lang).Some?
    && WellFormedGroup(Get(p, t, n, lang).value)
    && exists j :: Lists(Get(p, t, n, lang).value, name, j)
  }

  /** The first entry of g, from j on, that refers to `name`. */
  function FirstListing(g: seq<byte>, name: ResId, j: nat): (r: Option<nat>)
    requires WellFormedGroup(g)
    ensures r.Some? ==> j <= r.value && Lists(g, name, r.value)
    ensures r.Some? ==> forall k :: j <= k < r.value ==> !Lists(g, name, k)
    ensures r.None? ==> forall k :: j <= k ==> !Lists(g, name, k)
    decreases NumImages(g) - j
  {
    if j >= NumImages(g) then None
    else if name == IntId(RtEntryAt(g, j).id) then Some(j)
    else FirstListing(g, name, j + 1)
  }

  /**
    Every group the scan of findICOGroup reaches, from names[0] on, holds
    the directory its header declares: the scan stops at the first group
    that lists `name`, and the groups after it are never read.
   */
  predicate ScanReadable(p: Provider, t: ResId, names: seq<ResId>, name: ResId, lang: word)
    decreases |names|
  {
    names != [] ==>
      var loaded := Get(p, t, names[0], lang);
      && (loaded.Some? ==> WellFormedGroup(loaded.value))
      && (loaded.None? || FirstListing(loaded.value, name, 0).None? ==>
            ScanReadable(p, t, names[1..], name, lang))
  }

  /** What findICOGroup reads of the groups of type t is there. */
  predicate GroupsReadable(p: Provider, t: ResId, name: ResId, lang: word)
  {
    ScanReadable(p, t, Names(p, t), name, lang)
  }

  /** A group found by findICOGroup and the index (grpIndx) of the matching entry. */
  datatype GroupHit = GroupHit(group: seq<byte>, index: nat)

  /** The search of findICOGroup over the remaining group names. */
  function FindIn(p: Provider, t: ResId, names: seq<ResId>, name: ResId, lang: word): (r: Option<GroupHit>)
    requires ScanReadable(p, t, names, name, lang)
    ensures r.Some? ==> WellFormedGroup(r.value.group) && Lists(r.value.group, name, r.value.index)
    decreases |names|
  {
    if names == [] then None
    else
      var loaded := Get(p, t, names[0], lang);
      if loaded.None? then FindIn(p, t, names[1..], name, lang)
      else
        var g := loaded.value;
        match FirstListing(g, name, 0)
        case Some(j) => Some(GroupHit(g, j))
        case None => FindIn(p, t, names[1..], name, lang)
  }

  function FindGroup(p: Provider, t: ResId, name: ResId, lang: word): Option<GroupHit>
    requires GroupsReadable(p, t, name, lang)
  {
    FindIn(p, t, Names(p, t), name, lang)
  }

  /**
    A found group is the first group, in name order, that loads and lists
    `name`, and the index is that of its first matching entry.
   */
  lemma {:induction false} FindInFirst(p: Provider, t: ResId, names: seq<ResId>, name: ResId, lang: word)
    returns (k: nat)
    requires ScanReadable(p, t, names, name, lang)
    requires FindIn(p, t, names, name, lang).Some?
    ensures k < |names|
    ensures Get(p, t, names[k], lang) == Some(FindIn(p, t, names, name, lang).value.group)
    ensures forall m :: 0 <= m < FindIn(p, t, names, name, lang).value.index ==>
              !Lists(FindIn(p, t, names, name, lang).value.group, name, m)
    ensures forall i :: 0 <= i < k ==> !ListedBy(p, t, names[i], name, lang)
  {
    var hit := FindIn(p, t, names, name, lang).value;
    match Get(p, t, names[0], lang)
    case None =>
      var k' := FindInFirst(p, t, names[1..], name, lang);
      k := k' + 1;
    case Some(g) =>
      if FirstListing(g, name, 0).Some? {
        k := 0;
      } else {
        var k' := FindInFirst(p, t, names[1..], name, lang);
        k := k' + 1;
      }
  }

  /** The search fails exactly when no group that loads lists `name`. */
  lemma {:induction false} FindInNone(p: Provider, t: ResId, names: seq<ResId>, name: ResId, lang: word)
    requires ScanReadable(p, t, names, name, lang)
    ensures FindIn(p, t, names, name, lang).None? <==>
            forall i :: 0 <= i < |names| ==> !ListedBy(p, t, names[i], name, lang)
  {
    if names != [] {
      assert forall i :: 1 <= i < |names| ==> names[i] == names[1..][i - 1];
      match Get(p, t, names[0], lang)
      case None =>
        FindInNone(p, t, names[1..], name, lang);
      case Some(g) =>
        if FirstListing(g, name, 0).None? {
          FindInNone(p, t, names[1..], name, lang);
          assert !ListedBy(p, t, names[0], name, lang);
        }
    }
  }

  /** Only an integer image id can be found: string names never match a wID. */
  lemma StringNameNotFound(p: Provider, t: ResId, name: ResId, lang: word)
    requires GroupsReadable(p, t, name, lang) && name.StrId?
    ensures FindGroup(p, t, name, lang).None?
  {
  }

  /** A group of one icon, image 5, followed by a second group too short to hold its header. */
  const LISTS_FIVE: seq<byte> := [0, 0, 1, 0, 1, 0, 16, 16, 0, 0, 1, 0, 32, 0, 0x68, 4, 0, 0, 5, 0]
  const TRUNCATED: seq<byte> := [0, 0, 1]
  const TWO_GROUPS: Provider := Provider(
    map[RT_GROUP_ICON := [IntId(1), IntId(2)]],
    map[(RT_GROUP_ICON, IntId(1), 0) := LISTS_FIVE, (RT_GROUP_ICON, IntId(2), 0) := TRUNCATED])

  /** The scan stops at the first group listing the image, so a broken group after it does no harm. */
  lemma LaterGroupNotRead()
    ensures !WellFormedGroup(TRUNCATED)
    ensures GroupsReadable(TWO_GROUPS, RT_GROUP_ICON, IntId(5), 0)
    ensures FindGroup(TWO_GROUPS, RT_GROUP_ICON, IntId(5), 0) == Some(GroupHit(LISTS_FIVE, 0))
  {
    var names := Names(TWO_GROUPS, RT_GROUP_ICON);
    assert names == [IntId(1), IntId(2)];
    assert Get(TWO_GROUPS, RT_GROUP_ICON, IntId(1), 0) == Some(LISTS_FIVE);
    assert WellFormedGroup(LISTS_FIVE) && NumImages(LISTS_FIVE) == 1;
    assert RtEntryAt(LISTS_FIVE, 0).id == 5;
    assert FirstListing(LISTS_FIVE, IntId(5), 0) == Some(0);
  }

  /** findICOGroup: scan the groups in name order, and each group's entries in order. */
  method FindIcoGroup(p: Provider, t: ResId, name: ResId, lang: word) returns (r: Option<GroupHit>)
    requires GroupsReadable(p, t, name, lang)
    ensures r == FindGroup(p, t, name, lang)
  {
    var names := Names(p, t);
    var i := 0;
    while i < |names|
      invariant i <= |names|
      invariant ScanReadable(p, t, names[i..], name, lang)
      invariant FindIn(p, t, names[i..], name, lang) == FindGroup(p, t, name, lang)
    {
      assert names[i..][1..] == names[i + 1..];
      assert names[i..][0] == names[i];
      var gdata := Get(p, t, names[i], lang);
      if gdata.Some? {
        var g := gdata.value;
        var j := 0;
        while j < NumImages(g)
          invariant j <= NumImages(g)
          invariant FirstListing(g, name, j) == FirstListing(g, name, 0)
        {
          if IntId(RtEntryAt(g, j).id) == name {
            return Some(GroupHit(g, j));
          }
          j := j + 1;
        }
      }
      i := i + 1;
    }
    // no group lists the image: the search fails
    return None;
  }

  // ---------------------------------------------------------------------
  // The directory entry written into a container
  // ---------------------------------------------------------------------

  /**
    A resource-form entry read through a file-form entry's layout: the
    first twelve bytes line up field by field. The last field overlaps wID and the
    two bytes after the entry; it is always overwritten before use.
   */
  function Reinterpret(rt: RtEntry): Entry
  {
    Entry(rt.width, rt.height, rt.colorCount, rt.reserved, rt.planes, rt.bitCount, rt.size, rt.id)
  }

  /**
    The file-form entry written for directory entry rt whose image payload
    is img, with the given dwSize and dwOffset. A cursor takes its hotspot
    from the first four payload bytes; a cursor entry whose bWidth is 0 has
    its dimension bytes recomputed from the WORD view.
   */
  function FileEntry(cursor: bool, rt: RtEntry, img: seq<byte>, size: dword, offset: dword): (e: Entry)
    requires cursor ==> HOTSPOT_SIZE <= |img|
    ensures e.size == size && e.offset == offset
    ensures !cursor ==> e == Reinterpret(rt).(size := size, offset := offset)
    ensures cursor ==> e.planesOrHotspotX == Word(img, 0) && e.bitCountOrHotspotY == Word(img, 2)
  {
    var fixup := cursor && rt.width == 0;
    Entry(
      if fixup then rt.CurWidth() % 0x100 else rt.width,
      if fixup then (rt.CurHeight() / 2) % 0x100 else rt.height,
      if fixup then 0 else rt.colorCount,
      if fixup then 0 else rt.reserved,
      if cursor then Word(img, 0) else rt.planes,
      if cursor then Word(img, 2) else rt.bitCount,
      size, offset)
  }

  /**
    The fix-up that extractICOIndividual and extractICOGroup both apply to
    a cursor entry: recompute the dimension bytes of a zero-width entry,
    take the hotspot from the payload and leave the hotspot out of dwSize.
   */
  method FixCursorEntry(rt: RtEntry, img: seq<byte>, size: dword) returns (entry: Entry)
    requires HOTSPOT_SIZE <= |img| && HOTSPOT_SIZE <= size
    ensures entry == FileEntry(true, rt, img, size - HOTSPOT_SIZE, rt.id)
  {
    entry := Reinterpret(rt).(size := size);
    if entry.width == 0 {
      entry := entry.(height := (rt.CurHeight() / 2) % 0x100);
      entry := entry.(width := rt.CurWidth() % 0x100);
      entry := entry.(colorCount := 0, reserved := 0);
    }
    entry := entry.(planesOrHotspotX := Word(img, 0), bitCountOrHotspotY := Word(img, 2));
    entry := entry.(size := entry.size - HOTSPOT_SIZE);
  }

  /**
    The zero-width cursor fixup. Because bWidth is the low byte of wWidth,
    the width it writes is always 0 again (the .cur encoding of 256); only
    the height, colour count and reserved bytes change.
   */
  lemma CursorDimensions(rt: RtEntry, img: seq<byte>, size: dword, offset: dword)
    requires HOTSPOT_SIZE <= |img|
    ensures var e := FileEntry(true, rt, img, size, offset);
      if rt.width == 0 then
        e.width == rt.CurWidth() % 0x100 == 0 && e.height == (rt.CurHeight() / 2) % 0x100
        && e.colorCount == 0 && e.reserved == 0
      else
        e.width == rt.width && e.height == rt.height
        && e.colorCount == rt.colorCount && e.reserved == rt.reserved
  {
    if rt.width == 0 {
      assert rt.CurWidth() == 0x100 * rt.height as int;
    }
  }

  // ---------------------------------------------------------------------
  // extractICOIndividual
  // ---------------------------------------------------------------------

  /**
    What extractICOIndividual reads from the payload: dwSize bytes of it,
    and for a cursor a dwSize covering at least the hotspot.
   */
  predicate SinglePayloadFits(cursor: bool, rt: RtEntry, img: seq<byte>)
  {
    (cursor ==> HOTSPOT_SIZE <= rt.size) && rt.size <= |img|
  }

  /** The one-image container built from directory entry rt and payload img. */
  function SingleContainer(cursor: bool, rt: RtEntry, img: seq<byte>): seq<byte>
    requires SinglePayloadFits(cursor, rt, img)
  {
    var skip := if cursor then HOTSPOT_SIZE else 0;
    var size := rt.size - skip;
    EncodeHeader(Header(0, if cursor then CUR_ID else ICO_ID, 1))
    + EncodeEntry(FileEntry(cursor, rt, img, size, HEADER_SIZE + ENTRY_SIZE))
    + img[skip .. skip + size]
  }

  /**
    Reading the one-image container back: its header says one image of the
    right kind, its entry points just past the directory, holds the group
    entry's dwSize (less the hotspot for a cursor) and the hotspot or
    planes/bit count, and the bytes it points to are the payload (after the
    hotspot for a cursor).
   */
  lemma SingleReadBack(cursor: bool, rt: RtEntry, img: seq<byte>)
    requires SinglePayloadFits(cursor, rt, img)
    ensures var skip := if cursor then HOTSPOT_SIZE else 0;
      |SingleContainer(cursor, rt, img)| == HEADER_SIZE + ENTRY_SIZE + rt.size - skip
    ensures var c := SingleContainer(cursor, rt, img);
      DecodeHeader(c) == Header(0, if cursor then CUR_ID else ICO_ID, 1)
    ensures var c, skip := SingleContainer(cursor, rt, img), if cursor then HOTSPOT_SIZE else 0;
      var e := DecodeEntry(c, HEADER_SIZE);
      && e == FileEntry(cursor, rt, img, rt.size - skip, HEADER_SIZE + ENTRY_SIZE)
      && e.offset == 22 && e.size == rt.size - skip
      && (cursor ==> e.planesOrHotspotX == Word(img, 0) && e.bitCountOrHotspotY == Word(img, 2))
      && (!cursor ==> e.planesOrHotspotX == rt.planes && e.bitCountOrHotspotY == rt.bitCount)
      && e.offset + e.size == |c|
      && c[e.offset .. e.offset + e.size] == img[skip .. skip + e.size]
  {
    var skip := if cursor then HOTSPOT_SIZE else 0;
    var h := EncodeHeader(Header(0, if cursor then CUR_ID else ICO_ID, 1));
    var e := FileEntry(cursor, rt, img, rt.size - skip, HEADER_SIZE + ENTRY_SIZE);
    var body := img[skip .. skip + rt.size - skip];
    var c := SingleContainer(cursor, rt, img);
    assert c == h + (EncodeEntry(e) + body);
    DecodeEncodeHeader(Header(0, if cursor then CUR_ID else ICO_ID, 1), EncodeEntry(e) + body);
    assert c[HEADER_SIZE .. HEADER_SIZE + ENTRY_SIZE] == EncodeEntry(e);
    DecodeEncodeEntry(e, c, HEADER_SIZE);
    assert c[HEADER_SIZE + ENTRY_SIZE ..] == body;
  }

  /** What extractICOIndividual demands: well-formed groups, and a payload that fits the entry found. */
  predicate IndividualPre(p: Provider, t: ResId, name: ResId, lang: word, data: seq<byte>)
  {
    var gt := GroupTypeOf(t);
    && GroupsReadable(p, gt, name, lang)
    && var found := FindGroup(p, gt, name, lang);
       found.Some? ==>
       SinglePayloadFits(IsCursorType(t), RtEntryAt(found.value.group, found.value.index), data)
  }

  /** The container extractICOIndividual builds for image `name`, or None when no group lists it. */
  function ExtractIndividual(p: Provider, t: ResId, name: ResId, lang: word, data: seq<byte>): Option<seq<byte>>
    requires IndividualPre(p, t, name, lang, data)
  {
    match FindGroup(p, GroupTypeOf(t), name, lang)
    case None => None
    case Some(hit) => Some(SingleContainer(IsCursorType(t), RtEntryAt(hit.group, hit.index), data))
  }

  /** extractICOIndividual fails exactly when findICOGroup finds nothing. */
  lemma IndividualFailsIffNotFound(p: Provider, t: ResId, name: ResId, lang: word, data: seq<byte>)
    requires IndividualPre(p, t, name, lang, data)
    ensures ExtractIndividual(p, t, name, lang, data).None? <==>
            forall i :: 0 <= i < |Names(p, GroupTypeOf(t))| ==>
              !ListedBy(p, GroupTypeOf(t), Names(p, GroupTypeOf(t))[i], name, lang)
  {
    FindInNone(p, GroupTypeOf(t), Names(p, GroupTypeOf(t)), name, lang);
  }

  /**
    extractICOIndividual: data is the image's own payload; on success it is
    replaced by the one-image container, on failure it is left as it was.
   */
  method ExtractIcoIndividual(p: Provider, t: ResId, name: ResId, lang: word, data: seq<byte>)
    returns (ok: bool, out: seq<byte>)
    requires IndividualPre(p, t, name, lang, data)
    ensures ok == ExtractIndividual(p, t, name, lang, data).Some?
    ensures out == if ok then ExtractIndividual(p, t, name, lang, data).value else data
  {
    var gt := GroupTypeOf(t);
    var found := FindIcoGroup(p, gt, name, lang);
    if found.None? {
      return false, data;
    }
    var g, grpIndx := found.value.group, found.value.index;
    var rt := RtEntryAt(g, grpIndx);
    var entry := Reinterpret(rt);
    var bytes := data;

    // a cursor entry gets its dimensions fixed and its hotspot from the payload
    if gt == RT_GROUP_CURSOR {
      entry := FixCursorEntry(rt, bytes, entry.size);
      bytes := bytes[HOTSPOT_SIZE..];
    }
    entry := entry.(offset := HEADER_SIZE + ENTRY_SIZE);

    var header := Header(0, if gt == RT_GROUP_CURSOR then CUR_ID else ICO_ID, 1);
    out := EncodeHeader(header) + EncodeEntry(entry) + bytes[..entry.size];
    ok := true;
  }

  // ---------------------------------------------------------------------
  // extractICOGroup
  // ---------------------------------------------------------------------

  /** The bytes an image contributes to a container: a cursor's without its hotspot. */
  function Stripped(cursor: bool, img: seq<byte>): seq<byte>
    requires cursor ==> HOTSPOT_SIZE <= |img|
  {
    if cursor then img[HOTSPOT_SIZE..] else img
  }

  /** Every cursor image is long enough to hold its hotspot. */
  predicate HotspotsPresent(cursor: bool, imgs: seq<seq<byte>>)
  {
    cursor ==> forall i :: 0 <= i < |imgs| ==> HOTSPOT_SIZE <= |imgs[i]|
  }

  /** The payloads of a rebuilt container, one per image, in directory order. */
  function StrippedImages(cursor: bool, imgs: seq<seq<byte>>): (ps: seq<seq<byte>>)
    requires HotspotsPresent(cursor, imgs)
    ensures |ps| == |imgs| && forall i :: 0 <= i < |imgs| ==> ps[i] == Stripped(cursor, imgs[i])
  {
    seq(|imgs|, i requires 0 <= i < |imgs| => Stripped(cursor, imgs[i]))
  }

  /** The group and its fetched images fit one container with 32-bit offsets. */
  predicate GroupFits(cursor: bool, g: seq<byte>, imgs: seq<seq<byte>>)
  {
    && WellFormedGroup(g)
    && |imgs| == NumImages(g)
    && HotspotsPresent(cursor, imgs)
    && HEADER_SIZE + 16 * |imgs| + |Concat(StrippedImages(cursor, imgs), |imgs|)| < 0x1_0000_0000
  }

  /** Where the payload of image i starts in the container (the running `offset`). */
  function PayloadStart(cursor: bool, g: seq<byte>, imgs: seq<seq<byte>>, i: nat): nat
    requires GroupFits(cursor, g, imgs) && i <= |imgs|
  {
    PieceStart(g[..HEADER_SIZE], |imgs|, StrippedImages(cursor, imgs), i)
  }

  /** Image i fits a dword, and its payload ends where the next one starts, below 2^32. */
  lemma ImageFits(cursor: bool, g: seq<byte>, imgs: seq<seq<byte>>, i: nat)
    requires GroupFits(cursor, g, imgs) && i < |imgs|
    ensures (cursor ==> HOTSPOT_SIZE <= |imgs[i]|) && |imgs[i]| < 0x1_0000_0000
    ensures PayloadStart(cursor, g, imgs, i + 1) == PayloadStart(cursor, g, imgs, i) + |Stripped(cursor, imgs[i])|
    ensures PayloadStart(cursor, g, imgs, i + 1) < 0x1_0000_0000
  {
    var ps := StrippedImages(cursor, imgs);
    ConcatPrefix(ps, i + 1, |imgs|);
    ConcatStep(ps, i);
  }

  /** The entry written for image i. */
  function EntryFor(cursor: bool, g: seq<byte>, imgs: seq<seq<byte>>, i: nat): (e: Entry)
    requires GroupFits(cursor, g, imgs) && i < |imgs|
    ensures e.size == |Stripped(cursor, imgs[i])| && e.offset == PayloadStart(cursor, g, imgs, i)
  {
    ImageFits(cursor, g, imgs, i);
    FileEntry(cursor, RtEntryAt(g, i), imgs[i], |Stripped(cursor, imgs[i])|, PayloadStart(cursor, g, imgs, i))
  }

  /** The encoded entries of a rebuilt container, one per image. */
  function EntryBlocks(cursor: bool, g: seq<byte>, imgs: seq<seq<byte>>): (bs: seq<seq<byte>>)
    requires GroupFits(cursor, g, imgs)
    ensures |bs| == |imgs| && EntrySized(bs)
    ensures forall i :: 0 <= i < |imgs| ==> bs[i] == EncodeEntry(EntryFor(cursor, g, imgs, i))
  {
    seq(|imgs|, i requires 0 <= i < |imgs| => EncodeEntry(EntryFor(cursor, g, imgs, i)))
  }

  /** The container rebuilt from group g and its images. */
  function GroupContainer(cursor: bool, g: seq<byte>, imgs: seq<seq<byte>>): seq<byte>
    requires GroupFits(cursor, g, imgs)
  {
    Container(g[..HEADER_SIZE], EntryBlocks(cursor, g, imgs), StrippedImages(cursor, imgs))
  }

  /**
    The shape of a rebuilt container: the group's header verbatim, then
    one 16-byte entry per image, then the payloads back to back; the first
    payload starts right after the directory, each next one where the last
    ended, and the last ends at the end of the file.
   */
  lemma GroupLayout(cursor: bool, g: seq<byte>, imgs: seq<seq<byte>>)
    requires GroupFits(cursor, g, imgs)
    ensures |GroupContainer(cursor, g, imgs)| == PayloadStart(cursor, g, imgs, |imgs|)
    ensures GroupContainer(cursor, g, imgs)[..HEADER_SIZE] == g[..HEADER_SIZE]
    ensures DecodeHeader(GroupContainer(cursor, g, imgs)) == DecodeHeader(g)
    ensures NumImages(GroupContainer(cursor, g, imgs)) == |imgs|
    ensures PayloadStart(cursor, g, imgs, 0) == HEADER_SIZE + 16 * |imgs|
    ensures forall i :: 0 <= i < |imgs| ==>
              PayloadStart(cursor, g, imgs, i + 1) == PayloadStart(cursor, g, imgs, i) + |Stripped(cursor, imgs[i])|
  {
    var h, bs, ps := g[..HEADER_SIZE], EntryBlocks(cursor, g, imgs), StrippedImages(cursor, imgs);
    var c := Container(h, bs, ps);
    ContainerLength(h, bs, ps);
    ContainerHeader(h, bs, ps);
    HeaderWords(c, g);
    forall i | 0 <= i < |imgs|
      ensures PayloadStart(cursor, g, imgs, i + 1) == PayloadStart(cursor, g, imgs, i) + |Stripped(cursor, imgs[i])|
    {
      ImageFits(cursor, g, imgs, i);
    }
  }

  /** Two byte strings that agree on the header bytes declare the same header. */
  lemma HeaderWords(c: seq<byte>, g: seq<byte>)
    requires HEADER_SIZE <= |c| && HEADER_SIZE <= |g| && c[..HEADER_SIZE] == g[..HEADER_SIZE]
    ensures DecodeHeader(c) == DecodeHeader(g)
  {
    WordOfSlice(c, 0, HEADER_SIZE, 0);
    WordOfSlice(c, 0, HEADER_SIZE, 2);
    WordOfSlice(c, 0, HEADER_SIZE, 4);
    WordOfSlice(g, 0, HEADER_SIZE, 0);
    WordOfSlice(g, 0, HEADER_SIZE, 2);
    WordOfSlice(g, 0, HEADER_SIZE, 4);
  }

  /**
    Reading entry i back from a rebuilt container gives the entry written
    for image i, and the bytes its dwOffset and dwSize delimit are exactly
    that image's payload (after the hotspot for a cursor).
   */
  lemma GroupReadBack(cursor: bool, g: seq<byte>, imgs: seq<seq<byte>>, i: nat)
    requires GroupFits(cursor, g, imgs) && i < |imgs|
    ensures HEADER_SIZE + 16 * (i + 1) <= |GroupContainer(cursor, g, imgs)|
    ensures var c := GroupContainer(cursor, g, imgs);
      var e := DecodeEntry(c, HEADER_SIZE + 16 * i);
      && e == EntryFor(cursor, g, imgs, i)
      && e.offset == PayloadStart(cursor, g, imgs, i)
      && e.size == |Stripped(cursor, imgs[i])|
      && e.offset + e.size <= |c|
      && c[e.offset .. e.offset + e.size] == Stripped(cursor, imgs[i])
  {
    GroupEntryBytes(cursor, g, imgs, i);
    GroupPayloadBytes(cursor, g, imgs, i);
  }

  /** The directory slot of entry i decodes to the entry written for image i. */
  lemma GroupEntryBytes(cursor: bool, g: seq<byte>, imgs: seq<seq<byte>>, i: nat)
    requires GroupFits(cursor, g, imgs) && i < |imgs|
    ensures HEADER_SIZE + 16 * i + ENTRY_SIZE <= |GroupContainer(cursor, g, imgs)|
    ensures DecodeEntry(GroupContainer(cursor, g, imgs), HEADER_SIZE + 16 * i) == EntryFor(cursor, g, imgs, i)
  {
    var h, bs, ps := g[..HEADER_SIZE], EntryBlocks(cursor, g, imgs), StrippedImages(cursor, imgs);
    var at := HEADER_SIZE + 16 * i;
    ContainerEntry(h, bs, ps, i, at);
    DecodeEncodeEntry(EntryFor(cursor, g, imgs, i), Container(h, bs, ps), at);
  }

  /** The payload of image i lies where its entry says. */
  lemma GroupPayloadBytes(cursor: bool, g: seq<byte>, imgs: seq<seq<byte>>, i: nat)
    requires GroupFits(cursor, g, imgs) && i < |imgs|
    ensures var start, len := PayloadStart(cursor, g, imgs, i), |Stripped(cursor, imgs[i])|;
      && start + len <= |GroupContainer(cursor, g, imgs)|
      && GroupContainer(cursor, g, imgs)[start .. start + len] == Stripped(cursor, imgs[i])
  {
    var h, bs, ps := g[..HEADER_SIZE], EntryBlocks(cursor, g, imgs), StrippedImages(cursor, imgs);
    ContainerPiece(h, bs, ps, i, PayloadStart(cursor, g, imgs, i), |Stripped(cursor, imgs[i])|);
  }

  /**
    The fields of entry i of a rebuilt container: dwSize is the fetched
    payload's length (less the hotspot for a cursor), not the group entry's
    dwSize; a cursor's hotspot is read from its payload; an icon keeps the
    group entry's planes and bit count.
   */
  lemma GroupEntryFields(cursor: bool, g: seq<byte>, imgs: seq<seq<byte>>, i: nat)
    requires GroupFits(cursor, g, imgs) && i < |imgs|
    ensures var e := EntryFor(cursor, g, imgs, i);
      var rt := RtEntryAt(g, i);
      && (cursor ==> (e.size == |imgs[i]| - HOTSPOT_SIZE
                      && e.planesOrHotspotX == Word(imgs[i], 0) && e.bitCountOrHotspotY == Word(imgs[i], 2)))
      && (cursor && rt.width == 0 ==>
            e.width == 0 && e.height == (rt.CurHeight() / 2) % 0x100 && e.colorCount == 0 && e.reserved == 0)
      && (!cursor || rt.width != 0 ==>
            e.width == rt.width && e.height == rt.height && e.colorCount == rt.colorCount && e.reserved == rt.reserved)
      && (!cursor ==> (e.size == |imgs[i]|
                       && e.planesOrHotspotX == rt.planes && e.bitCountOrHotspotY == rt.bitCount))
  {
    if cursor {
      ImageFits(cursor, g, imgs, i);
      CursorDimensions(RtEntryAt(g, i), imgs[i], |Stripped(cursor, imgs[i])|, PayloadStart(cursor, g, imgs, i));
    }
  }

  /** Every image a group refers to can be fetched. */
  predicate ImagesPresent(p: Provider, t: ResId, g: seq<byte>, lang: word)
    requires WellFormedGroup(g)
  {
    forall i :: 0 <= i < NumImages(g) ==> Get(p, t, IntId(RtEntryAt(g, i).id), lang).Some?
  }

  /** The images a group refers to, fetched in directory order. */
  function ImagesOf(p: Provider, t: ResId, g: seq<byte>, lang: word): (imgs: seq<seq<byte>>)
    requires WellFormedGroup(g) && ImagesPresent(p, t, g, lang)
    ensures |imgs| == NumImages(g)
    ensures forall i :: 0 <= i < NumImages(g) ==> Get(p, t, IntId(RtEntryAt(g, i).id), lang) == Some(imgs[i])
  {
    seq(NumImages(g), i requires 0 <= i < NumImages(g) => Get(p, t, IntId(RtEntryAt(g, i).id), lang).value)
  }

  /** What extractICOGroup demands of the group data and the provider. */
  predicate GroupPre(p: Provider, t: ResId, lang: word, data: seq<byte>)
  {
    && WellFormedGroup(data)
    && ImagesPresent(p, ImageTypeOf(t), data, lang)
    && GroupFits(IsCursorType(t), data, ImagesOf(p, ImageTypeOf(t), data, lang))
  }

  /** The container extractICOGroup builds from group data. */
  function ExtractGroup(p: Provider, t: ResId, lang: word, data: seq<byte>): seq<byte>
    requires GroupPre(p, t, lang, data)
  {
    GroupContainer(IsCursorType(t), data, ImagesOf(p, ImageTypeOf(t), data, lang))
  }

  /**
    The rebuilt container with only its first i images in place: the
    header and the first i entries, zero bytes for the remaining entries,
    then the first i payloads.
   */
  function PartialContainer(cursor: bool, g: seq<byte>, imgs: seq<seq<byte>>, i: nat): seq<byte>
    requires GroupFits(cursor, g, imgs) && i <= |imgs|
  {
    Partial(g[..HEADER_SIZE], EntryBlocks(cursor, g, imgs), StrippedImages(cursor, imgs), i)
  }

  /**
    The entry extractICOGroup builds for directory entry rt, whose image
    payload is img, and how many payload bytes it skips.
   */
  method GroupEntry(cursor: bool, rt: RtEntry, img: seq<byte>, offset: dword) returns (entry: Entry, skip: nat)
    requires (cursor ==> HOTSPOT_SIZE <= |img|) && |img| < 0x1_0000_0000
    ensures skip <= |img| && img[skip..] == Stripped(cursor, img)
    ensures entry == FileEntry(cursor, rt, img, |Stripped(cursor, img)|, offset)
  {
    entry := Reinterpret(rt).(size := |img|);
    skip := 0;

    // a cursor image starts with its hotspot, which moves into the entry
    if cursor {
      entry := FixCursorEntry(rt, img, |img|);
      skip := HOTSPOT_SIZE;
    }
    entry := entry.(offset := offset);
  }

  /**
    Placing image i in extractICOGroup's buffer: the buffer grows by the
    payload, the entry goes into slot i and the payload to the end.
   */
  method WriteImage(ghost cursor: bool, ghost g: seq<byte>, ghost imgs: seq<seq<byte>>, ghost i: nat,
                    d: seq<byte>, entryOffset: nat, entry: Entry, payload: seq<byte>)
    returns (r: seq<byte>)
    requires GroupFits(cursor, g, imgs) && i < |imgs|
    requires d == PartialContainer(cursor, g, imgs, i)
    requires entryOffset == HEADER_SIZE + 16 * i
    requires entry == EntryFor(cursor, g, imgs, i)
    requires payload == Stripped(cursor, imgs[i])
    ensures r == PartialContainer(cursor, g, imgs, i + 1)
  {
    PartialStep(g[..HEADER_SIZE], EntryBlocks(cursor, g, imgs), StrippedImages(cursor, imgs), i, entryOffset);
    r := d + payload;
    r := r[..entryOffset] + EncodeEntry(entry) + r[entryOffset + ENTRY_SIZE..];
  }

  /**
    The state extractICOGroup's loop keeps after i turns: the buffer holds
    the first i images in place, entryOffset is entry slot i and offset is
    where payload i goes.
   */
  ghost predicate Built(cursor: bool, g: seq<byte>, imgs: seq<seq<byte>>, i: nat,
                        d: seq<byte>, entryOffset: nat, offset: nat)
  {
    && GroupFits(cursor, g, imgs) && i <= |imgs|
    && entryOffset == HEADER_SIZE + 16 * i
    && offset == PayloadStart(cursor, g, imgs, i)
    && d == PartialContainer(cursor, g, imgs, i)
  }

  /**
    One turn of extractICOGroup's loop: fetch image i of the group, build
    its entry, grow the buffer by the payload and copy the entry into its
    slot. Returns the new buffer and the entry's dwSize.
   */
  method GroupTurn(p: Provider, itype: ResId, lang: word, data: seq<byte>, ghost imgs: seq<seq<byte>>,
                   i: nat, d: seq<byte>, entryOffset: nat, offset: nat)
    returns (d': seq<byte>, size: nat)
    requires WellFormedGroup(data) && ImagesPresent(p, itype, data, lang)
    requires imgs == ImagesOf(p, itype, data, lang)
    requires Built(itype == RT_CURSOR, data, imgs, i, d, entryOffset, offset) && i < |imgs|
    ensures Built(itype == RT_CURSOR, data, imgs, i + 1, d', entryOffset + ENTRY_SIZE, offset + size)
  {
    var cursor := itype == RT_CURSOR;

    // entry i of the directory, and the image it names
    var rt := RtEntryAt(data, i);
    var img := Get(p, itype, IntId(rt.id), lang).value;
    assert img == imgs[i];
    ImageFits(cursor, data, imgs, i);
    var entry, skip := GroupEntry(cursor, rt, img, offset);
    assert entry == EntryFor(cursor, data, imgs, i);

    // fill entry slot i and append the payload
    d' := WriteImage(cursor, data, imgs, i, d, entryOffset, entry, img[skip..]);
    size := entry.size;
  }

  /** Before the first turn: the header, then zeroed entry slots. */
  lemma BuiltStart(cursor: bool, g: seq<byte>, imgs: seq<seq<byte>>)
    requires GroupFits(cursor, g, imgs)
    ensures Built(cursor, g, imgs, 0, g[..HEADER_SIZE] + Zeros(16 * |imgs|), HEADER_SIZE, HEADER_SIZE + 16 * |imgs|)
  {
    PartialStart(g[..HEADER_SIZE], EntryBlocks(cursor, g, imgs), StrippedImages(cursor, imgs));
  }

  /** After the last turn the buffer is the whole container. */
  lemma BuiltEnd(cursor: bool, g: seq<byte>, imgs: seq<seq<byte>>, i: nat, d: seq<byte>, entryOffset: nat, offset: nat)
    requires Built(cursor, g, imgs, i, d, entryOffset, offset) && i == |imgs|
    ensures d == GroupContainer(cursor, g, imgs)
  {
    PartialEnd(g[..HEADER_SIZE], EntryBlocks(cursor, g, imgs), StrippedImages(cursor, imgs), i);
  }

  /**
    extractICOGroup: data is the group resource; it is replaced by the
    container holding every image the group refers to.
   */
  method ExtractIcoGroup(p: Provider, t: ResId, name: ResId, lang: word, data: seq<byte>)
    returns (ok: bool, out: seq<byte>)
    requires GroupPre(p, t, lang, data)
    ensures ok && out == ExtractGroup(p, t, lang, data)
  {
    var itype := ImageTypeOf(t);
    var cursor := itype == RT_CURSOR;
    ghost var imgs := ImagesOf(p, itype, data, lang);
    var n: nat := NumImages(data);

    // entry slots follow the header; payloads follow the slots
    var entryOffset: nat := HEADER_SIZE;
    var offset: nat := entryOffset + 16 * n;

    // the buffer starts as the header and zeroed entry slots
    var d := data[..HEADER_SIZE] + Zeros(16 * n);
    BuiltStart(cursor, data, imgs);

    var i := 0;
    while i < n
      invariant Built(cursor, data, imgs, i, d, entryOffset, offset)
    {
      var size;
      d, size := GroupTurn(p, itype, lang, data, imgs, i, d, entryOffset, offset);

      // advance to the next slot and past the payload just written
      entryOffset := entryOffset + ENTRY_SIZE;
      offset := offset + size;
      i := i + 1;
    }
    BuiltEnd(cursor, data, imgs, i, d, entryOffset, offset);
    ok, out := true, d;
  }
}
