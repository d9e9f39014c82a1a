# PEResourceDump core, modelled in Dafny

PEResourceDump reads the resource section of a Windows executable and writes
each resource to a file. Each resource is identified by type, name and
language. Four dumpers are tried in a fixed order, and the first one that
accepts the resource writes it:

- bitmaps (device-independent bitmaps, DIBs) get a BMP file header;
- icons and cursors are rebuilt into stand-alone `.ico`/`.cur` files;
- manifests become `.xml`;
- everything else is written raw as `.bin`.

A separate image sniffer recognises PNG, GIF and JPEG payloads by their
signatures. The output file names come from the resource's type or name,
sanitised against characters and device names Windows will not accept.

This project models that core:

- `bytes.dfy` (module `Bytes`): BYTE/WORD/DWORD as bounded integers and their little-endian layout.
- `resources.dfy` (module `Resources`): resource identifiers and the resource table.
  - A resource identifier is either an integer id (`MAKEINTRESOURCE`) or a string.
  - The `RT_*` type constants.
  - The PE library's resource table becomes a value: the names under each type, in directory order, and the payload of each (type, name, language).
- `ico_cur_layout.dfy` (module `IcoCurLayout`): the packed structures of `ICO_CUR.cpp` and their codecs.
  - The structures are `ICO_CUR_HEADER`, `ICO_CUR_RT_ENTRY`, `CUR_HOTSPOT` and `ICO_CUR_ENTRY`.
  - It also gives a generic description of a container: header, directory of 16-byte entries, then payloads.
- `ico_cur.dfy` (module `IcoCur`): `findICOGroup`, `extractICOIndividual` and `extractICOGroup`.
  - Each is an imperative method proved equal to a specification function.
  - Lemmas state what the file they build contains.
- `general.dfy` (module `General`): `getTypeName`, `getName`, `getPath` and `sanitizeFilename`.
  - `sanitizeFilename` is a loop over the string, followed by the reserved-name suffix.
- `pe_resource_dump.dfy` (module `PEResourceDump`): `dib2bmp`, the five dumpers, and the dispatch loop.
  - `dib2bmp` works in place on an array: grow it, move the DIB right, write the header in front.
  - The dumpers are `dump_bitmap`, `dump_ico`, `dump_manifest`, `dump_image` and `dump_binary`.
  - The dispatch loop is the ordered `dumpers` table and the first-accepting loop of `wmain`.
- `wrappers.dfy` (module `Wrappers`): `Option`.

Notes on the code that the model makes explicit:

- `extractICOIndividual` copies the image bytes from the payload it is handed (ICO_CUR.cpp:122, 147); it fetches only the groups.
- `findICOGroup` reads the groups in name order and stops at the first one that lists the image; the groups after it are never read.
- `extractICOGroup` does not check whether an image fetch returned NULL, and never returns false.
- The cursor-size fix-up fires only when the byte width is 0. Its `(BYTE)wWidth` is then always 0 again, because `bWidth` is the low byte of `wWidth`; `IcoCur.CursorDimensions` proves this.
- `getPath` sanitises the text "name.ext" as a whole. Because that text always contains a `.`, the reserved-device-name suffix can never apply to it; `General.GetPathLayout` proves this.
- `dump_image` is defined but not listed in `dumpers`, so the main loop never tries it.
- `dump_image` looks for the EXIF identifier at byte 8 (PEResourceDump.cpp:81, 94-95). A standard EXIF file has it at byte 6, after the two-byte segment length, so neither test recognises one. The model keeps the byte-8 offset in both tests.
- `dib2bmp` stores a WORD-truncated size, and `dump_image`'s JPEG test lets an EXIF marker through without the JPEG start bytes. The dumpers are modelled as the code writes them; "## Findings" gives both defects and their corrections.

## Model

| member | source | states |
|---|---|---|
| IcoCurLayout.DecodeEncodeHeader | ICO_CUR.cpp:30-34 | the three little-endian WORDs of `ICO_CUR_HEADER` read back to the header written, whatever bytes follow |
| IcoCurLayout.DecodeEncodeEntry | ICO_CUR.cpp:59-73 | a 16-byte `ICO_CUR_ENTRY` stored at any offset reads back as the entry written |
| IcoCurLayout.EncodeDecodeEntry | ICO_CUR.cpp:59-73 | re-encoding an entry read from memory restores exactly the 16 bytes read |
| IcoCur.TypeNormalisation | ICO_CUR.cpp:113 | mapping to the group type (line 113) and to the image type (line 156) always gives one of the two group or two image types, keeps cursor-ness, and each mapping undoes the other |
| IcoCur.FirstListing | ICO_CUR.cpp:95-100 | the inner loop's result is the first directory index from j whose `wID` equals the name; no earlier index matches, and none at all matches when it returns nothing |
| IcoCur.FindInFirst | ICO_CUR.cpp:87-100 | given that each group the scan reaches before a hit holds its directory, a hit is a group the provider returns, fetched under the first name in directory order whose group lists the image; the index is the first matching entry, and no earlier group lists the image |
| IcoCur.FindInNone | ICO_CUR.cpp:88-104 | given the same, the search fails exactly when no group under the type lists the image (a missing group is skipped) |
| IcoCur.StringNameNotFound | ICO_CUR.cpp:96 | a string name never equals a `MAKEINTRESOURCE` id, so it is never found |
| IcoCur.FindIcoGroup | ICO_CUR.cpp:86-105 | the nested loops return exactly the first group and index that list the image, or nothing; only the groups the scan reaches need to hold their directory |
| IcoCur.LaterGroupNotRead | ICO_CUR.cpp:88-100 | a provider whose second group is too short for its header still lets the search succeed on the first group, because the scan stops there |
| IcoCur.FixCursorEntry | ICO_CUR.cpp:121-137 | the cursor entry is the directory entry reinterpreted. Its fields are fixed up when `bWidth` is 0. The hotspot is read from the payload's first four bytes. The size is reduced by 4, and the offset is overwritten later. |
| IcoCur.FileEntry | ICO_CUR.cpp:177-194 | the written entry carries the given size and offset; an icon entry keeps the directory entry's dimension, planes and bit count fields; a cursor entry's hotspot words are the image's first two WORDs |
| IcoCur.CursorDimensions | ICO_CUR.cpp:125-131 | with byte width 0 the fixed entry has width `wWidth mod 256` (always 0), height `(wHeight/2) mod 256`, and colour count and reserved 0; otherwise the four bytes are kept |
| IcoCur.SingleReadBack | ICO_CUR.cpp:137-147 | the one-image file reads back as follows. The header says reserved 0, ICO or CUR, one image. The entry points to offset 22 and holds the directory's size (minus the hotspot for a cursor) and the planes and bit count, or the hotspot. The bytes it points to are the payload after any hotspot, and they end the file. |
| IcoCur.IndividualFailsIffNotFound | ICO_CUR.cpp:116-118 | `extractICOIndividual` fails exactly when no group lists the image |
| IcoCur.ExtractIcoIndividual | ICO_CUR.cpp:112-151 | the method returns success and the built single-image container exactly as specified; on failure the data is untouched |
| IcoCur.GroupLayout | ICO_CUR.cpp:167-211 | the rebuilt file has the following shape. Its header is the group's header, with `wNumImages` images. Payloads start right after the 16-byte directory, and each payload starts where the previous one ends. The total size is where the last payload ends. |
| IcoCur.GroupReadBack | ICO_CUR.cpp:194-203 | entry i of the rebuilt file reads back with the running offset and the image's size (less the hotspot for a cursor), and the bytes it points to are that image |
| IcoCur.GroupEntryFields | ICO_CUR.cpp:177-193 | the stored size is the fetched size, minus 4 bytes of hotspot for a cursor. A cursor's hotspot comes from the image's first bytes. A cursor entry with byte width 0 gets width 0, height `(wHeight/2) mod 256`, and colour count and reserved 0; any other entry keeps its four dimension bytes. An icon keeps the planes and bit count of its directory entry. |
| IcoCur.ImagesOf | ICO_CUR.cpp:179 | the images are fetched under the image type, one per directory entry and in directory order, by each entry's `wID` |
| IcoCur.GroupEntry | ICO_CUR.cpp:177-193 | one loop turn's entry is the file entry for the image at the given offset; the payload it writes is the image after any hotspot |
| IcoCur.WriteImage | ICO_CUR.cpp:196-199 | writing entry i and appending payload i turns the container built for i images into the container built for i + 1 |
| IcoCur.GroupTurn | ICO_CUR.cpp:174-207 | one turn of the loop preserves the invariant: the buffer is the container for the first images, and the entry offset and running offset advance by 16 and by the payload size |
| IcoCur.ExtractIcoGroup | ICO_CUR.cpp:153-214 | the method always succeeds, and the buffer it returns is the specified container |
| General.Decimal | general.h:10-16 | `to_string` of a number is a non-empty string of decimal digits, with a leading 0 only for 0 |
| General.DecimalRoundTrip | general.h:10-16 | reading the digits back gives the number |
| General.TypeName | general.cpp:34-58 | the name of an integer type is never empty |
| General.TypeNameTable | general.cpp:34-58 | a string type is its own name; the 21 predefined ids map to their names; every other id maps to its decimal text |
| General.PredefinedNamesDistinct | general.cpp:36-56 | no two predefined types share a name, and none starts with a digit |
| General.TypeNameInjective | general.cpp:34-58 | different integer types get different `getTypeName` texts |
| General.Name | general.cpp:60-62 | a string name is returned as it is; an integer name is a non-empty text of digits |
| General.NameOfNumber | general.cpp:60-62 | the name of an integer id is its decimal text and reads back as the id |
| General.SanitizeFilename | general.cpp:74-90 | the method computes the sanitised name: invalid or unprintable characters become `_`, and a reserved device name gets `_` appended |
| General.Sanitize | general.cpp:74-90 | the result is the input with each character cleaned, followed by at most one added character |
| General.SanitizeShape | general.cpp:76-88 | the result has the input's length, or one more exactly when the cleaned upper-cased text is reserved. Each character is the input's, or `_` when invalid. An added character is `_`. |
| General.SanitizeClean | general.cpp:76-80 | every character of the result is printable and not one of the nine invalid ones |
| General.ReservedShapes | general.cpp:81-85 | every reserved name is non-empty, contains no `.` and does not end in `_` |
| General.SanitizeFixedPoint | general.cpp:74-90 | a name is left unchanged exactly when it is clean and not reserved |
| General.SanitizeIdempotent | general.cpp:74-90 | sanitising twice is sanitising once |
| General.GetPath | general.cpp:64-66 | the path starts with the directory and a backslash, and is at least as long as directory, name, extension, backslash and `.` together |
| General.GetPathLayout | general.cpp:64-66 | the path is directory, backslash, cleaned name, `.`, cleaned extension; the reserved suffix never applies and every file-name character is allowed |
| PEResourceDump.BmpHeader | PEResourceDump.cpp:44-45 | the 14-byte `BITMAPFILEHEADER` holds `BM`, then the size, two zero reserved words and the pixel offset, at their little-endian offsets |
| PEResourceDump.BmpLayout | PEResourceDump.cpp:37-47 | the file `dib2bmp` writes is 14 bytes longer than the DIB and ends with the DIB unchanged; its header holds `BM`, `bfSize` equal to the file length modulo 65536 (the `(WORD)` cast), zero reserved words, and `bfOffBits` equal to the DIB's first DWORD plus 14 |
| PEResourceDump.BmpLayoutCorrected | PEResourceDump.cpp:37-47 | the corrected file has the same layout with `bfSize` the file length modulo 2^32 |
| PEResourceDump.BmpSizeField | PEResourceDump.cpp:43-44 | in the corrected file, `bfSize` equals the file's length |
| PEResourceDump.BmpAsWrittenBelow64K | PEResourceDump.cpp:44 | below 64 KiB the as-written and the corrected files are identical |
| PEResourceDump.BmpSizeWrapsAt64K | PEResourceDump.cpp:44 | a 65536-byte DIB gets `bfSize` 14 although its file is 65550 bytes long |
| PEResourceDump.Realloc | PEResourceDump.cpp:39 | the grown buffer is new, `extra` bytes longer, and starts with the old contents |
| PEResourceDump.MoveRight | PEResourceDump.cpp:41 | the `memmove` puts the first n bytes `gap` places to the right and leaves the rest in place |
| PEResourceDump.CopyInFront | PEResourceDump.cpp:45 | the `memcpy` puts the header at the front and leaves the rest in place |
| PEResourceDump.DibToBmp | PEResourceDump.cpp:37-47 | the in-place conversion leaves, in a new buffer, exactly the file `BmpLayout` describes, with the WORD-truncated `bfSize` |
| PEResourceDump.SniffAsWrittenSignatures | PEResourceDump.cpp:85-97 | the test `dump_image` runs says PNG exactly when the 8-byte magic matches, GIF exactly on `GIF87a`/`GIF89a`, JPEG exactly when it starts `FF D8 FF` with a known marker or when the EXIF marker alone is present, and nothing otherwise |
| PEResourceDump.SniffSignatures | PEResourceDump.cpp:85-97 | the corrected test says PNG exactly when the 8-byte magic matches; GIF exactly when it starts `GIF8` and then `7a` or `9a`; JPEG exactly when it starts `FF D8 FF` and then a known marker or the EXIF marker; otherwise none |
| PEResourceDump.SniffDifference | PEResourceDump.cpp:91-96 | the test as written differs from the intended one exactly when the EXIF marker is present without the `FF D8 FF` start, and then it says JPEG |
| PEResourceDump.ExifWithoutJpegStart | PEResourceDump.cpp:91-96 | a 14-byte buffer, with no JPEG start but with the EXIF marker, is called JPEG by the test as written |
| PEResourceDump.Converted | PEResourceDump.cpp:50-104 | a dumper that converts the resource is `dump_bitmap` only for `RT_BITMAP` and `dump_ico` only for the four icon and cursor types; every other dumper keeps the bytes unchanged; `dump_binary` always converts |
| PEResourceDump.Dump | PEResourceDump.cpp:50-104 | a dumper that declines the conversion writes nothing; a written file has a writable path, which is `getPath` of the name and the dumper's extension, and the converted bytes as contents |
| PEResourceDump.AcceptConditions | PEResourceDump.cpp:50-67 | with writes succeeding, each dumper accepts as follows. `dump_bitmap` accepts exactly `RT_BITMAP`. `dump_ico` accepts exactly the group types, and an icon or cursor that some group lists. `dump_manifest` accepts exactly an `RT_MANIFEST` starting with `<`. `dump_binary` accepts everything. |
| PEResourceDump.DumpPaths | PEResourceDump.cpp:50-104 | an accepting dumper wrote a path that could be written. The path is the name with `bmp`, `cur`/`ico`, `xml` or `bin`. The contents are the BMP file as `dib2bmp` writes it, the single-image container for an icon or cursor, the rebuilt container for a group, or the bytes unchanged. |
| PEResourceDump.ImageDumper | PEResourceDump.cpp:70-99 | `dump_image` accepts exactly when its test as written finds a signature (so an EXIF marker without the JPEG start counts) and its path is writable, and then writes the bytes unchanged as `png`, `gif` or `jpg` |
| PEResourceDump.FirstAccepting | PEResourceDump.cpp:151 | the index reached is the first dumper that accepts; every earlier dumper declined |
| PEResourceDump.DispatchResource | PEResourceDump.cpp:151-152 | the loop stops at the first accepting dumper, keeps its file, and warns exactly when every dumper declined |
| PEResourceDump.DispatchChoice | PEResourceDump.cpp:109-111 | with writes succeeding, a bitmap goes to `dump_bitmap`, a rebuildable icon or cursor goes to `dump_ico`, a manifest starting with `<` goes to `dump_manifest`, and everything else goes to `dump_binary`; nothing is warned about |
| PEResourceDump.WarningMeansBinaryFailed | PEResourceDump.cpp:151-152 | the warning is printed exactly when the `.bin` path cannot be written (and so every dumper declined) |

## Left out

- File output: `writeFile` is modelled by a set of paths that cannot be written. The file is written whole, or not at all.
- `createDirectory`, `ReportLastError` and the error text are left out. So are `wmain`'s argument checks and exit codes.
- `wmain`'s loops over types, names and languages, and the per-type and per-language sub-directories, are left out. The model dispatches one resource at a time.
- The PE parsing library (`PE::File`, `PE::Rsrc`) is not part of this model. Its resource table is a value of type `Resources.Provider`.
- `iswprint` and `toupper` are taken in their ASCII meaning, and `to_string` as plain decimal text. Locale-dependent behaviour is not modelled.
- A Dafny `char` is a Unicode scalar value, while a `std::wstring` holds UTF-16 code units. A character outside the Basic Multilingual Plane is one `char` in the model but two units, each looked at separately, to the loop at general.cpp:76-80.
- A failing `malloc` or `realloc` is not modelled: `PEResourceDump.Realloc` always succeeds. So the `return false` of `dib2bmp` is not modelled either.
- Freeing memory is not modelled, and neither is what a failed write leaves behind for the dumpers tried next. The model always gives them the original bytes.
  - `dump_bitmap` reallocates the caller's buffer (PEResourceDump.cpp:39). When `realloc` grows the block in place and the write at line 51 fails, `wmain`'s pointer still names the block, which now holds the BMP file, while its size is the DIB's. `dump_binary` (lines 102-104) then writes the 14-byte file header followed by the DIB without its last 14 bytes.
  - When `realloc` moves the block, the old one is released and the dumpers tried next read freed memory. `PEResourceDump.Realloc` always returns a new array, so it models only this case.
  - `extractICOIndividual` and `extractICOGroup` free the caller's buffer (ICO_CUR.cpp:148, 209). When the `writeFile` at PEResourceDump.cpp:60 fails, `dump_binary` reads freed memory.
- Bytes `malloc` leaves uninitialised are modelled as zeros. The code overwrites them before writing.
- IcoCur.FindIcoGroup: does not model the thread's last-error value. On failure the code calls `SetLastError(ERROR_MOD_NOT_FOUND)` (ICO_CUR.cpp:103); no code in the program reads it afterwards.
- IcoCur.FindIcoGroup: requires each group the scan reaches to hold its header and all `wNumImages` entries (`ScanReadable`). The code reads the entries only up to the match (ICO_CUR.cpp:95), so a group cut short after its matching entry is excluded although the code would handle it. The same holds for `IcoCur.ExtractIcoIndividual`.
- IcoCur.ExtractIcoGroup: requires the group data to hold its header and all `wNumImages` entries (`WellFormedGroup`). The code reads them unchecked (ICO_CUR.cpp:168, 177), which is undefined behaviour on shorter data.
- IcoCur.ExtractIcoGroup: requires every image the group lists to be present, and for a cursor at least 4 bytes long. The code dereferences a NULL or short image there, which is undefined behaviour and has no result to model.
- IcoCur.ExtractIcoGroup: requires the container's offsets to fit a DWORD. The code would wrap `offset` silently above 4 GiB.
- IcoCur.ExtractIcoIndividual: requires the payload to hold `dwSize` bytes, and a cursor's `dwSize` to cover the hotspot. The code reads out of bounds otherwise, or wraps `dwSize - 4`.
- PEResourceDump.DibToBmp: requires at least 4 bytes, because the code reads the DIB's first DWORD unchecked. The dumpers likewise require a non-empty manifest and a sniffed image of at least 14 bytes.
- PEResourceDump.DumpPaths: does not cover `dump_image`. `PEResourceDump.ImageDumper` states it separately, because `dump_image` is not in the `dumpers` table.

## Findings

| source | as written | input that shows it | evidently intended | confidence | as-written member | corrected member |
|---|---|---|---|---|---|---|
| PEResourceDump.cpp:44 | `bfSize` is `(WORD)*size`, so the size is truncated to 16 bits | any DIB of 65536 bytes: the file is 65550 bytes but `bfSize` is 14 | `bfSize` is the DWORD file size | high (not executed) | PEResourceDump.BmpSizeWrapsAt64K | PEResourceDump.BmpSizeField |
| PEResourceDump.cpp:91-96 | the EXIF alternative is outside the parentheses that require the `FF D8 FF` start | `PEResourceDump.NOT_A_JPEG`: `00 00 00 E1 00 00 00 00 45 78 69 66 00 00` is called JPEG | the EXIF marker counts only after `FF D8 FF` | medium (not executed) | PEResourceDump.ExifWithoutJpegStart | PEResourceDump.SniffSignatures |

The dumpers, `DibToBmp` and `dump_image` are modelled as the code is
written: `PEResourceDump.BmpFileAsWritten` and `PEResourceDump.SniffAsWritten`.
The corrected definitions are `PEResourceDump.BmpFile`, whose `bfSize` is proved
right by `PEResourceDump.BmpSizeField` and `PEResourceDump.BmpLayoutCorrected`,
and `PEResourceDump.Sniff`, whose answers are proved by
`PEResourceDump.SniffSignatures`. `PEResourceDump.BmpAsWrittenBelow64K` and
`PEResourceDump.SniffDifference` pin down where each pair differs.
