/**
  Resource identifiers and the resource provider.

  A resource type or name is either a small integer (what MAKEINTRESOURCE
  makes of a WORD) or a string. The source compares identifiers as
  pointers: two integer identifiers are equal exactly when their integers
  are, and an integer identifier never equals a string one. Datatype
  equality on ResId is that comparison.

  The PE library that loads the executable is not part of this model; the
  few queries the core makes of it (PE::Rsrc::getNames and PE::Rsrc::get)
  are answered from an abstract value: an ordered list of names per type
  and a partial map from (type, name, language) to payload bytes.
 */
module Resources {
  import opened Wrappers
  import opened Bytes

  datatype ResId = IntId(id: word) | StrId(name: string)

  // The predefined resource types of the Windows SDK (winuser.h).
  const RT_CURSOR: ResId := IntId(1)
  const RT_BITMAP: ResId := IntId(2)
  const RT_ICON: ResId := IntId(3)
  const RT_MENU: ResId := IntId(4)
  const RT_DIALOG: ResId := IntId(5)
  const RT_STRING: ResId := IntId(6)
  const RT_FONTDIR: ResId := IntId(7)
  const RT_FONT: ResId := IntId(8)
  const RT_ACCELERATOR: ResId := IntId(9)
  const RT_RCDATA: ResId := IntId(10)
  const RT_MESSAGETABLE: ResId := IntId(11)
  const RT_GROUP_CURSOR: ResId := IntId(12)
  const RT_GROUP_ICON: ResId := IntId(14)
  const RT_VERSION: ResId := IntId(16)
  const RT_DLGINCLUDE: ResId := IntId(17)
  const RT_PLUGPLAY: ResId := IntId(19)
  const RT_VXD: ResId := IntId(20)
  const RT_ANICURSOR: ResId := IntId(21)
  const RT_ANIICON: ResId := IntId(22)
  const RT_HTML: ResId := IntId(23)
  const RT_MANIFEST: ResId := IntId(24)

  /** The resources of one executable, as the core sees them. */
  datatype Provider = Provider(
    names: map<ResId, seq<ResId>>,
    payloads: map<(ResId, ResId, word), seq<byte>>)

  /** PE::Rsrc::getNames: the names under a type, in directory order. */
  function Names(p: Provider, t: ResId): seq<ResId>
  {
    if t in p.names then p.names[t] else []
  }

  /** PE::Rsrc::get: the payload of (type, name, language), or None (NULL). */
  function Get(p: Provider, t: ResId, n: ResId, lang: word): Option<seq<byte>>
  {
    if (t, n, lang) in p.payloads then Some(p.payloads[(t, n, lang)]) else None
  }
}
