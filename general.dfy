/**
  The naming helpers: the text of a resource type or name, the cleaning of
  a file name, and the path a dumped resource is written to.
 */
module General {
  import opened Bytes
  import opened Resources

  // ---------------------------------------------------------------------
  // Decimal rendering (to_string on an integer)
  // ---------------------------------------------------------------------

  predicate IsDigit(c: char)
  {
    '0' <= c <= '9'
  }

  function DigitChar(d: nat): (c: char)
    requires d < 10
    ensures IsDigit(c) && c as int - '0' as int == d
  {
    ('0' as int + d) as char
  }

  /** The decimal text of n, as the standard stream prints it: no sign, no leading zero. */
  function Decimal(n: nat): (s: string)
    ensures 1 <= |s| && forall i :: 0 <= i < |s| ==> IsDigit(s[i])
    ensures s[0] == '0' <==> n == 0
  {
    if n < 10 then [DigitChar(n)] else Decimal(n / 10) + [DigitChar(n % 10)]
  }

  /** The number a text of digits denotes. */
  function DecimalValue(s: string): nat
    requires forall i :: 0 <= i < |s| ==> IsDigit(s[i])
  {
    if |s| == 0 then 0
    else
      var last := s[|s| - 1];
      assert IsDigit(last);
      10 * DecimalValue(s[..|s| - 1]) + (last as int - '0' as int)
  }

  /** Reading the decimal text of n gives back n. */
  lemma {:induction false} DecimalRoundTrip(n: nat)
    ensures DecimalValue(Decimal(n)) == n
  {
    if n >= 10 {
      var s := Decimal(n);
      assert s[..|s| - 1] == Decimal(n / 10);
      DecimalRoundTrip(n / 10);
    }
  }

  /** Distinct numbers have distinct decimal texts. */
  lemma DecimalInjective(a: nat, b: nat)
    requires Decimal(a) == Decimal(b)
    ensures a == b
  {
    DecimalRoundTrip(a);
    DecimalRoundTrip(b);
  }

  // ---------------------------------------------------------------------
  // getTypeName and getName
  // ---------------------------------------------------------------------

  /** getTypeName: a string type as is, a predefined type by its name, any other number in decimal. */
  function TypeName(rid: ResId): (r: string)
    ensures rid.IntId? ==> 0 < |r|
  {
    if !rid.IntId? then rid.name
    else if rid == RT_CURSOR then "CURSOR"
    else if rid == RT_BITMAP then "BITMAP"
    else if rid == RT_ICON then "ICON"
    else if rid == RT_MENU then "MENU"
    else if rid == RT_DIALOG then "DIALOG"
    else if rid == RT_STRING then "STRING"
    else if rid == RT_FONTDIR then "FONTDIR"
    else if rid == RT_FONT then "FONT"
    else if rid == RT_ACCELERATOR then "ACCELERATOR"
    else if rid == RT_RCDATA then "RCDATA"
    else if rid == RT_MESSAGETABLE then "MESSAGETABLE"
    else if rid == RT_GROUP_ICON then "GROUP_ICON"
    else if rid == RT_GROUP_CURSOR then "GROUP_CURSOR"
    else if rid == RT_VERSION then "VERSION"
    else if rid == RT_DLGINCLUDE then "DLGINCLUDE"
    else if rid == RT_PLUGPLAY then "PLUGPLAY"
    else if rid == RT_VXD then "VXD"
    else if rid == RT_ANICURSOR then "ANICURSOR"
    else if rid == RT_ANIICON then "ANIICON"
    else if rid == RT_HTML then "HTML"
    else if rid == RT_MANIFEST then "MANIFEST"
    else Decimal(rid.id)
  }

  /** The names of the predefined resource types, keyed by their numbers (winuser.h). */
  const PREDEFINED_TYPES: map<int, string> := map[
    1 := "CURSOR", 2 := "BITMAP", 3 := "ICON", 4 := "MENU", 5 := "DIALOG",
    6 := "STRING", 7 := "FONTDIR", 8 := "FONT", 9 := "ACCELERATOR",
    10 := "RCDATA", 11 := "MESSAGETABLE", 12 := "GROUP_CURSOR",
    14 := "GROUP_ICON", 16 := "VERSION", 17 := "DLGINCLUDE", 19 := "PLUGPLAY",
    20 := "VXD", 21 := "ANICURSOR", 22 := "ANIICON", 23 := "HTML",
    24 := "MANIFEST"]

  /** The chain of comparisons in getTypeName agrees with the table of predefined types. */
  lemma TypeNameTable(rid: ResId)
    ensures rid.StrId? ==> TypeName(rid) == rid.name
    ensures rid.IntId? && rid.id in PREDEFINED_TYPES ==> TypeName(rid) == PREDEFINED_TYPES[rid.id]
    ensures rid.IntId? && rid.id !in PREDEFINED_TYPES ==> TypeName(rid) == Decimal(rid.id)
  {
  }

  /** The table gives each predefined type a name of its own, none of them made of digits. */
  lemma PredefinedNamesDistinct(a: int, b: int)
    requires a in PREDEFINED_TYPES && b in PREDEFINED_TYPES
    ensures !IsDigit(PREDEFINED_TYPES[a][0])
    ensures PREDEFINED_TYPES[a] == PREDEFINED_TYPES[b] ==> a == b
  {
  }

  /** No two numeric types share a name under getTypeName. */
  lemma TypeNameInjective(a: word, b: word)
    requires TypeName(IntId(a)) == TypeName(IntId(b))
    ensures a == b
  {
    TypeNameTable(IntId(a));
    TypeNameTable(IntId(b));
    if a in PREDEFINED_TYPES && b in PREDEFINED_TYPES {
      PredefinedNamesDistinct(a, b);
    } else if a in PREDEFINED_TYPES {
      PredefinedNamesDistinct(a, a);
    } else if b in PREDEFINED_TYPES {
      PredefinedNamesDistinct(b, b);
    } else {
      DecimalInjective(a, b);
    }
  }

  /** getName: a string name as is, a numeric name in decimal. */
  function Name(rid: ResId): (r: string)
    ensures rid.StrId? ==> r == rid.name
    ensures rid.IntId? ==> 0 < |r| && forall i :: 0 <= i < |r| ==> IsDigit(r[i])
  {
    if rid.IntId? then Decimal(rid.id) else rid.name
  }

  /** The name of a numeric resource is a text of digits that reads back as its number. */
  lemma NameOfNumber(rid: ResId)
    requires rid.IntId?
    ensures forall i :: 0 <= i < |Name(rid)| ==> IsDigit(Name(rid)[i])
    ensures DecimalValue(Name(rid)) == rid.id
  {
    DecimalRoundTrip(rid.id);
  }

  // ---------------------------------------------------------------------
  // sanitizeFilename
  // ---------------------------------------------------------------------

  /** iswprint, on the ASCII range. */
  predicate IsPrint(c: char)
  {
    ' ' <= c <= '~'
  }

  /** The characters a Windows file name may not contain, in ASCII order. */
  const INVALIDS: seq<char> := ['"', '*', '/', ':', '<', '>', '?', '\\', '|']

  /** The device names Windows reserves. */
  const RESERVED: seq<string> := [
    "CON", "PRN", "AUX", "CLOCK$", "NUL",
    "COM0", "COM1", "COM2", "COM3", "COM4", "COM5", "COM6", "COM7", "COM8", "COM9",
    "LPT0", "LPT1", "LPT2", "LPT3", "LPT4", "LPT5", "LPT6", "LPT7", "LPT8", "LPT9"]

  /** A character that may stay in a file name. */
  predicate Allowed(c: char)
  {
    IsPrint(c) && c !in INVALIDS
  }

  /** What the first loop of sanitizeFilename leaves of one character. */
  function SanitizeChar(c: char): char
  {
    if !IsPrint(c) || c in INVALIDS then '_' else c
  }

  /** The file name after the first loop: every character replaced as SanitizeChar says. */
  function ReplaceInvalid(s: string): (r: string)
    ensures |r| == |s| && forall i :: 0 <= i < |s| ==> r[i] == SanitizeChar(s[i])
  {
    seq(|s|, i requires 0 <= i < |s| => SanitizeChar(s[i]))
  }

  /** ::toupper, on the ASCII range. */
  function ToUpper(c: char): char
  {
    if 'a' <= c <= 'z' then (c as int - 32) as char else c
  }

  function Upper(s: string): (r: string)
    ensures |r| == |s| && forall i :: 0 <= i < |s| ==> r[i] == ToUpper(s[i])
  {
    seq(|s|, i requires 0 <= i < |s| => ToUpper(s[i]))
  }

  /** What sanitizeFilename returns. */
  function Sanitize(s: string): (r: string)
    ensures |s| <= |r| <= |s| + 1 && r[..|s|] == ReplaceInvalid(s)
  {
    var r := ReplaceInvalid(s);
    if Upper(r) in RESERVED then r + "_" else r
  }

  /** sanitizeFilename: the replacing loop over the characters, then the reserved-name suffix. */
  method SanitizeFilename(filename: string) returns (r: string)
    ensures r == Sanitize(filename)
  {
    r := filename;
    var i := 0;
    while i < |r|
      invariant |r| == |filename| && 0 <= i <= |r|
      invariant forall k :: 0 <= k < i ==> r[k] == SanitizeChar(filename[k])
      invariant forall k :: i <= k < |r| ==> r[k] == filename[k]
    {
      if !IsPrint(r[i]) || r[i] in INVALIDS {
        r := r[i := '_'];
      }
      i := i + 1;
    }
    assert r == ReplaceInvalid(filename);
    var upper := Upper(r);
    if upper in RESERVED {
      r := r + "_";
    }
  }

  /**
    Positions are kept and each character is cleaned on its own; one '_'
    is appended exactly when the cleaned name, upper-cased, is reserved.
   */
  lemma SanitizeShape(s: string)
    ensures var r := Sanitize(s);
      && (|r| == |s| || |r| == |s| + 1)
      && (forall i :: 0 <= i < |s| ==> r[i] == SanitizeChar(s[i]))
      && (forall i :: 0 <= i < |s| && Allowed(s[i]) ==> r[i] == s[i])
      && (|r| == |s| + 1 <==> Upper(ReplaceInvalid(s)) in RESERVED)
      && (|r| == |s| + 1 ==> r[|s|] == '_')
  {
  }

  /** A sanitized name holds only printable characters and none of the invalid ones. */
  lemma SanitizeClean(s: string)
    ensures forall i :: 0 <= i < |Sanitize(s)| ==> Allowed(Sanitize(s)[i])
  {
    var r := ReplaceInvalid(s);
    assert forall i :: 0 <= i < |r| ==> Allowed(r[i]);
  }

  /** No reserved name ends in '_', and none contains '.'. */
  lemma ReservedShapes(u: string)
    requires u in RESERVED
    ensures 0 < |u| && u[|u| - 1] != '_'
    ensures forall i :: 0 <= i < |u| ==> u[i] != '.'
  {
  }

  /** A name is left alone exactly when it is clean and not a reserved name. */
  lemma SanitizeFixedPoint(s: string)
    ensures Sanitize(s) == s <==> (forall i :: 0 <= i < |s| ==> Allowed(s[i])) && Upper(s) !in RESERVED
  {
    var r := ReplaceInvalid(s);
    if forall i :: 0 <= i < |s| ==> Allowed(s[i]) {
      assert r == s;
    }
    if Sanitize(s) == s {
      assert |Sanitize(s)| == |s|;
      assert r == s;
      forall i | 0 <= i < |s|
        ensures Allowed(s[i])
      {
        assert SanitizeChar(s[i]) == s[i];
      }
    }
  }

  /** Sanitizing twice is sanitizing once. */
  lemma SanitizeIdempotent(s: string)
    ensures Sanitize(Sanitize(s)) == Sanitize(s)
  {
    var r := ReplaceInvalid(s);
    var t := Sanitize(s);
    SanitizeClean(s);
    if Upper(r) in RESERVED {
      var u := Upper(t);
      assert u[|u| - 1] == '_';
      if u in RESERVED {
        ReservedShapes(u);
      }
    } else {
      assert t == r;
    }
    SanitizeFixedPoint(t);
  }

  // ---------------------------------------------------------------------
  // getPath
  // ---------------------------------------------------------------------

  /** getPath: the file "<name>.<ext>", sanitized, inside directory. */
  function GetPath(directory: string, name: ResId, ext: string): (r: string)
    ensures directory + "\\" <= r
    ensures |r| >= |directory| + |Name(name)| + |ext| + 2
  {
    directory + "\\" + Sanitize(Name(name) + "." + ext)
  }

  lemma ReplaceInvalidConcat(a: string, b: string)
    ensures ReplaceInvalid(a + b) == ReplaceInvalid(a) + ReplaceInvalid(b)
  {
  }

  /**
    The reserved-name suffix never applies to a path: what is checked is
    the whole "<name>.<ext>", and no reserved name holds a '.'. The file
    part is the cleaned name and the cleaned extension around the '.', and
    it holds no path separator.
   */
  lemma GetPathLayout(directory: string, name: ResId, ext: string)
    ensures var file := ReplaceInvalid(Name(name)) + "." + ReplaceInvalid(ext);
      && GetPath(directory, name, ext) == directory + "\\" + file
      && forall i :: 0 <= i < |file| ==> Allowed(file[i])
  {
    var n := Name(name);
    var f := n + "." + ext;
    ReplaceInvalidConcat(n, ".");
    ReplaceInvalidConcat(n + ".", ext);
    var r := ReplaceInvalid(f);
    assert r[|n|] == '.';
    var u := Upper(r);
    if u in RESERVED {
      ReservedShapes(u);
      assert false;
    }
    SanitizeClean(f);
  }
}
