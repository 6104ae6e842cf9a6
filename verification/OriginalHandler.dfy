/** `src/handler/OriginalHandler.cpp` and `InitializeOriginalHandler`: which handler the proxy delegates to. */
module OriginalHandler {
  import opened Common
  import opened PowerShell
  import opened Decimal
  import opened Registry
  import InstallPlan
  import MetadataParser

  /** Results the handler code returns; `Failed` stands for any other failure code of a component behind it. */
  datatype HResult =
    | Ok | SFalse | PointerError | Unexpected | AlreadyInitialized | GeneralFailure | NotSupported | ErrorNotFound
    | SelfReference | AccessDenied | Failed(code: nat)
  {
    predicate Succeeded() {
      this == Ok || this == SFalse
    }
  }

  /** The text form of a CLSID: braces, and groups of hexadecimal digits of lengths 8, 4, 4, 4 and 12. */
  predicate IsClsidText(s: string) {
    && |s| == 38 && s[0] == '{' && s[37] == '}'
    && forall i | 0 < i < 37 :: if i == 9 || i == 14 || i == 19 || i == 24 then s[i] == '-' else IsHex(s[i])
  }

  /** `CLSIDFromString`: two texts denote the same CLSID exactly when they differ in case only. */
  function ParseClsid(s: string): Option<string> {
    if IsClsidText(s) then Some(Fold(s)) else None
  }

  /** The same, place by place. */
  lemma ClsidsAreHexInBraces(s: string, i: nat)
    requires |s| == 38 && s[0] == '{' && s[37] == '}' && s[9] == s[14] == s[19] == s[24] == '-'
    requires 0 < i < 37 && i !in {9, 14, 19, 24}
    ensures s[i] !in "0123456789abcdefABCDEF" ==> ParseClsid(s) == None
    ensures (forall k | 0 < k < 37 && k !in {9, 14, 19, 24} :: s[k] in "0123456789abcdefABCDEF") ==>
      ParseClsid(s) == Some(Fold(s))
  {
    hide Fold;
    forall c: char
      ensures IsHex(c) <==> c in "0123456789abcdefABCDEF"
    {
      HexDigits(c);
    }
  }

  lemma ClsidsHaveBraces(s: string)
    requires ParseClsid(s).Some?
    ensures |s| == 38 && s[0] == '{' && s[37] == '}' && s[9] == s[14] == s[19] == s[24] == '-'
  {
  }

  lemma HexDigits(c: char)
    ensures IsHex(c) <==> c in "0123456789abcdefABCDEF"
  {
    var digits := "0123456789abcdefABCDEF";
    if IsHex(c) {
      var k := if c <= '9' then c as int - '0' as int else if c >= 'a' then c as int - 'a' as int + 10
        else c as int - 'A' as int + 16;
      assert digits[k] == c;
    }
  }

  /** `RegQueryValueExW` into a buffer of 64 wide characters, of a value that must be REG_SZ. */
  function ReadSaved(reg: map<Loc, RegValue>, e: Ext): Option<string> {
    var v := Get(reg, InstallPlan.SavedAt(e));
    if v.None? || !v.value.Sz? || |v.value.text| + 1 > 64 then None else ParseClsid(v.value.text)
  }

  /** Only REG_SZ text is taken for a CLSID, and only when it fits the buffer with its terminator. */
  lemma OnlyShortTextIsRead(reg: map<Loc, RegValue>, e: Ext)
    ensures var v := Get(reg, InstallPlan.SavedAt(e));
      && (v.None? || !v.value.Sz? ==> ReadSaved(reg, e) == None)
      && (v.Some? && v.value.Sz? && |v.value.text| >= 64 ==> ReadSaved(reg, e) == None)
      && (v.Some? && v.value.Sz? && IsClsidText(v.value.text) ==> ReadSaved(reg, e) == Some(Fold(v.value.text)))
      && (v.Some? && v.value.Sz? && !IsClsidText(v.value.text) ==> ReadSaved(reg, e) == None)
  {
  }

  function CanonicalExtensionFor(f: MetadataParser.Format): Option<Ext> {
    match f
    case PngContainer => Some(Png)
    case JpegContainer => Some(Jpg)
    case TiffContainer => Some(Tif)
    case _ => None
  }

  /** The CLSID to instantiate, or why there is none. */
  function ChooseOriginal(reg: map<Loc, RegValue>, f: MetadataParser.Format): (r: (HResult, Option<string>))
    ensures r.0 == Ok <==> r.1.Some?
    ensures r.1.Some? ==> r.1.value != Fold(PROJECT_CLSID)
  {
    var e := CanonicalExtensionFor(f);
    if e.None? then (NotSupported, None)
    else
      var saved := ReadSaved(reg, e.value);
      if saved.None? then (ErrorNotFound, None)
      else if saved.value == Fold(PROJECT_CLSID) then (SelfReference, None)
      else (Ok, saved)
  }

  /** A saved CLSID of the project itself is refused, and a file of no supported format is not looked up. */
  lemma RefusesItself(reg: map<Loc, RegValue>, f: MetadataParser.Format)
    ensures f.SvgContainer? || f.PdfContainer? || f.UnknownContainer? ==>
      ChooseOriginal(reg, f) == (NotSupported, None)
    ensures f == MetadataParser.PngContainer && ReadSaved(reg, Png) == Some(Fold(PROJECT_CLSID)) ==>
      ChooseOriginal(reg, f) == (SelfReference, None)
    ensures f == MetadataParser.JpegContainer && ReadSaved(reg, Jpg) == Some(Fold(PROJECT_CLSID)) ==>
      ChooseOriginal(reg, f) == (SelfReference, None)
    ensures f == MetadataParser.TiffContainer && ReadSaved(reg, Tif) == Some(Fold(PROJECT_CLSID)) ==>
      ChooseOriginal(reg, f) == (SelfReference, None)
  {
    hide ReadSaved;
  }
}
