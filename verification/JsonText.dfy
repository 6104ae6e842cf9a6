/** JSON text (RFC 8259) without white space: a printer, a reader, and that the reader inverts the printer. A byte is a
    character below 256; text is UTF-8. */
module JsonText {
  import opened Common
  import opened Decimal

  datatype Json =
    | Null
    | Bool(flag: bool)
    | Number(value: nat)
    | String(text: string)
    | Array(items: seq<Json>)
    | Object(members: seq<Member>)

  datatype Member = Member(name: string, value: Json)

  // ---------------------------------------------------------------- printing

  function HexDigit(d: nat): (c: char)
    requires d < 16
  {
    if d < 10 then DigitChar(d) else (d - 10 + 'a' as int) as char
  }

  function EscapeChar(c: char): (s: string)
    ensures s != ""
  {
    if c == '"' then "\\\""
    else if c == '\\' then "\\\\"
    else if c == 8 as char then "\\b"
    else if c == 12 as char then "\\f"
    else if c == '\n' then "\\n"
    else if c == '\r' then "\\r"
    else if c == '\t' then "\\t"
    else if c < ' ' then "\\u00" + [HexDigit(c as int / 16), HexDigit(c as int % 16)]
    else [c]
  }

  function Escape(s: string): string {
    if s == "" then "" else EscapeChar(s[0]) + Escape(s[1..])
  }

  function Quoted(s: string): string {
    "\"" + Escape(s) + "\""
  }

  function Print(v: Json): string
    decreases v
  {
    match v
    case Null => "null"
    case Bool(b) => if b then "true" else "false"
    case Number(n) => NumberText(n)
    case String(s) => Quoted(s)
    case Array(items) => "[" + PrintItems(items) + "]"
    case Object(members) => "{" + PrintMembers(members) + "}"
  }

  function PrintItems(items: seq<Json>): string
    decreases items
  {
    if items == [] then ""
    else if |items| == 1 then Print(items[0])
    else Print(items[0]) + "," + PrintItems(items[1..])
  }

  function PrintMember(m: Member): string
    decreases m
  {
    Quoted(m.name) + ":" + Print(m.value)
  }

  function PrintMembers(members: seq<Member>): string
    decreases members
  {
    if members == [] then ""
    else if |members| == 1 then PrintMember(members[0])
    else PrintMember(members[0]) + "," + PrintMembers(members[1..])
  }

  // ---------------------------------------------------------------- reading

  /** What was read, and the text behind it. */
  datatype Read<T> = Read(value: T, rest: string)

  function HexValue(c: char): (d: nat)
    requires IsHex(c)
    ensures d < 16
  {
    if IsDigit(c) then DigitValue(c) else if 'a' <= c then c as int - 'a' as int + 10 else c as int - 'A' as int + 10
  }

  /** The UTF-8 bytes of a code point of the basic plane. */
  function Utf8(code: nat): string
    requires code < 0x1_0000
  {
    if code < 0x80 then [code as char]
    else if code < 0x800 then [(0xC0 + code / 0x40) as char, (0x80 + code % 0x40) as char]
    else [(0xE0 + code / 0x1000) as char, (0x80 + code / 0x40 % 0x40) as char, (0x80 + code % 0x40) as char]
  }

  function SimpleEscape(c: char): Option<char> {
    if c == '"' || c == '\\' || c == '/' then Some(c)
    else if c == 'b' then Some(8 as char)
    else if c == 'f' then Some(12 as char)
    else if c == 'n' then Some('\n')
    else if c == 'r' then Some('\r')
    else if c == 't' then Some('\t')
    else None
  }

  /** One `char` of section 7: any byte from 0x20 on except a backslash, or an escape. Surrogate escapes are not
      read. */
  function ReadChar(s: string): (r: Option<Read<string>>)
    requires s != ""
    ensures r.Some? ==> |r.value.rest| < |s|
  {
    if s[0] < ' ' then None
    else if s[0] != '\\' then Some(Read([s[0]], s[1..]))
    else if |s| >= 2 && SimpleEscape(s[1]).Some? then Some(Read([SimpleEscape(s[1]).value], s[2..]))
    else if |s| >= 6 && s[1] == 'u' && IsHex(s[2]) && IsHex(s[3]) && IsHex(s[4]) && IsHex(s[5]) then
      var code := ((HexValue(s[2]) * 16 + HexValue(s[3])) * 16 + HexValue(s[4])) * 16 + HexValue(s[5]);
      if 0xD800 <= code < 0xE000 then None else Some(Read(Utf8(code), s[6..]))
    else None
  }

  /** The rest of a string, up to and with its closing quote. */
  function ReadBody(s: string): (r: Option<Read<string>>)
    ensures r.Some? ==> |r.value.rest| < |s|
    decreases |s|
  {
    if s == "" then None
    else if s[0] == '"' then Some(Read("", s[1..]))
    else
      var first := ReadChar(s);
      if first.None? then None
      else
        var others := ReadBody(first.value.rest);
        if others.None? then None else Some(Read(first.value.value + others.value.value, others.value.rest))
  }

  function ReadString(s: string): (r: Option<Read<string>>)
    ensures r.Some? ==> |r.value.rest| < |s|
  {
    if s != "" && s[0] == '"' then ReadBody(s[1..]) else None
  }

  function DigitsEnd(s: string): (n: nat)
    ensures n <= |s| && AllDigits(s[..n])
  {
    if s == "" || !IsDigit(s[0]) then 0
    else
      var n := DigitsEnd(s[1..]);
      assert s[..n + 1] == [s[0]] + s[1..][..n];
      n + 1
  }

  /** A natural number: no leading zero, unless it is zero. */
  function ReadNumber(s: string): (r: Option<Read<nat>>)
    ensures r.Some? ==> |r.value.rest| < |s|
  {
    var n := DigitsEnd(s);
    if n == 0 || (n > 1 && s[0] == '0') then None else Some(Read(ParseNat(s[..n]), s[n..]))
  }

  function ReadWord(s: string, word: string, v: Json): (r: Option<Read<Json>>)
    requires word != ""
    ensures r.Some? ==> |r.value.rest| < |s|
  {
    if word <= s then Some(Read(v, s[|word|..])) else None
  }

  function Parse(s: string): (r: Option<Read<Json>>)
    ensures r.Some? ==> |r.value.rest| < |s|
    decreases |s|, 0
  {
    if s == "" then None
    else if s[0] == 'n' then ReadWord(s, "null", Null)
    else if s[0] == 't' then ReadWord(s, "true", Bool(true))
    else if s[0] == 'f' then ReadWord(s, "false", Bool(false))
    else if s[0] == '"' then
      var r := ReadString(s);
      if r.None? then None else Some(Read(String(r.value.value), r.value.rest))
    else if s[0] == '[' then
      if |s| > 1 && s[1] == ']' then Some(Read(Array([]), s[2..]))
      else
        var r := ParseItems(s[1..]);
        if r.None? then None else Some(Read(Array(r.value.value), r.value.rest))
    else if s[0] == '{' then
      if |s| > 1 && s[1] == '}' then Some(Read(Object([]), s[2..]))
      else
        var r := ParseMembers(s[1..]);
        if r.None? then None else Some(Read(Object(r.value.value), r.value.rest))
    else
      var r := ReadNumber(s);
      if r.None? then None else Some(Read(Number(r.value.value), r.value.rest))
  }

  /** One or more values with commas between them, and the closing bracket. */
  function ParseItems(s: string): (r: Option<Read<seq<Json>>>)
    ensures r.Some? ==> |r.value.rest| < |s|
    decreases |s|, 1
  {
    var first := Parse(s);
    if first.None? || first.value.rest == "" then None
    else
      var v, rest := first.value.value, first.value.rest;
      if rest[0] == ']' then Some(Read([v], rest[1..]))
      else if rest[0] == ',' then
        var others := ParseItems(rest[1..]);
        if others.None? then None else Some(Read([v] + others.value.value, others.value.rest))
      else None
  }

  function ParseMember(s: string): (r: Option<Read<Member>>)
    ensures r.Some? ==> |r.value.rest| < |s|
    decreases |s|, 1
  {
    var name := ReadString(s);
    if name.None? || name.value.rest == "" || name.value.rest[0] != ':' then None
    else
      var v := Parse(name.value.rest[1..]);
      if v.None? then None else Some(Read(Member(name.value.value, v.value.value), v.value.rest))
  }

  /** One or more members with commas between them, and the closing brace. */
  function ParseMembers(s: string): (r: Option<Read<seq<Member>>>)
    ensures r.Some? ==> |r.value.rest| < |s|
    decreases |s|, 2
  {
    var first := ParseMember(s);
    if first.None? || first.value.rest == "" then None
    else
      var m, rest := first.value.value, first.value.rest;
      if rest[0] == '}' then Some(Read([m], rest[1..]))
      else if rest[0] == ',' then
        var others := ParseMembers(rest[1..]);
        if others.None? then None else Some(Read([m] + others.value.value, others.value.rest))
      else None
  }

  /** The value of a whole text. */
  function ParseText(s: string): Option<Json> {
    var r := Parse(s);
    if r.Some? && r.value.rest == "" then Some(r.value.value) else None
  }

  // ---------------------------------------------------------------- strings come back

  /** One escaped character is read back as that character, and reading goes on behind it; it is never taken for the
      closing quote. */
  lemma EscapedCharReads(c: char, rest: string)
    ensures EscapeChar(c)[0] != '"'
    ensures ReadChar(EscapeChar(c) + rest) == Some(Read([c], rest))
  {
    var s := EscapeChar(c) + rest;
    assert s[|EscapeChar(c)|..] == rest;
    if EscapeChar(c) == [c] {
    } else if |EscapeChar(c)| == 2 {
      assert s[1] == EscapeChar(c)[1];
    } else {
      assert s[1] == 'u' && s[2] == '0' && s[3] == '0' && s[4] == EscapeChar(c)[4] && s[5] == EscapeChar(c)[5];
    }
  }

  /** An escaped string with its closing quote is read back, whatever follows. */
  lemma {:induction false} EscapedReads(s: string, rest: string)
    ensures ReadBody(Escape(s) + "\"" + rest) == Some(Read(s, rest))
  {
    hide EscapeChar, ReadChar;
    var whole := Escape(s) + "\"" + rest;
    if s == "" {
      assert whole == "\"" + rest;
      assert whole[1..] == rest;
    } else {
      var tail := Escape(s[1..]) + "\"" + rest;
      assert whole == EscapeChar(s[0]) + tail;
      EscapedCharReads(s[0], tail);
      EscapedReads(s[1..], rest);
      assert [s[0]] + s[1..] == s;
    }
  }

  /** The escaped text has no byte below 0x20, and no quote that does not stand behind a backslash. */
  lemma {:induction false} EscapedIsClean(s: string, i: nat)
    requires i < |Escape(s)|
    ensures Escape(s)[i] >= ' '
    ensures Escape(s)[i] == '"' ==> i > 0 && Escape(s)[i - 1] == '\\'
  {
    var first := EscapeChar(s[0]);
    var others := Escape(s[1..]);
    assert Escape(s) == first + others;
    if i >= |first| {
      EscapedIsClean(s[1..], i - |first|);
    }
  }

  predicate IsPlain(s: string) {
    forall i | 0 <= i < |s| :: s[i] >= ' ' && s[i] != '"' && s[i] != '\\'
  }

  lemma {:induction false} PlainStays(s: string)
    requires IsPlain(s)
    ensures Escape(s) == s
  {
    if s != "" {
      PlainStays(s[1..]);
      assert [s[0]] + s[1..] == s;
    }
  }

  lemma QuotedReads(s: string, rest: string)
    ensures ReadString(Quoted(s) + rest) == Some(Read(s, rest))
  {
    hide Escape, ReadBody;
    EscapedReads(s, rest);
    assert (Quoted(s) + rest)[1..] == Escape(s) + "\"" + rest;
  }

  lemma EscapeOne(c: char)
    ensures Escape([c]) == EscapeChar(c)
  {
    hide EscapeChar;
    assert Escape([c][1..]) == "";
  }

  /** The short escapes. */
  lemma ShortEscapes()
    ensures Escape("\"") == "\\\"" && Escape("\\") == "\\\\" && Escape("\n") == "\\n" && Escape("\r") == "\\r" &&
      Escape("\t") == "\\t" && Escape([8 as char]) == "\\b" && Escape([12 as char]) == "\\f"
  {
    hide Escape;
    EscapeOne('"');
    EscapeOne('\\');
    EscapeOne('\n');
    EscapeOne('\r');
    EscapeOne('\t');
    EscapeOne(8 as char);
    EscapeOne(12 as char);
  }

  /** The long escape, four digits in lower case; and what is not escaped. */
  lemma LongEscapes()
    ensures Escape([0 as char]) == "\\u0000" && Escape([11 as char]) == "\\u000b" && Escape([31 as char]) == "\\u001f"
    ensures forall c: char | c >= ' ' && c != '"' && c != '\\' :: Escape([c]) == [c]
  {
    hide Escape;
    EscapeOne(0 as char);
    EscapeOne(11 as char);
    EscapeOne(31 as char);
    forall c: char | c >= ' ' && c != '"' && c != '\\'
      ensures Escape([c]) == [c]
    {
      EscapeOne(c);
    }
  }

  // ---------------------------------------------------------------- numbers come back

  lemma {:induction false} DigitsThenRest(d: string, rest: string)
    requires AllDigits(d) && (rest == "" || !IsDigit(rest[0]))
    ensures DigitsEnd(d + rest) == |d|
  {
    if d == "" {
      assert d + rest == rest;
    } else {
      assert (d + rest)[1..] == d[1..] + rest;
      DigitsThenRest(d[1..], rest);
    }
  }

  lemma {:induction false} NoLeadingZero(n: nat)
    ensures |NumberText(n)| == 1 || NumberText(n)[0] != '0'
    ensures n > 0 ==> NumberText(n)[0] != '0'
  {
    if n >= 10 {
      NoLeadingZero(n / 10);
      assert NumberText(n)[0] == NumberText(n / 10)[0];
    }
  }

  lemma NumberReads(n: nat, rest: string)
    requires rest == "" || !IsDigit(rest[0])
    ensures ReadNumber(NumberText(n) + rest) == Some(Read(n, rest))
    ensures IsDigit((NumberText(n) + rest)[0])
  {
    hide NumberText, ParseNat;
    var d := NumberText(n);
    DigitsThenRest(d, rest);
    NoLeadingZero(n);
    ParseNumberText(n);
    assert (d + rest)[..|d|] == d && (d + rest)[|d|..] == rest;
  }

  // ---------------------------------------------------------------- values come back

  /** Text a value cannot run on into. */
  predicate Ends(rest: string) {
    rest == "" || !IsDigit(rest[0])
  }

  lemma {:induction false} PrintedReads(v: Json, rest: string)
    requires Ends(rest)
    ensures Parse(Print(v) + rest) == Some(Read(v, rest))
    ensures Print(v) != "" && Print(v)[0] != ']'
    decreases v
  {
    hide *;
    match v
    case Array(items) =>
      if items != [] {
        PrintedItemsRead(items, rest);
      }
      ArrayReads(items, rest);
    case Object(members) =>
      if members != [] {
        PrintedMembersRead(members, rest);
      }
      ObjectReads(members, rest);
    case _ => ScalarReads(v, rest);
  }

  lemma ScalarReads(v: Json, rest: string)
    requires !v.Array? && !v.Object? && Ends(rest)
    ensures Parse(Print(v) + rest) == Some(Read(v, rest))
    ensures Print(v) != "" && Print(v)[0] != ']'
  {
    hide Quoted, ReadString, ReadNumber, NumberText;
    var s := Print(v) + rest;
    match v
    case Null => assert s[4..] == rest;
    case Bool(b) => assert s[|Print(v)|..] == rest;
    case Number(n) => NumberReads(n, rest);
    case String(t) =>
      QuotedReads(t, rest);
      QuotedStarts(t);
  }

  lemma ArrayReads(items: seq<Json>, rest: string)
    requires items != [] ==>
      && PrintItems(items) != "" && PrintItems(items)[0] != ']'
      && ParseItems(PrintItems(items) + "]" + rest) == Some(Read(items, rest))
    ensures Parse(Print(Array(items)) + rest) == Some(Read(Array(items), rest))
    ensures Print(Array(items)) != "" && Print(Array(items))[0] != ']'
  {
    hide PrintItems, ParseItems;
    var s := Print(Array(items)) + rest;
    if items == [] {
      EmptyPrints();
      assert s == "[]" + rest;
      assert s[2..] == rest;
    } else {
      assert s[1..] == PrintItems(items) + "]" + rest;
      assert s[1] == PrintItems(items)[0];
    }
  }

  lemma ObjectReads(members: seq<Member>, rest: string)
    requires members != [] ==>
      && PrintMembers(members) != "" && PrintMembers(members)[0] == '"'
      && ParseMembers(PrintMembers(members) + "}" + rest) == Some(Read(members, rest))
    ensures Parse(Print(Object(members)) + rest) == Some(Read(Object(members), rest))
    ensures Print(Object(members)) != "" && Print(Object(members))[0] != ']'
  {
    hide PrintMembers, ParseMembers;
    var s := Print(Object(members)) + rest;
    if members == [] {
      EmptyPrints();
      assert s == "{}" + rest;
      assert s[2..] == rest;
    } else {
      assert s[1..] == PrintMembers(members) + "}" + rest;
      assert s[1] == PrintMembers(members)[0];
    }
  }

  lemma EmptyPrints()
    ensures PrintItems([]) == "" && PrintMembers([]) == ""
  {
  }

  lemma QuotedStarts(s: string)
    ensures Quoted(s) != "" && Quoted(s)[0] == '"'
  {
  }

  lemma Moved(a: string, b: string, c: string, d: string)
    ensures a + ("," + b) + c + d == a + ("," + (b + c + d))
  {
  }

  lemma ItemsCons(v: Json, rest: seq<Json>)
    ensures PrintItems([v] + rest) == Print(v) + (if rest == [] then "" else "," + PrintItems(rest))
  {
    hide Print;
    assert ([v] + rest)[1..] == rest;
  }

  lemma LastItem(s: string, v: Json, tail: string)
    requires Parse(s) == Some(Read(v, tail)) && tail != "" && tail[0] == ']'
    ensures ParseItems(s) == Some(Read([v], tail[1..]))
  {
    hide Parse;
  }

  lemma NextItem(s: string, v: Json, tail: string, others: seq<Json>, rest: string)
    requires Parse(s) == Some(Read(v, tail)) && tail != "" && tail[0] == ','
    requires ParseItems(tail[1..]) == Some(Read(others, rest))
    ensures ParseItems(s) == Some(Read([v] + others, rest))
  {
    hide Parse;
  }

  lemma {:induction false} PrintedItemsRead(items: seq<Json>, rest: string)
    requires items != []
    ensures ParseItems(PrintItems(items) + "]" + rest) == Some(Read(items, rest))
    ensures PrintItems(items) != "" && PrintItems(items)[0] != ']'
    decreases items
  {
    hide Print, Parse, ParseItems, PrintItems;
    var v, others := items[0], items[1..];
    assert [v] + others == items;
    ItemsCons(v, others);
    var whole := PrintItems(items) + "]" + rest;
    if others == [] {
      var tail := "]" + rest;
      PrintedReads(v, tail);
      Assoc(Print(v), "]", rest);
      assert Print(v) + "" == Print(v);
      assert tail[1..] == rest;
      assert [v] == items;
      LastItem(whole, v, tail);
    } else {
      var next := PrintItems(others) + "]" + rest;
      var tail := "," + next;
      PrintedReads(v, tail);
      PrintedItemsRead(others, rest);
      Moved(Print(v), PrintItems(others), "]", rest);
      assert tail[1..] == next;
      NextItem(whole, v, tail, others, rest);
    }
  }

  lemma {:induction false} PrintedMemberReads(m: Member, rest: string)
    requires Ends(rest)
    ensures ParseMember(PrintMember(m) + rest) == Some(Read(m, rest))
    ensures PrintMember(m) != "" && PrintMember(m)[0] == '"'
    decreases m
  {
    hide Print, Parse, Quoted, ReadString;
    var tail := ":" + Print(m.value) + rest;
    QuotedReads(m.name, tail);
    QuotedStarts(m.name);
    assert PrintMember(m) + rest == Quoted(m.name) + tail;
    assert tail[1..] == Print(m.value) + rest;
    PrintedReads(m.value, rest);
  }

  lemma MembersCons(m: Member, rest: seq<Member>)
    ensures PrintMembers([m] + rest) == PrintMember(m) + (if rest == [] then "" else "," + PrintMembers(rest))
  {
    hide PrintMember;
    assert ([m] + rest)[1..] == rest;
  }

  lemma LastMember(s: string, m: Member, tail: string)
    requires ParseMember(s) == Some(Read(m, tail)) && tail != "" && tail[0] == '}'
    ensures ParseMembers(s) == Some(Read([m], tail[1..]))
  {
    hide ParseMember;
  }

  lemma NextMember(s: string, m: Member, tail: string, others: seq<Member>, rest: string)
    requires ParseMember(s) == Some(Read(m, tail)) && tail != "" && tail[0] == ','
    requires ParseMembers(tail[1..]) == Some(Read(others, rest))
    ensures ParseMembers(s) == Some(Read([m] + others, rest))
  {
    hide ParseMember;
  }

  lemma {:induction false} PrintedMembersRead(members: seq<Member>, rest: string)
    requires members != []
    ensures ParseMembers(PrintMembers(members) + "}" + rest) == Some(Read(members, rest))
    ensures PrintMembers(members) != "" && PrintMembers(members)[0] == '"'
    decreases members
  {
    hide PrintMember, ParseMember, ParseMembers, PrintMembers;
    var m, others := members[0], members[1..];
    assert [m] + others == members;
    MembersCons(m, others);
    var whole := PrintMembers(members) + "}" + rest;
    if others == [] {
      var tail := "}" + rest;
      PrintedMemberReads(m, tail);
      Assoc(PrintMember(m), "}", rest);
      assert PrintMember(m) + "" == PrintMember(m);
      assert tail[1..] == rest;
      assert [m] == members;
      LastMember(whole, m, tail);
    } else {
      var next := PrintMembers(others) + "}" + rest;
      var tail := "," + next;
      PrintedMemberReads(m, tail);
      PrintedMembersRead(others, rest);
      Moved(PrintMember(m), PrintMembers(others), "}", rest);
      assert tail[1..] == next;
      NextMember(whole, m, tail, others, rest);
    }
  }

  /** Printed text is well-formed, and means what was printed. */
  lemma ParsesWhatWasPrinted(v: Json)
    ensures ParseText(Print(v)) == Some(v)
  {
    hide Print, Parse;
    PrintedReads(v, "");
    assert Print(v) + "" == Print(v);
  }

  // ---------------------------------------------------------------- growing at the end

  lemma NothingBefore(s: string)
    ensures "" + "" + s == s && s + "" == s
  {
  }

  lemma Regrouped(a: string, b: string, c: string)
    ensures a + ("," + (b + "," + c)) == a + ("," + b) + "," + c
  {
  }

  lemma {:induction false} ItemsGrow(items: seq<Json>, v: Json)
    ensures PrintItems(items + [v]) == PrintItems(items) + (if items == [] then "" else ",") + Print(v)
    decreases |items|
  {
    hide *;
    if items == [] {
      ItemsCons(v, []);
      EmptyPrints();
      assert items + [v] == [v] + [];
      NothingBefore(Print(v));
    } else {
      var first, others := items[0], items[1..];
      ItemsCons(first, others);
      ItemsCons(first, others + [v]);
      assert [first] + others == items;
      assert [first] + (others + [v]) == items + [v];
      ItemsGrow(others, v);
      if others == [] {
        EmptyPrints();
        NothingBefore(Print(v));
        Assoc(Print(first), ",", Print(v));
      } else {
        Regrouped(Print(first), PrintItems(others), Print(v));
      }
    }
  }

  lemma {:induction false} MembersGrow(members: seq<Member>, m: Member)
    ensures PrintMembers(members + [m]) == PrintMembers(members) + (if members == [] then "" else ",") + PrintMember(m)
    decreases |members|
  {
    hide *;
    if members == [] {
      MembersCons(m, []);
      EmptyPrints();
      assert members + [m] == [m] + [];
      NothingBefore(PrintMember(m));
    } else {
      var first, others := members[0], members[1..];
      MembersCons(first, others);
      MembersCons(first, others + [m]);
      assert [first] + others == members;
      assert [first] + (others + [m]) == members + [m];
      MembersGrow(others, m);
      if others == [] {
        EmptyPrints();
        NothingBefore(PrintMember(m));
        Assoc(PrintMember(first), ",", PrintMember(m));
      } else {
        Regrouped(PrintMember(first), PrintMembers(others), PrintMember(m));
      }
    }
  }
}
