/** `src/common/JsonWriter.cpp`: escaping, and the object writer that appends to a stream. */
module JsonWriter {
  import opened Common
  import opened Decimal
  import opened JsonText

  method JsonEscape(value: string) returns (out: string)
    ensures out == Escape(value)
  {
    hide EscapeChar;
    out := "";
    for i := 0 to |value|
      invariant out + Escape(value[i..]) == Escape(value)
    {
      Assoc(out, EscapeChar(value[i]), Escape(value[i + 1..]));
      assert value[i..][1..] == value[i + 1..];
      out := out + EscapeChar(value[i]);
    }
    assert out + "" == out;
  }

  /** A `std::ostream` that keeps what was written. */
  class OutputStream {
    var text: string

    constructor ()
      ensures text == ""
    {
      text := "";
    }

    method Write(s: string)
      modifies this
      ensures text == old(text) + s
    {
      text := text + s;
    }
  }

  function Joined(texts: seq<string>): string {
    if texts == [] then ""
    else if |texts| == 1 then texts[0]
    else Joined(ButLast(texts)) + "," + Last(texts)
  }

  lemma JoinedGrows(texts: seq<string>, t: string)
    ensures Joined(texts + [t]) == Joined(texts) + (if texts == [] then "" else ",") + t
  {
    assert ButLast(texts + [t]) == texts;
  }

  class JsonObjectWriter {
    const out: OutputStream
    var first: bool
    /** What the stream held before this object, and the members written so far. */
    ghost const before: string
    ghost var members: seq<string>

    ghost predicate Valid()
      reads this, out
    {
      && out.text == before + ("{" + Joined(members))
      && first == (members == [])
    }

    constructor (out: OutputStream)
      modifies out
      ensures Valid() && this.out == out
      ensures before == old(out.text) && members == []
    {
      this.out := out;
      first := true;
      before := out.text;
      members := [];
      new;
      out.Write("{");
    }

    /** The destructor. */
    method Close()
      requires Valid()
      modifies out
      ensures out.text == before + ("{" + Joined(members) + "}")
    {
      Assoc(before, "{" + Joined(members), "}");
      out.Write("}");
    }

    method Prefix(name: string)
      modifies this`first, out
      ensures !first
      ensures out.text == old(out.text) + ((if old(first) then "" else ",") + (Quoted(name) + ":"))
    {
      hide Escape;
      ghost var was, comma := out.text, if first then "" else ",";
      if !first {
        out.Write(",");
      }
      first := false;
      var escaped := JsonEscape(name);
      out.Write("\"" + escaped + "\"" + ":");
      Assoc(was, comma, Quoted(name) + ":");
    }

    method Raw(name: string, value: string)
      requires Valid()
      modifies this, out
      ensures Valid()
      ensures members == old(members) + [Quoted(name) + ":" + value]
    {
      hide Quoted;
      ghost var was, comma := Joined(members), if first then "" else ",";
      Prefix(name);
      out.Write(value);
      JoinedGrows(members, Quoted(name) + ":" + value);
      Grown(before, was, comma, Quoted(name) + ":", value);
      members := members + [Quoted(name) + ":" + value];
    }

    method String(name: string, value: string)
      requires Valid()
      modifies this, out
      ensures Valid()
      ensures members == old(members) + [PrintMember(Member(name, Json.String(value)))]
    {
      var escaped := JsonEscape(value);
      Raw(name, "\"" + escaped + "\"");
    }

    method Bool(name: string, value: bool)
      requires Valid()
      modifies this, out
      ensures Valid()
      ensures members == old(members) + [PrintMember(Member(name, Json.Bool(value)))]
    {
      Raw(name, if value then "true" else "false");
    }

    method Number(name: string, value: nat)
      requires Valid()
      modifies this, out
      ensures Valid()
      ensures members == old(members) + [PrintMember(Member(name, Json.Number(value)))]
    {
      Raw(name, NumberText(value));
    }
  }

  lemma Grown(before: string, was: string, comma: string, tag: string, value: string)
    ensures before + ("{" + was) + (comma + tag) + value == before + ("{" + (was + comma + (tag + value)))
  {
  }

  // ---------------------------------------------------------------- what a writer leaves is an object

  function Texts(members: seq<Member>): (texts: seq<string>)
    ensures |texts| == |members|
  {
    seq(|members|, i requires 0 <= i < |members| => PrintMember(members[i]))
  }

  lemma {:induction false} JoinedIsPrinted(members: seq<Member>)
    ensures Joined(Texts(members)) == PrintMembers(members)
    decreases |members|
  {
    hide PrintMember;
    if members != [] {
      var all, m := ButLast(members), Last(members);
      JoinedIsPrinted(all);
      MembersGrow(all, m);
      JoinedGrows(Texts(all), PrintMember(m));
      assert all + [m] == members;
      assert Texts(members) == Texts(all) + [PrintMember(m)];
    } else {
      assert Texts(members) == [];
    }
  }

  /** An object writer that got these members leaves text that reads back as these members, in order, whatever the names
      and values. */
  lemma WrittenObjectReads(members: seq<Member>)
    ensures ParseText("{" + Joined(Texts(members)) + "}") == Some(Object(members))
  {
    hide ParseText, PrintMembers, Joined;
    JoinedIsPrinted(members);
    ParsesWhatWasPrinted(Object(members));
  }
}
