/** The JSON writer, and a reader of flat objects of strings as sections 2, 4 and 7 of
    RFC 8259 define them, without escapes. */
module JsonText {
  import opened Counting

  type KeyValue = (string, string)

  // ----- writing

  function Item(kv: KeyValue): string {
    "\"" + kv.0 + "\":\"" + kv.1 + "\""
  }

  /** The items with a comma and a newline between them. */
  function Items(kvs: seq<KeyValue>): string {
    if kvs == [] then ""
    else if |kvs| == 1 then Item(kvs[0])
    else Item(kvs[0]) + ",\n" + Items(kvs[1..])
  }

  /** The object text, said without the trick of the writer. */
  function Serialized(kvs: seq<KeyValue>): string {
    if kvs == [] then "{}" else "{\n" + Items(kvs) + "\n}"
  }

  /** What the writer's loop has appended: every item, each with its separator. */
  function Terminated(kvs: seq<KeyValue>): string {
    if kvs == [] then "" else Terminated(kvs[..|kvs| - 1]) + Item(kvs[|kvs| - 1]) + ",\n"
  }

  lemma {:induction false} ItemsAppend(kvs: seq<KeyValue>, kv: KeyValue)
    requires kvs != []
    ensures Items(kvs + [kv]) == Items(kvs) + ",\n" + Item(kv)
  {
    assert (kvs + [kv])[1..] == kvs[1..] + [kv];
    if |kvs| > 1 {
      ItemsAppend(kvs[1..], kv);
    } else {
      assert kvs[1..] + [kv] == [kv];
    }
  }

  lemma {:induction false} TerminatedIs(kvs: seq<KeyValue>)
    requires kvs != []
    ensures Terminated(kvs) == Items(kvs) + ",\n"
  {
    var init := kvs[..|kvs| - 1];
    assert kvs == init + [kvs[|kvs| - 1]];
    if init != [] {
      TerminatedIs(init);
      ItemsAppend(init, kvs[|kvs| - 1]);
    }
  }

  /** Appends every item with its separator, then overwrites the last separator with
      the end of the object. */
  method Serialize(kvs: seq<KeyValue>) returns (result: string)
    ensures result == Serialized(kvs)
  {
    if kvs == [] {
      return "{}";
    }
    result := "{\n";
    var n := 0;
    while n < |kvs|
      invariant n <= |kvs|
      invariant result == "{\n" + Terminated(kvs[..n])
    {
      assert kvs[..n + 1][..n] == kvs[..n];
      result := result + (Item(kvs[n]) + ",\n");
      n := n + 1;
    }
    assert kvs[..n] == kvs;
    TerminatedIs(kvs);
    assert result == "{\n" + Items(kvs) + ",\n";
    result := result[|result| - 2 := '\n'];
    result := result[|result| - 1 := '}'];
  }

  /** The braces alone for an empty list, else one member between them. */
  lemma WrittenText(key: string, value: string)
    ensures Serialized([]) == "{}"
    ensures Serialized([(key, value)]) == "{\n" + ("\"" + key + "\":\"" + value + "\"") + "\n}"
  {
  }

  /** One member more comes on a line of its own before the closing brace. */
  lemma WrittenMore(kvs: seq<KeyValue>, key: string, value: string)
    requires kvs != []
    ensures |Serialized(kvs)| >= 2
    ensures var open := Serialized(kvs)[..|Serialized(kvs)| - 2];
            Serialized(kvs) == open + "\n}" &&
            Serialized(kvs + [(key, value)]) == open + ",\n" + ("\"" + key + "\":\"" + value + "\"") + "\n}"
  {
    ItemsAppend(kvs, (key, value));
    var s, member := Serialized(kvs), Item((key, value));
    assert s[..|s| - 2] == "{\n" + Items(kvs);
    assert "{\n" + (Items(kvs) + ",\n" + member) == "{\n" + Items(kvs) + ",\n" + member;
  }

  // ----- reading

  predicate IsPlain(c: char) {
    c != '"' && c != '\\' && c >= ' '
  }

  predicate IsSpace(c: char) {
    c == ' ' || c == '\t' || c == '\n' || c == '\r'
  }

  function SkipSpace(s: string): (rest: string)
    ensures |rest| <= |s|
  {
    if s != "" && IsSpace(s[0]) then SkipSpace(s[1..]) else s
  }

  /** The characters up to the closing quote, and what follows it. */
  function ReadChars(s: string): (r: Option<(string, string)>)
    ensures r.Some? ==> |r.value.1| < |s| && forall c :: c in r.value.0 ==> IsPlain(c)
  {
    if s == "" then None
    else if s[0] == '"' then Some(("", s[1..]))
    else if !IsPlain(s[0]) then None
    else
      match ReadChars(s[1..])
      case None => None
      case Some((text, rest)) => Some(([s[0]] + text, rest))
  }

  function Expect(s: string, c: char): (r: Option<string>)
    ensures r.Some? ==> |r.value| < |s|
  {
    var t := SkipSpace(s);
    if t != "" && t[0] == c then Some(t[1..]) else None
  }

  function ReadString(s: string): (r: Option<(string, string)>)
    ensures r.Some? ==> |r.value.1| < |s| && forall c :: c in r.value.0 ==> IsPlain(c)
  {
    match Expect(s, '"')
    case None => None
    case Some(t) => ReadChars(t)
  }

  function ReadMember(s: string): (r: Option<(KeyValue, string)>)
    ensures r.Some? ==> |r.value.1| < |s| && PlainText(r.value.0.0) && PlainText(r.value.0.1)
  {
    match ReadString(s)
    case None => None
    case Some((key, s1)) =>
      match Expect(s1, ':')
      case None => None
      case Some(s2) =>
        match ReadString(s2)
        case None => None
        case Some((value, s3)) => Some(((key, value), s3))
  }

  predicate PlainText(s: string) {
    forall c :: c in s ==> IsPlain(c)
  }

  ghost predicate AllPlain(kvs: seq<KeyValue>) {
    forall i :: 0 <= i < |kvs| ==> PlainText(kvs[i].0) && PlainText(kvs[i].1)
  }

  function ReadMembers(s: string): (r: Option<seq<KeyValue>>)
    ensures r.Some? ==> AllPlain(r.value)
    decreases |s|
  {
    match ReadMember(s)
    case None => None
    case Some((kv, s1)) =>
      if Expect(s1, ',').Some? then
        match ReadMembers(Expect(s1, ',').value)
        case None => None
        case Some(rest) => Some([kv] + rest)
      else
        match Expect(s1, '}')
        case None => None
        case Some(s2) => if SkipSpace(s2) == "" then Some([kv]) else None
  }

  /** The key/value list of an object of strings; the empty text is the empty list. */
  function Deserialized(s: string): (r: Option<seq<KeyValue>>)
    ensures r.Some? ==> AllPlain(r.value)
  {
    if s == "" then Some([])
    else
      match Expect(s, '{')
      case None => None
      case Some(s1) =>
        match Expect(s1, '}')
        case Some(s2) => if SkipSpace(s2) == "" then Some([]) else None
        case None => ReadMembers(s1)
  }

  // ----- the round trip

  lemma {:induction false} CharsRead(text: string, rest: string)
    requires PlainText(text)
    ensures ReadChars(text + "\"" + rest) == Some((text, rest))
  {
    var s := text + "\"" + rest;
    if text == "" {
      assert s[0] == '"' && s[1..] == rest;
    } else {
      CharsRead(text[1..], rest);
      assert s[0] == text[0] && text[0] in text;
      assert s[1..] == text[1..] + "\"" + rest;
      assert [text[0]] + text[1..] == text;
    }
  }

  lemma ExpectFront(c: char, rest: string)
    requires !IsSpace(c)
    ensures Expect([c] + rest, c) == Some(rest)
    ensures forall d :: d != c ==> Expect([c] + rest, d) == None
  {
    assert ([c] + rest)[0] == c && ([c] + rest)[1..] == rest;
    assert SkipSpace([c] + rest) == [c] + rest;
  }

  lemma SkipsNewline(s: string)
    ensures SkipSpace("\n" + s) == SkipSpace(s)
  {
    assert ("\n" + s)[0] == '\n' && ("\n" + s)[1..] == s;
  }

  lemma StringReads(text: string, rest: string)
    requires PlainText(text)
    ensures ReadString("\"" + text + "\"" + rest) == Some((text, rest))
  {
    CharsRead(text, rest);
    assert "\"" + text + "\"" + rest == ['"'] + (text + "\"" + rest);
    ExpectFront('"', text + "\"" + rest);
  }

  lemma ItemReads(kv: KeyValue, rest: string)
    requires PlainText(kv.0) && PlainText(kv.1)
    ensures ReadMember(Item(kv) + rest) == Some((kv, rest))
  {
    var value := "\"" + kv.1 + "\"" + rest;
    StringReads(kv.1, rest);
    ExpectFront(':', value);
    StringReads(kv.0, ":" + value);
    assert Item(kv) + rest == "\"" + kv.0 + "\"" + (":" + value);
  }

  lemma NewlineBeforeMember(s: string)
    ensures ReadMember("\n" + s) == ReadMember(s)
  {
    SkipsNewline(s);
    assert Expect("\n" + s, '"') == Expect(s, '"');
  }

  lemma MemberReads(kv: KeyValue, rest: string)
    requires PlainText(kv.0) && PlainText(kv.1)
    ensures ReadMember(Item(kv) + rest) == Some((kv, rest))
    ensures ReadMember("\n" + Item(kv) + rest) == Some((kv, rest))
  {
    ItemReads(kv, rest);
    NewlineBeforeMember(Item(kv) + rest);
    assert "\n" + Item(kv) + rest == "\n" + (Item(kv) + rest);
  }

  lemma LastMemberReads(kv: KeyValue)
    requires PlainText(kv.0) && PlainText(kv.1)
    ensures ReadMembers("\n" + Item(kv) + "\n}") == Some([kv])
  {
    var rest := "\n}";
    MemberReads(kv, rest);
    SkipsNewline("}");
    ExpectFront('}', "");
    assert rest == "\n" + "}" && "}" == ['}'] + "";
    assert Expect(rest, ',') == None && Expect(rest, '}') == Some("");
  }

  lemma NextMemberReads(kv: KeyValue, tail: string)
    requires PlainText(kv.0) && PlainText(kv.1) && ReadMembers(tail).Some?
    ensures ReadMembers("\n" + Item(kv) + ("," + tail)) == Some([kv] + ReadMembers(tail).value)
  {
    MemberReads(kv, "," + tail);
    ExpectFront(',', tail);
  }

  lemma Regroup(first: string, others: string)
    ensures "\n" + (first + ",\n" + others) + "\n}" ==
            "\n" + first + ("," + ("\n" + others + "\n}"))
  {
    assert ",\n" == "," + "\n";
  }

  lemma {:induction false} MembersRead(kvs: seq<KeyValue>)
    requires kvs != [] && AllPlain(kvs)
    ensures ReadMembers("\n" + Items(kvs) + "\n}") == Some(kvs)
  {
    if |kvs| == 1 {
      LastMemberReads(kvs[0]);
      assert kvs == [kvs[0]];
    } else {
      var tail := "\n" + Items(kvs[1..]) + "\n}";
      MembersRead(kvs[1..]);
      NextMemberReads(kvs[0], tail);
      Regroup(Item(kvs[0]), Items(kvs[1..]));
      assert kvs == [kvs[0]] + kvs[1..];
    }
  }

  lemma ItemsOpen(kvs: seq<KeyValue>)
    requires kvs != []
    ensures Items(kvs) != "" && Items(kvs)[0] == '"'
  {
  }

  lemma EmptyReads()
    ensures Deserialized("{}") == Some([]) && Deserialized("") == Some([])
  {
    ExpectFront('{', "}");
    ExpectFront('}', "");
    assert "{}" == ['{'] + "}" && "}" == ['}'] + "";
  }

  lemma WrittenReads(kvs: seq<KeyValue>)
    requires kvs != [] && AllPlain(kvs)
    ensures Deserialized(Serialized(kvs)) == Some(kvs)
  {
    var body := "\n" + Items(kvs) + "\n}";
    assert Serialized(kvs) == ['{'] + body;
    ExpectFront('{', body);
    ItemsOpen(kvs);
    var inner := Items(kvs) + "\n}";
    assert body == "\n" + inner && inner[0] == '"';
    SkipsNewline(inner);
    MembersRead(kvs);
  }

  /** Reading what was written gives the list back exactly when no key and no value
      holds a character that JSON would have to escape: a quote, a backslash, or a
      control character. */
  lemma JsonRoundTrip(kvs: seq<KeyValue>)
    ensures Deserialized(Serialized(kvs)) == Some(kvs) <==> AllPlain(kvs)
    ensures AllPlain(kvs) <==> forall i, c :: 0 <= i < |kvs| && (c in kvs[i].0 || c in kvs[i].1) ==>
                                 c != '"' && c != '\\' && c as int >= 32
  {
    if kvs == [] {
      EmptyReads();
    } else if AllPlain(kvs) {
      WrittenReads(kvs);
    }
  }
}
