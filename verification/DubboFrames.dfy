/** Dubbo over TCP: a packed sixteen-byte header, a payload of lines, and the reading of
    responses. A C++ byte is a `char` below 256 here. */
module DubboFrames {
  import opened Counting
  import opened Text
  import JsonText

  const MAGIC: nat := 0xbbda
  const HEADER: nat := 16
  const FIRST_ID: nat := 0x1998427
  const IDS: nat := 0x1_0000_0000_0000_0000
  const LENGTHS: nat := 0x1_0000_0000
  const MAX_RESPONSE: nat := 1024 * 1024 * 1024
  const NEWLINE: char := '\n'

  // ----- numbers as bytes

  function Pow256(k: nat): nat {
    if k == 0 then 1 else 256 * Pow256(k - 1)
  }

  function LittleEndian(n: nat, k: nat): (s: string)
    ensures |s| == k && forall i :: 0 <= i < k ==> s[i] as int < 256
  {
    if k == 0 then "" else [(n % 256) as char] + LittleEndian(n / 256, k - 1)
  }

  function BigEndian(n: nat, k: nat): (s: string)
    ensures |s| == k && forall i :: 0 <= i < k ==> s[i] as int < 256
  {
    if k == 0 then "" else BigEndian(n / 256, k - 1) + [(n % 256) as char]
  }

  function FromLittleEndian(s: string): nat {
    if s == "" then 0 else s[0] as int + 256 * FromLittleEndian(s[1..])
  }

  function FromBigEndian(s: string): nat {
    if s == "" then 0 else 256 * FromBigEndian(s[..|s| - 1]) + s[|s| - 1] as int
  }

  lemma {:induction false} EndianRoundTrip(n: nat, k: nat)
    requires n < Pow256(k)
    ensures FromLittleEndian(LittleEndian(n, k)) == n
    ensures FromBigEndian(BigEndian(n, k)) == n
    decreases k
  {
    if k > 0 {
      EndianRoundTrip(n / 256, k - 1);
      var big := BigEndian(n, k);
      assert big[..k - 1] == BigEndian(n / 256, k - 1);
      assert LittleEndian(n, k)[1..] == LittleEndian(n / 256, k - 1);
    }
  }

  // ----- the header

  datatype Header = Header(
    magic: nat, isRequest: bool, needReturn: bool, isEvent: bool, serialization: nat,
    status: nat, requestId: nat, length: nat)

  ghost predicate Fits(h: Header) {
    h.magic < 0x1_0000 && h.serialization < 32 && h.status < 256 && h.requestId < IDS && h.length < LENGTHS
  }

  function Bit(b: bool, weight: nat): nat {
    if b then weight else 0
  }

  /** Five bits of serialization id, then the three flags, lowest bit first. */
  function PackFlags(h: Header): nat {
    h.serialization % 32 + Bit(h.isEvent, 32) + Bit(h.needReturn, 64) + Bit(h.isRequest, 128)
  }

  /** Every field in the sender's byte order except the length, which is big-endian. */
  function EncodeHeader(h: Header): (s: string)
    ensures |s| == HEADER
  {
    LittleEndian(h.magic, 2) + LittleEndian(PackFlags(h), 1) + LittleEndian(h.status, 1) +
    LittleEndian(h.requestId, 8) + BigEndian(h.length, 4)
  }

  function DecodeHeader(s: string): Header
    requires |s| == HEADER
  {
    var flags := FromLittleEndian(s[2..3]);
    Header(FromLittleEndian(s[..2]), flags / 128 % 2 == 1, flags / 64 % 2 == 1, flags / 32 % 2 == 1, flags % 32,
           FromLittleEndian(s[3..4]), FromLittleEndian(s[4..12]), FromBigEndian(s[12..]))
  }

  lemma FlagsRoundTrip(h: Header)
    requires Fits(h)
    ensures var flags := PackFlags(h);
            && flags < 256 && flags % 32 == h.serialization
            && (flags / 32 % 2 == 1 <==> h.isEvent)
            && (flags / 64 % 2 == 1 <==> h.needReturn)
            && (flags / 128 % 2 == 1 <==> h.isRequest)
  {
  }

  lemma Widths()
    ensures Pow256(1) == 256 && Pow256(2) == 0x1_0000 && Pow256(4) == LENGTHS && Pow256(8) == IDS
  {
    assert Pow256(3) == 0x100_0000;
    assert Pow256(5) == 0x100_0000_0000;
    assert Pow256(6) == 0x1_0000_0000_0000;
    assert Pow256(7) == 0x100_0000_0000_0000;
  }

  lemma HeaderSlices(h: Header)
    ensures var s := EncodeHeader(h);
            && s[..2] == LittleEndian(h.magic, 2)
            && s[2..3] == LittleEndian(PackFlags(h), 1)
            && s[3..4] == LittleEndian(h.status, 1)
            && s[4..12] == LittleEndian(h.requestId, 8)
            && s[12..] == BigEndian(h.length, 4)
  {
  }

  lemma FieldsRoundTrip(h: Header)
    requires Fits(h)
    ensures FromLittleEndian(LittleEndian(h.magic, 2)) == h.magic
    ensures FromLittleEndian(LittleEndian(PackFlags(h), 1)) == PackFlags(h)
    ensures FromLittleEndian(LittleEndian(h.status, 1)) == h.status
    ensures FromLittleEndian(LittleEndian(h.requestId, 8)) == h.requestId
    ensures FromBigEndian(BigEndian(h.length, 4)) == h.length
  {
    Widths();
    FlagsRoundTrip(h);
    EndianRoundTrip(h.magic, 2);
    EndianRoundTrip(PackFlags(h), 1);
    EndianRoundTrip(h.status, 1);
    EndianRoundTrip(h.requestId, 8);
    EndianRoundTrip(h.length, 4);
  }

  /** Sixteen bytes hold the whole header: bits, byte orders and all. */
  lemma HeaderRoundTrip(h: Header)
    requires Fits(h)
    ensures DecodeHeader(EncodeHeader(h)) == h
  {
    HeaderSlices(h);
    FieldsRoundTrip(h);
    FlagsRoundTrip(h);
  }

  /** A number read from its low byte on. */
  lemma {:induction false} LowByteFirst(s: string, k: nat)
    requires k < |s|
    ensures FromLittleEndian(s[k..]) == s[k] as int + 0x100 * FromLittleEndian(s[k + 1..])
  {
    assert s[k..][1..] == s[k + 1..];
  }

  lemma EightBytes(s: string)
    requires |s| == 8
    ensures FromLittleEndian(s) ==
            s[0] as int + 0x100 * s[1] as int + 0x1_0000 * s[2] as int + 0x100_0000 * s[3] as int
            + 0x1_0000_0000 * s[4] as int + 0x100_0000_0000 * s[5] as int
            + 0x1_0000_0000_0000 * s[6] as int + 0x100_0000_0000_0000 * s[7] as int
  {
    assert s[0..] == s && s[8..] == "";
    LowByteFirst(s, 0);
    LowByteFirst(s, 1);
    LowByteFirst(s, 2);
    LowByteFirst(s, 3);
    LowByteFirst(s, 4);
    LowByteFirst(s, 5);
    LowByteFirst(s, 6);
    LowByteFirst(s, 7);
  }

  /** A number read from its high byte on. */
  lemma HighByteFirst(s: string, k: nat)
    requires k < |s|
    ensures FromBigEndian(s[..k + 1]) == 0x100 * FromBigEndian(s[..k]) + s[k] as int
  {
    assert s[..k + 1][..k] == s[..k];
  }

  lemma FourBytes(s: string)
    requires |s| == 4
    ensures FromBigEndian(s) == 0x100_0000 * s[0] as int + 0x1_0000 * s[1] as int + 0x100 * s[2] as int + s[3] as int
  {
    assert s[..0] == "" && s[..4] == s;
    HighByteFirst(s, 0);
    HighByteFirst(s, 1);
    HighByteFirst(s, 2);
    HighByteFirst(s, 3);
  }

  lemma SmallFields(h: Header)
    requires Fits(h)
    ensures var s := EncodeHeader(h);
            && s[0] as int + 0x100 * s[1] as int == h.magic
            && s[2] as int == PackFlags(h)
            && s[3] as int == h.status
  {
    HeaderSlices(h);
    FieldsRoundTrip(h);
    var s := EncodeHeader(h);
    assert s[..2][0] == s[0] && s[..2][1..] == [s[1]] && [s[1]][1..] == "";
    assert s[2..3][0] == s[2] && s[2..3][1..] == "";
    assert s[3..4][0] == s[3] && s[3..4][1..] == "";
    assert FromLittleEndian([s[1]]) == s[1] as int;
  }

  /** The sixteen bytes one by one: the magic number, the flags above the serialization id
      in one byte, the status, the id with its low byte first, the length with its high
      byte first. */
  lemma HeaderLayout(h: Header)
    requires Fits(h)
    ensures var s := EncodeHeader(h);
            && |s| == 16
            && s[0] as int + 0x100 * s[1] as int == h.magic
            && s[2] as int == h.serialization + (if h.isEvent then 32 else 0) + (if h.needReturn then 64 else 0)
                              + (if h.isRequest then 128 else 0)
            && s[3] as int == h.status
            && s[4] as int + 0x100 * s[5] as int + 0x1_0000 * s[6] as int + 0x100_0000 * s[7] as int
               + 0x1_0000_0000 * s[8] as int + 0x100_0000_0000 * s[9] as int
               + 0x1_0000_0000_0000 * s[10] as int + 0x100_0000_0000_0000 * s[11] as int == h.requestId
            && 0x100_0000 * s[12] as int + 0x1_0000 * s[13] as int + 0x100 * s[14] as int + s[15] as int == h.length
  {
    SmallFields(h);
    HeaderSlices(h);
    FieldsRoundTrip(h);
    EightBytes(EncodeHeader(h)[4..12]);
    FourBytes(EncodeHeader(h)[12..]);
  }

  // ----- the request payload

  datatype Request = Request(service: string, name: string, types: string, argument: string)

  function Quoted(s: string): string {
    "\"" + s + "\""
  }

  function PayloadLines(r: Request): seq<string> {
    ["\"2.0.1\"", Quoted(r.service), "null", Quoted(r.name), Quoted(r.types), Quoted(r.argument),
     PathLine(r.service), ""]
  }

  function Payload(r: Request): string {
    Join(PayloadLines(r), NEWLINE)
  }

  /** A line that is one JSON string and nothing else. */
  function WholeString(line: string): (r: Option<string>)
    ensures r.Some? ==> JsonText.PlainText(r.value)
  {
    match JsonText.ReadString(line)
    case None => None
    case Some((text, rest)) => if JsonText.SkipSpace(rest) == "" then Some(text) else None
  }

  /** A reader of the payload: a JSON value on every line, as serialization 6 has it. The
      version, the null and the path are checked, the four strings are handed on. */
  function ReadPayload(payload: string): Option<Request> {
    ReadLines(Split(payload, NEWLINE))
  }

  function ReadLines(lines: seq<string>): (r: Option<Request>)
    ensures r.Some? ==> PlainRequest(r.value)
  {
    if |lines| != 8 || lines[2] != "null" || lines[7] != "" then None
    else
      match ReadStrings([lines[0], lines[1], lines[3], lines[4], lines[5]])
      case None => None
      case Some(texts) =>
        if texts[0] == "2.0.1" && JsonText.Deserialized(lines[6]) == Some([("path", texts[1])])
        then Some(Request(texts[1], texts[2], texts[3], texts[4]))
        else None
  }

  function ReadStrings(lines: seq<string>): (r: Option<seq<string>>)
    ensures r.Some? ==> |r.value| == |lines| && forall i :: 0 <= i < |lines| ==> JsonText.PlainText(r.value[i])
  {
    if lines == [] then Some([])
    else
      match (WholeString(lines[0]), ReadStrings(lines[1..]))
      case (Some(text), Some(rest)) => Some([text] + rest)
      case _ => None
  }

  /** None of the four texts holds a quote, a backslash or a control character. */
  predicate PlainRequest(r: Request) {
    && JsonText.PlainText(r.service) && JsonText.PlainText(r.name)
    && JsonText.PlainText(r.types) && JsonText.PlainText(r.argument)
  }

  lemma QuotedReads(s: string)
    requires JsonText.PlainText(s)
    ensures WholeString(Quoted(s)) == Some(s)
  {
    JsonText.StringReads(s, "");
    assert "\"" + s + "\"" + "" == Quoted(s);
  }

  lemma QuotedIsOneLine(s: string)
    requires JsonText.PlainText(s)
    ensures NEWLINE !in Quoted(s) && NEWLINE !in PathLine(s)
  {
    assert NEWLINE !in Quoted(s);
    assert NEWLINE !in "{\"path\":" && NEWLINE !in "}";
  }

  function PathLine(service: string): string {
    "{\"path\":" + Quoted(service) + "}"
  }

  /** The last line is an object with the one key `path`. */
  lemma PathReads(service: string)
    requires JsonText.PlainText(service)
    ensures JsonText.Deserialized(PathLine(service)) == Some([("path", service)])
  {
    var kv: JsonText.KeyValue := ("path", service);
    var body := JsonText.Item(kv) + "}";
    assert PathLine(service) == ['{'] + body;
    JsonText.ExpectFront('{', body);
    assert body[0] == '"' && JsonText.Expect(body, '}') == None;
    JsonText.MemberReads(kv, "}");
    JsonText.ExpectFront('}', "");
    assert "}" == ['}'] + "";
  }

  function AllQuoted(texts: seq<string>): (lines: seq<string>)
    ensures |lines| == |texts| && forall i :: 0 <= i < |texts| ==> lines[i] == Quoted(texts[i])
  {
    seq(|texts|, i requires 0 <= i < |texts| => Quoted(texts[i]))
  }

  lemma {:induction false} StringsRead(texts: seq<string>)
    requires forall i :: 0 <= i < |texts| ==> JsonText.PlainText(texts[i])
    ensures ReadStrings(AllQuoted(texts)) == Some(texts)
  {
    if texts != [] {
      QuotedReads(texts[0]);
      StringsRead(texts[1..]);
      assert AllQuoted(texts)[1..] == AllQuoted(texts[1..]);
      assert [texts[0]] + texts[1..] == texts;
    }
  }

  lemma TextsRead(r: Request)
    requires PlainRequest(r)
    ensures ReadStrings(["\"2.0.1\"", Quoted(r.service), Quoted(r.name), Quoted(r.types), Quoted(r.argument)]) ==
            Some(["2.0.1", r.service, r.name, r.types, r.argument])
  {
    assert "\"2.0.1\"" == Quoted("2.0.1") && JsonText.PlainText("2.0.1");
    FiveRead("2.0.1", r.service, r.name, r.types, r.argument);
  }

  lemma FiveRead(a: string, b: string, c: string, d: string, e: string)
    requires JsonText.PlainText(a) && JsonText.PlainText(b) && JsonText.PlainText(c)
    requires JsonText.PlainText(d) && JsonText.PlainText(e)
    ensures ReadStrings([Quoted(a), Quoted(b), Quoted(c), Quoted(d), Quoted(e)]) == Some([a, b, c, d, e])
  {
    StringsRead([a, b, c, d, e]);
    assert AllQuoted([a, b, c, d, e]) == [Quoted(a), Quoted(b), Quoted(c), Quoted(d), Quoted(e)];
  }

  lemma LinesRead(lines: seq<string>, texts: seq<string>)
    requires |lines| == 8 && lines[2] == "null" && lines[7] == "" && |texts| == 5 && texts[0] == "2.0.1"
    requires ReadStrings([lines[0], lines[1], lines[3], lines[4], lines[5]]) == Some(texts)
    requires JsonText.Deserialized(lines[6]) == Some([("path", texts[1])])
    ensures ReadLines(lines) == Some(Request(texts[1], texts[2], texts[3], texts[4]))
  {
  }

  lemma PlainLinesRead(r: Request)
    requires PlainRequest(r)
    ensures ReadLines(PayloadLines(r)) == Some(r)
  {
    TextsRead(r);
    PathReads(r.service);
    LinesRead(PayloadLines(r), ["2.0.1", r.service, r.name, r.types, r.argument]);
  }

  lemma PlainLinesSplit(r: Request)
    requires PlainRequest(r)
    ensures forall i :: 0 <= i < 8 ==> NEWLINE !in PayloadLines(r)[i]
  {
    QuotedIsOneLine(r.service);
    QuotedIsOneLine(r.name);
    QuotedIsOneLine(r.types);
    QuotedIsOneLine(r.argument);
    assert NEWLINE !in "\"2.0.1\"" && NEWLINE !in "null";
  }

  /** The payload line by line. */
  lemma PayloadText(r: Request)
    ensures Payload(r) ==
            "\"2.0.1\"" + "\n" + ("\"" + r.service + "\"") + "\n" + "null" + "\n" + ("\"" + r.name + "\"") + "\n"
            + ("\"" + r.types + "\"") + "\n" + ("\"" + r.argument + "\"") + "\n"
            + ("{\"path\":" + ("\"" + r.service + "\"") + "}") + "\n" + ""
  {
    var l := PayloadLines(r);
    JoinEight(l[0], l[1], l[2], l[3], l[4], l[5], l[6], l[7]);
    assert l == [l[0], l[1], l[2], l[3], l[4], l[5], l[6], l[7]];
  }

  lemma JoinEight(a: string, b: string, c: string, d: string, e: string, f: string, g: string, h: string)
    ensures Join([a, b, c, d, e, f, g, h], '\n') ==
            a + "\n" + b + "\n" + c + "\n" + d + "\n" + e + "\n" + f + "\n" + g + "\n" + h
  {
    JoinAppend([a], b, '\n');
    JoinAppend([a] + [b], c, '\n');
    JoinAppend([a] + [b] + [c], d, '\n');
    JoinAppend([a] + [b] + [c] + [d], e, '\n');
    JoinAppend([a] + [b] + [c] + [d] + [e], f, '\n');
    JoinAppend([a] + [b] + [c] + [d] + [e] + [f], g, '\n');
    JoinAppend([a] + [b] + [c] + [d] + [e] + [f] + [g], h, '\n');
    assert [a] + [b] + [c] + [d] + [e] + [f] + [g] + [h] == [a, b, c, d, e, f, g, h];
  }

  lemma JoinFront(lines: seq<string>, c: char)
    requires |lines| > 1
    ensures Join(lines, c) == lines[0] + [c] + Join(lines[1..], c)
  {
  }

  /** The payload gives the four texts back exactly when none of them holds a character
      that its JSON string would have to escape. */
  lemma PayloadRoundTrip(r: Request)
    ensures ReadPayload(Payload(r)) == Some(r) <==> PlainRequest(r)
    ensures PlainRequest(r) <==> forall c :: c in r.service || c in r.name || c in r.types || c in r.argument ==>
                                   c != '"' && c != '\\' && c as int >= 32
  {
    if PlainRequest(r) {
      PlainLinesRead(r);
      PlainLinesSplit(r);
      SplitJoin(PayloadLines(r), NEWLINE);
    }
  }

  // ----- the stream of requests

  function RequestHeader(id: nat, payload: string): Header {
    Header(MAGIC, true, true, false, 6, 0, id, |payload| % LENGTHS)
  }

  function Frame(id: nat, payload: string): string {
    EncodeHeader(RequestHeader(id, payload)) + payload
  }

  lemma NextId(id: nat)
    requires id < IDS
    ensures (id + 1) % IDS == if id == 0xffff_ffff_ffff_ffff then 0 else id + 1
  {
  }

  class Client {
    var currRequestId: nat

    constructor ()
      ensures currRequestId == 0x1998427
    {
      currRequestId := FIRST_ID;
    }

    /** The bytes of one request; the 64-bit counter moves on. */
    method Encode(r: Request) returns (bytes: string)
      requires currRequestId < IDS
      modifies this
      ensures bytes == Frame(old(currRequestId), Payload(r))
      ensures currRequestId == if old(currRequestId) == 0xffff_ffff_ffff_ffff then 0 else old(currRequestId) + 1
    {
      var payload := Payload(r);
      var header := RequestHeader(currRequestId, payload);
      NextId(currRequestId);
      currRequestId := (currRequestId + 1) % IDS;
      bytes := EncodeHeader(header) + payload;
    }
  }

  /** What one client writes for a list of requests, from a given id on. */
  function Written(requests: seq<Request>, id: nat): string
    decreases requests
  {
    if requests == [] then ""
    else Frame(id, Payload(requests[0])) + Written(requests[1..], (id + 1) % IDS)
  }

  /** A client's requests one after the other. */
  method WriteAll(client: Client, requests: seq<Request>) returns (stream: string)
    requires client.currRequestId < IDS
    modifies client
    ensures stream == Written(requests, old(client.currRequestId))
  {
    stream := "";
    var at := 0;
    while at < |requests|
      invariant at <= |requests| && client.currRequestId < IDS
      invariant stream + Written(requests[at..], client.currRequestId) ==
                Written(requests, old(client.currRequestId))
    {
      ghost var id := client.currRequestId;
      var bytes := client.Encode(requests[at]);
      WrittenFront(requests[at..], id);
      assert requests[at..][1..] == requests[at + 1..];
      ConcatRegroups(stream, bytes, Written(requests[at + 1..], client.currRequestId));
      stream := stream + bytes;
      at := at + 1;
    }
  }

  lemma WrittenFront(requests: seq<Request>, id: nat)
    requires requests != [] && id < IDS
    ensures Written(requests, id) ==
            Frame(id, Payload(requests[0])) +
            Written(requests[1..], if id == 0xffff_ffff_ffff_ffff then 0 else id + 1)
  {
    NextId(id);
  }

  lemma ConcatRegroups(a: string, b: string, c: string)
    ensures a + (b + c) == (a + b) + c
  {
  }

  /** Cutting a stream into frames by the lengths in their headers. */
  function ReadFrames(stream: string): Option<seq<(Header, string)>>
    decreases |stream|
  {
    if stream == "" then Some([])
    else if |stream| < HEADER then None
    else
      var header := DecodeHeader(stream[..HEADER]);
      var end := HEADER + header.length;
      if |stream| < end then None
      else
        match ReadFrames(stream[end..])
        case None => None
        case Some(rest) => Some([(header, stream[HEADER..end])] + rest)
  }

  function Frames(requests: seq<Request>, id: nat): (frames: seq<(Header, string)>)
    ensures |frames| == |requests|
    decreases requests
  {
    if requests == [] then []
    else [(RequestHeader(id, Payload(requests[0])), Payload(requests[0]))] + Frames(requests[1..], (id + 1) % IDS)
  }

  lemma FrontFrameReads(head: string, h: Header, payload: string, rest: string)
    requires |head| == HEADER && DecodeHeader(head) == h && h.length == |payload|
    requires ReadFrames(rest).Some?
    ensures ReadFrames(head + payload + rest) == Some([(h, payload)] + ReadFrames(rest).value)
  {
    var stream := head + payload + rest;
    var end := HEADER + |payload|;
    assert stream[..HEADER] == head;
    assert stream[HEADER..end] == payload;
    assert stream[end..] == rest;
  }

  lemma EncodedFrameReads(h: Header, payload: string, rest: string)
    requires Fits(h) && h.length == |payload|
    requires ReadFrames(rest).Some?
    ensures ReadFrames(EncodeHeader(h) + payload + rest) == Some([(h, payload)] + ReadFrames(rest).value)
  {
    HeaderRoundTrip(h);
    FrontFrameReads(EncodeHeader(h), h, payload, rest);
  }

  lemma HeaderIs(id: nat, payload: string)
    requires |payload| < LENGTHS
    ensures RequestHeader(id, payload) == Header(MAGIC, true, true, false, 6, 0, id, |payload|)
  {
  }

  lemma FrameReads(id: nat, payload: string, rest: string)
    requires id < IDS && |payload| < LENGTHS
    requires ReadFrames(rest).Some?
    ensures ReadFrames(Frame(id, payload) + rest) ==
            Some([(RequestHeader(id, payload), payload)] + ReadFrames(rest).value)
  {
    HeaderIs(id, payload);
    EncodedFrameReads(RequestHeader(id, payload), payload, rest);
  }

  lemma {:induction false} StreamReads(requests: seq<Request>, id: nat)
    requires id < IDS
    requires forall i :: 0 <= i < |requests| ==> |Payload(requests[i])| < LENGTHS
    ensures ReadFrames(Written(requests, id)) == Some(Frames(requests, id))
    decreases requests
  {
    if requests != [] {
      var next := (id + 1) % IDS;
      StreamReads(requests[1..], next);
      FrameReads(id, Payload(requests[0]), Written(requests[1..], next));
    }
  }

  lemma IdWraps(id: nat, i: nat)
    requires id < IDS
    ensures ((id + 1) % IDS + i) % IDS == (id + 1 + i) % IDS
  {
    if id + 1 == IDS {
      assert (id + 1 + i) % IDS == i % IDS;
    }
  }

  lemma {:induction false} FrameAt(requests: seq<Request>, id: nat, i: nat)
    requires id < IDS && i < |requests|
    ensures Frames(requests, id)[i] ==
            (RequestHeader((id + i) % IDS, Payload(requests[i])), Payload(requests[i]))
    decreases requests
  {
    if i > 0 {
      FrameAt(requests[1..], (id + 1) % IDS, i - 1);
      IdWraps(id, i - 1);
    }
  }

  /** A stream of requests is cut back into its frames; frame `i` has the flags, the id
      and the length of request `i`, and its payload reads back as that request. */
  lemma StreamRoundTrip(requests: seq<Request>, id: nat, i: nat)
    requires id < IDS && i < |requests|
    requires forall k :: 0 <= k < |requests| ==> |Payload(requests[k])| < LENGTHS
    ensures ReadFrames(Written(requests, id)) == Some(Frames(requests, id))
    ensures Frames(requests, id)[i].0 ==
            Header(0xbbda, true, true, false, 6, 0, (id + i) % 0x1_0000_0000_0000_0000, |Frames(requests, id)[i].1|)
    ensures ReadPayload(Frames(requests, id)[i].1) == Some(requests[i]) <==> PlainRequest(requests[i])
  {
    StreamReads(requests, id);
    FrameAt(requests, id, i);
    HeaderIs((id + i) % IDS, Payload(requests[i]));
    PayloadRoundTrip(requests[i]);
  }

  // ----- responses

  datatype Response = Response(status: nat, kind: nat, value: string)

  datatype Reply = Got(response: Response) | Broken | TooLong | WrongMagic | BadPayload

  /** What `async_request` makes of the bytes of a response, in the order of its steps:
      the header, the bound on the length, so many bytes, the magic number, the lines. A
      stream that ends too early is an error of the read. */
  function ReadResponse(stream: string): Reply {
    if |stream| < HEADER then Broken
    else
      var h := DecodeHeader(stream[..HEADER]);
      if h.length > MAX_RESPONSE then TooLong
      else if |stream| < HEADER + h.length then Broken
      else if h.magic != MAGIC then WrongMagic
      else ReadAnswer(h.status, stream[HEADER..HEADER + h.length])
  }

  function ReadAnswer(status: nat, payload: string): Reply {
    var lines := Split(payload, NEWLINE);
    if |lines| != 3 then BadPayload
    else
      match ParseDecimal(lines[0])
      case None => BadPayload
      case Some(kind) => Got(Response(status, kind, lines[1]))
  }

  /** A server's answer: the kind, the value, each on its line. */
  function Answer(r: Response): string {
    Join([Decimal(r.kind), r.value, ""], NEWLINE)
  }

  lemma AnswerRoundTrip(r: Response)
    ensures ReadAnswer(r.status, Answer(r)) == if NEWLINE in r.value then BadPayload else Got(r)
  {
    DecimalRoundTrip(r.kind);
    SplitJoin([Decimal(r.kind), r.value, ""], NEWLINE);
    AnswerLines(r);
  }

  lemma ResponseCut(head: string, payload: string, rest: string)
    requires |head| == HEADER && DecodeHeader(head).length == |payload|
    ensures var h := DecodeHeader(head);
            ReadResponse(head + payload + rest) ==
            if h.length > MAX_RESPONSE then TooLong
            else if h.magic != MAGIC then WrongMagic
            else ReadAnswer(h.status, payload)
  {
    var stream := head + payload + rest;
    assert stream[..HEADER] == head;
    assert stream[HEADER..HEADER + |payload|] == payload;
  }

  /** The bytes of an answer, whatever follows them: refused above 1 GiB, refused with
      another magic number, refused with a newline in the value, else received as they
      were sent. */
  lemma ResponseRoundTrip(h: Header, r: Response, rest: string)
    requires Fits(h) && h.status == r.status && h.length == |Answer(r)|
    ensures ReadResponse(EncodeHeader(h) + Answer(r) + rest) ==
            if |Answer(r)| > 0x4000_0000 then TooLong
            else if h.magic != 0xbbda then WrongMagic
            else if '\n' in r.value then BadPayload
            else Got(r)
  {
    HeaderRoundTrip(h);
    ResponseCut(EncodeHeader(h), Answer(r), rest);
    AnswerRoundTrip(r);
  }

  /** An answer cut short anywhere is a failed read, but for one whose header already
      announces too much. */
  lemma ResponseCutShort(h: Header, r: Response, got: nat)
    requires Fits(h) && h.length == |Answer(r)| && got < 16 + |Answer(r)|
    ensures ReadResponse((EncodeHeader(h) + Answer(r))[..got]) ==
            if got >= 16 && |Answer(r)| > 0x4000_0000 then TooLong else Broken
  {
    HeaderRoundTrip(h);
    var stream := (EncodeHeader(h) + Answer(r))[..got];
    if got >= HEADER {
      assert stream[..HEADER] == EncodeHeader(h);
    }
  }

  /** A payload is an answer exactly when it is three lines: a decimal kind, the value,
      and a line that is not looked at. */
  lemma AnswerMeaning(status: nat, payload: string, r: Response)
    ensures ReadAnswer(status, payload) == Got(r) <==>
            r.status == status && exists kind, last ::
              payload == kind + "\n" + r.value + "\n" + last && ParseDecimal(kind) == Some(r.kind) &&
              '\n' !in kind && '\n' !in r.value && '\n' !in last
  {
    if ReadAnswer(status, payload) == Got(r) {
      var lines := Split(payload, NEWLINE);
      JoinSplit(payload, NEWLINE);
      JoinThree(lines[0], lines[1], lines[2]);
      assert lines == [lines[0], lines[1], lines[2]];
      assert payload == lines[0] + "\n" + r.value + "\n" + lines[2];
    }
    if kind, last :| payload == kind + "\n" + r.value + "\n" + last && ParseDecimal(kind) == Some(r.kind) &&
                     '\n' !in kind && '\n' !in r.value && '\n' !in last
    {
      ThreeLinesRead(status, kind, r.value, last);
    }
  }

  lemma ThreeLinesRead(status: nat, kind: string, value: string, last: string)
    requires '\n' !in kind && '\n' !in value && '\n' !in last && ParseDecimal(kind).Some?
    ensures ReadAnswer(status, kind + "\n" + value + "\n" + last) ==
            Got(Response(status, ParseDecimal(kind).value, value))
  {
    JoinThree(kind, value, last);
    SplitJoin([kind, value, last], NEWLINE);
  }

  lemma JoinThree(a: string, b: string, c: string)
    ensures Join([a, b, c], NEWLINE) == a + "\n" + b + "\n" + c
  {
    JoinFront([a, b, c], NEWLINE);
    assert [a, b, c][1..] == [b, c] && [b, c][1..] == [c];
    JoinFront([b, c], NEWLINE);
  }

  /** Each newline in the value adds a line. */
  lemma AnswerLines(r: Response)
    ensures |Split(Answer(r), NEWLINE)| == |Split(r.value, NEWLINE)| + 2
    ensures |Split(r.value, NEWLINE)| == 1 <==> NEWLINE !in r.value
  {
    DecimalRoundTrip(r.kind);
    var kind := Decimal(r.kind);
    assert [kind, r.value, ""][1..] == [r.value, ""] && [r.value, ""][1..] == [""];
    var tail := r.value + [NEWLINE] + "";
    assert Join([r.value, ""], NEWLINE) == tail;
    SplitPlain(kind, NEWLINE);
    SplitConcat(kind, NEWLINE, tail);
    SplitConcat(r.value, NEWLINE, "");
    JoinSplit(r.value, NEWLINE);
    if NEWLINE !in r.value {
      SplitPlain(r.value, NEWLINE);
    }
  }
}
