/** The client's side of the stream: what the builders write and what the server's parser reads. */
module ClientMessages {
  import opened Bytes
  import opened PixelFormats
  import opened Reads
  import opened Latin1
  import C = ClientReads

  type i32 = x: int | -0x8000_0000 <= x < 0x8000_0000

  datatype Message =
    | SetPixelFormat(fmt: PixelFormat)
    | SetEncodings(list: seq<i32>)
    | UpdateRequest(incremental: bool, x: u16, y: u16, width: u16, height: u16)
    | Key(keysym: u32, down: bool)
    | Pointer(x: u16, y: u16, buttons: byte)
    | CutText(text: string)

  const SET_PIXEL_FORMAT: byte := 0
  const SET_ENCODINGS: byte := 2
  const FRAMEBUFFER_UPDATE_REQUEST: byte := 3
  const KEY_EVENT: byte := 4
  const POINTER_EVENT: byte := 5
  const CLIENT_CUT_TEXT: byte := 6

  // ---------------------------------------------------------------- builders

  function Flag(b: bool): byte { if b then 1 else 0 }

  function I32Bytes(v: i32): (b: seq<byte>)
    ensures |b| == 4
  {
    Be(v % 0x1_0000_0000, 4)
  }

  function ListBytes(list: seq<i32>): (b: seq<byte>)
    ensures |b| == 4 * |list|
  {
    if |list| == 0 then [] else I32Bytes(list[0]) + ListBytes(list[1..])
  }

  /** A message's bytes. The two counts are cut to their fields' widths, as the source's casts do. */
  function Encode(m: Message): (b: seq<byte>)
    ensures |b| > 0
  {
    match m
    case SetPixelFormat(f) => [SET_PIXEL_FORMAT] + ([0, 0, 0] + EncodeFormat(f))
    case SetEncodings(list) => [SET_ENCODINGS] + ([0] + (Be(|list| % 0x1_0000, 2) + ListBytes(list)))
    case UpdateRequest(i, x, y, w, h) =>
      [FRAMEBUFFER_UPDATE_REQUEST] + ([Flag(i)] + (Be(x, 2) + (Be(y, 2) + (Be(w, 2) + Be(h, 2)))))
    case Key(keysym, down) => [KEY_EVENT] + ([Flag(down)] + ([0, 0] + Be(keysym, 4)))
    case Pointer(x, y, buttons) => [POINTER_EVENT] + ([buttons] + (Be(x, 2) + Be(y, 2)))
    case CutText(text) =>
      [CLIENT_CUT_TEXT] + ([0, 0, 0] + (Be(|ToLatin1(text)| % 0x1_0000_0000, 4) + ToLatin1(text)))
  }

  function EncodeAll(messages: seq<Message>): seq<byte> {
    if |messages| == 0 then [] else Encode(messages[0]) + EncodeAll(messages[1..])
  }

  // ---------------------------------------------------------------- the server's parser

  function ReadList(body: seq<byte>): (list: seq<i32>)
    requires |body| % 4 == 0
    ensures |list| == |body| / 4
    decreases |body|
  {
    if |body| == 0 then []
    else [AsI32(body[..4])] + ReadList(body[4..])
  }

  function AsI32(b: seq<byte>): i32
    requires |b| == 4
  {
    FromBeBound(b);
    Pow256Table();
    C.AsI32(FromBe(b))
  }

  /** `read_message`: one message off the front, or why there is none. */
  function ReadOne(data: seq<byte>): (r: Read<Message>)
    ensures r.Got? ==> |r.rest| < |data|
  {
    match C.Owed(data, 1) case Bad(e) => Bad(e) case Got(kind, d) =>
    if kind[0] == SET_PIXEL_FORMAT then ReadFormat(d)
    else if kind[0] == SET_ENCODINGS then ReadEncodings(d)
    else if kind[0] == FRAMEBUFFER_UPDATE_REQUEST then ReadRequest(d)
    else if kind[0] == KEY_EVENT then ReadKey(d)
    else if kind[0] == POINTER_EVENT then ReadPointer(d)
    else if kind[0] == CLIENT_CUT_TEXT then ReadCutText(d)
    else Bad(Protocol)
  }

  function ReadFormat(d: seq<byte>): (r: Read<Message>)
    ensures r.Got? ==> |r.rest| <= |d|
  {
    match C.Owed(d, 3) case Bad(e) => Bad(e) case Got(_, d1) =>
    match C.Owed(d1, 16) case Bad(e) => Bad(e) case Got(block, rest) => Got(SetPixelFormat(DecodeFormat(block)), rest)
  }

  function ReadEncodings(d: seq<byte>): (r: Read<Message>)
    ensures r.Got? ==> |r.rest| <= |d|
  {
    match C.Owed(d, 1) case Bad(e) => Bad(e) case Got(_, d1) =>
    match C.U16(d1) case Bad(e) => Bad(e) case Got(count, d2) =>
    match C.Owed(d2, count * 4) case Bad(e) => Bad(e) case Got(body, rest) => Got(SetEncodings(ReadList(body)), rest)
  }

  function ReadRequest(d: seq<byte>): (r: Read<Message>)
    ensures r.Got? ==> |r.rest| <= |d|
  {
    match C.Owed(d, 1) case Bad(e) => Bad(e) case Got(i, d1) =>
    match C.U16(d1) case Bad(e) => Bad(e) case Got(x, d2) =>
    match C.U16(d2) case Bad(e) => Bad(e) case Got(y, d3) =>
    match C.U16(d3) case Bad(e) => Bad(e) case Got(w, d4) =>
    match C.U16(d4) case Bad(e) => Bad(e) case Got(h, rest) => Got(UpdateRequest(i[0] != 0, x, y, w, h), rest)
  }

  function ReadKey(d: seq<byte>): (r: Read<Message>)
    ensures r.Got? ==> |r.rest| <= |d|
  {
    match C.Owed(d, 1) case Bad(e) => Bad(e) case Got(down, d1) =>
    match C.Owed(d1, 2) case Bad(e) => Bad(e) case Got(_, d2) =>
    match C.U32(d2) case Bad(e) => Bad(e) case Got(keysym, rest) => Got(Key(keysym, down[0] != 0), rest)
  }

  function ReadPointer(d: seq<byte>): (r: Read<Message>)
    ensures r.Got? ==> |r.rest| <= |d|
  {
    match C.Owed(d, 1) case Bad(e) => Bad(e) case Got(buttons, d1) =>
    match C.U16(d1) case Bad(e) => Bad(e) case Got(x, d2) =>
    match C.U16(d2) case Bad(e) => Bad(e) case Got(y, rest) => Got(Pointer(x, y, buttons[0]), rest)
  }

  function ReadCutText(d: seq<byte>): (r: Read<Message>)
    ensures r.Got? ==> |r.rest| <= |d|
  {
    match C.Owed(d, 3) case Bad(e) => Bad(e) case Got(_, d1) =>
    match C.U32(d1) case Bad(e) => Bad(e) case Got(len, d2) =>
    match C.Owed(d2, len) case Bad(e) => Bad(e) case Got(body, rest) => Got(CutText(FromLatin1(body)), rest)
  }

  /** Everything a connection carried, and the bytes nobody could read. */
  datatype Parsed = Parsed(messages: seq<Message>, left: seq<byte>)

  function ReadAll(data: seq<byte>): Parsed
    decreases |data|
  {
    match ReadOne(data)
    case Bad(_) => Parsed([], data)
    case Got(m, rest) => var more := ReadAll(rest); Parsed([m] + more.messages, more.left)
  }

  // ---------------------------------------------------------------- round trips

  /** What a message comes back as: cut text is latin-1 by then. */
  function Seen(m: Message): Message {
    match m
    case CutText(text) => CutText(FromLatin1(ToLatin1(text)))
    case _ => m
  }

  /** The counts fit the fields they are cut to. */
  predicate Fits(m: Message) {
    match m
    case SetEncodings(list) => |list| < 0x1_0000
    case CutText(text) => |ToLatin1(text)| < 0x1_0000_0000
    case _ => true
  }

  lemma OwedFront(a: seq<byte>, rest: seq<byte>)
    ensures C.Owed(a + rest, |a|) == Got(a, rest)
  {
    TakeFront(a, rest, Ended);
  }

  lemma TwosComplement(v: i32)
    ensures C.AsI32(v % 0x1_0000_0000) == v && v % 0x1_0000_0000 % 0x1_0000_0000 == v % 0x1_0000_0000
  {
  }

  lemma I32RoundTrip(v: i32)
    ensures AsI32(I32Bytes(v)) == v
  {
    hide FromBe, Be, Pow256;
    FromBeBe(v % 0x1_0000_0000, 4);
    Pow256Table();
    TwosComplement(v);
  }

  lemma {:induction false} ListRoundTrip(list: seq<i32>)
    ensures ReadList(ListBytes(list)) == list
  {
    if |list| > 0 {
      var b := ListBytes(list);
      assert b[..4] == I32Bytes(list[0]) && b[4..] == ListBytes(list[1..]);
      I32RoundTrip(list[0]);
      ListRoundTrip(list[1..]);
    }
  }

  lemma FormatRead(f: PixelFormat, rest: seq<byte>)
    ensures ReadFormat([0, 0, 0] + EncodeFormat(f) + rest) == Got(SetPixelFormat(f), rest)
  {
    hide C.Owed, EncodeFormat, DecodeFormat;
    Regroup([0, 0, 0], EncodeFormat(f), rest);
    OwedFront([0, 0, 0], EncodeFormat(f) + rest);
    OwedFront(EncodeFormat(f), rest);
    FormatRoundTrip(f);
  }

  lemma RequestRead(i: bool, x: u16, y: u16, w: u16, h: u16, rest: seq<byte>)
    ensures ReadRequest([Flag(i)] + (Be(x, 2) + (Be(y, 2) + (Be(w, 2) + Be(h, 2)))) + rest)
         == Got(UpdateRequest(i, x, y, w, h), rest)
  {
    hide C.Owed, C.U16, Be;
    var t4 := Be(h, 2) + rest;
    var t3 := Be(w, 2) + t4;
    var t2 := Be(y, 2) + t3;
    var t1 := Be(x, 2) + t2;
    assert [Flag(i)] + (Be(x, 2) + (Be(y, 2) + (Be(w, 2) + Be(h, 2)))) + rest == [Flag(i)] + t1;
    OwedFront([Flag(i)], t1);
    C.U16Front(x, t2);
    C.U16Front(y, t3);
    C.U16Front(w, t4);
    C.U16Front(h, rest);
  }

  lemma KeyRead(keysym: u32, down: bool, rest: seq<byte>)
    ensures ReadKey([Flag(down)] + ([0, 0] + Be(keysym, 4)) + rest) == Got(Key(keysym, down), rest)
  {
    hide C.Owed, C.U32, Be;
    var t2 := Be(keysym, 4) + rest;
    assert [Flag(down)] + ([0, 0] + Be(keysym, 4)) + rest == [Flag(down)] + ([0, 0] + t2);
    OwedFront([Flag(down)], [0, 0] + t2);
    OwedFront([0, 0], t2);
    C.U32Front(keysym, rest);
  }

  lemma PointerRead(x: u16, y: u16, buttons: byte, rest: seq<byte>)
    ensures ReadPointer([buttons] + (Be(x, 2) + Be(y, 2)) + rest) == Got(Pointer(x, y, buttons), rest)
  {
    hide C.Owed, C.U16, Be;
    var t2 := Be(y, 2) + rest;
    var t1 := Be(x, 2) + t2;
    assert [buttons] + (Be(x, 2) + Be(y, 2)) + rest == [buttons] + t1;
    OwedFront([buttons], t1);
    C.U16Front(x, t2);
    C.U16Front(y, rest);
  }

  /** The encodings read back are the first as many as the cut count says. */
  lemma EncodingsRead(list: seq<i32>, rest: seq<byte>)
    ensures var r := ReadEncodings([0] + (Be(|list| % 0x1_0000, 2) + ListBytes(list)) + rest);
            && (|list| < 0x1_0000 ==> r == Got(SetEncodings(list), rest))
            && (|list| >= 0x1_0000 && r.Got? ==> r.value.SetEncodings? && |r.value.list| < |list|)
  {
    hide C.Owed, C.U16, Be, ListBytes, ReadList;
    var count := |list| % 0x1_0000;
    var t2 := ListBytes(list) + rest;
    var t1 := Be(count, 2) + t2;
    assert [0] + (Be(count, 2) + ListBytes(list)) + rest == [0] + t1;
    OwedFront([0], t1);
    C.U16Front(count, t2);
    if |list| < 0x1_0000 {
      OwedFront(ListBytes(list), rest);
      ListRoundTrip(list);
    }
  }

  lemma CutTextRead(text: string, rest: seq<byte>)
    ensures var b := ToLatin1(text); var r := ReadCutText([0, 0, 0] + (Be(|b| % 0x1_0000_0000, 4) + b) + rest);
            && (|b| < 0x1_0000_0000 ==> r == Got(CutText(FromLatin1(b)), rest))
            && (|b| >= 0x1_0000_0000 && r.Got? ==> r.value.CutText? && |r.value.text| < |b|)
  {
    hide C.Owed, C.U32, Be, ToLatin1, FromLatin1;
    var b := ToLatin1(text);
    var len := |b| % 0x1_0000_0000;
    var t2 := b + rest;
    assert [0, 0, 0] + (Be(len, 4) + b) + rest == [0, 0, 0] + (Be(len, 4) + t2);
    OwedFront([0, 0, 0], Be(len, 4) + t2);
    C.U32Front(len, t2);
    if |b| < 0x1_0000_0000 { OwedFront(b, rest); }
  }

  /** Whatever follows a message, the parser takes exactly its bytes and gives it back, cut text
      lowered to latin-1, if and only if its count fits its field. */
  lemma MessageRoundTripIff(m: Message, rest: seq<byte>)
    ensures ReadOne(Encode(m) + rest) == Got(Seen(m), rest) <==> Fits(m)
  {
    hide C.Owed, Be, ListBytes, ToLatin1, FromLatin1, EncodeFormat;
    hide ReadFormat, ReadEncodings, ReadRequest, ReadKey, ReadPointer, ReadCutText;
    var kind, body := Encode(m)[..1], Encode(m)[1..];
    assert Encode(m) == kind + body;
    Regroup(kind, body, rest);
    OwedFront(kind, body + rest);
    match m
    case SetPixelFormat(f) => FormatRead(f, rest);
    case SetEncodings(list) => EncodingsRead(list, rest);
    case UpdateRequest(i, x, y, w, h) => RequestRead(i, x, y, w, h, rest);
    case Key(keysym, down) => KeyRead(keysym, down, rest);
    case Pointer(x, y, buttons) => PointerRead(x, y, buttons, rest);
    case CutText(text) => CutTextRead(text, rest);
  }

  function AllSeen(messages: seq<Message>): seq<Message> {
    if |messages| == 0 then [] else [Seen(messages[0])] + AllSeen(messages[1..])
  }

  /** Any list of messages, sent back to back, is read back as that list, to the last byte. */
  lemma {:induction false} StreamRoundTrip(messages: seq<Message>)
    requires forall i :: 0 <= i < |messages| ==> Fits(messages[i])
    ensures ReadAll(EncodeAll(messages)) == Parsed(AllSeen(messages), [])
  {
    hide ReadOne, Encode, Seen, Fits;
    if |messages| == 0 {
      NothingToRead();
    } else {
      MessageRoundTripIff(messages[0], EncodeAll(messages[1..]));
      StreamRoundTrip(messages[1..]);
    }
  }

  lemma NothingToRead()
    ensures ReadOne([]) == Bad(Ended)
  {
  }

  /** So no two lists that look different to the server share their bytes. */
  lemma UniquelyDecodable(a: seq<Message>, b: seq<Message>)
    requires (forall i :: 0 <= i < |a| ==> Fits(a[i])) && (forall i :: 0 <= i < |b| ==> Fits(b[i]))
    requires EncodeAll(a) == EncodeAll(b)
    ensures AllSeen(a) == AllSeen(b)
  {
    StreamRoundTrip(a);
    StreamRoundTrip(b);
  }

  // ---------------------------------------------------------------- the loops

  lemma ListNext(list: seq<i32>, i: nat)
    requires i < |list|
    ensures ListBytes(list[i..]) == I32Bytes(list[i]) + ListBytes(list[i + 1..])
  {
    assert list[i..][1..] == list[i + 1..];
  }

  lemma ListParts(list: seq<i32>)
    ensures list[0..] == list && list[|list|..] == [] && ListBytes([]) == []
  {
  }

  lemma SetEncodingsIs(list: seq<i32>, count: seq<byte>)
    requires count == Be(|list| % 0x1_0000, 2)
    ensures Encode(SetEncodings(list)) == [SET_ENCODINGS, 0] + count + ListBytes(list)
  {
    hide Be, ListBytes, EncodeFormat, ToLatin1;
    TwoBytes(SET_ENCODINGS, 0, count, ListBytes(list));
  }

  lemma TwoBytes(a: byte, b: byte, c: seq<byte>, d: seq<byte>)
    ensures [a] + ([b] + (c + d)) == [a, b] + c + d
  {
  }

  /** `set_encodings`. */
  method BuildSetEncodings(list: seq<i32>) returns (b: seq<byte>)
    ensures b == Encode(SetEncodings(list))
  {
    hide Be, ListBytes, I32Bytes, Encode;
    var count := Be(|list| % 0x1_0000, 2);
    b := [SET_ENCODINGS, 0] + count;
    ghost var head := b;
    ListParts(list);
    for i := 0 to |list|
      invariant b + ListBytes(list[i..]) == head + ListBytes(list)
    {
      ListNext(list, i);
      Regroup(b, I32Bytes(list[i]), ListBytes(list[i + 1..]));
      b := b + I32Bytes(list[i]);
    }
    SetEncodingsIs(list, count);
  }

  /** `read_loop`: messages off the stream until it ends or stops meaning anything. */
  method ReadLoop(data: seq<byte>) returns (parsed: Parsed)
    ensures parsed == ReadAll(data)
  {
    hide ReadOne;
    var events, rest := [], data;
    var next := ReadOne(rest);
    while next.Got?
      invariant next == ReadOne(rest)
      invariant ReadAll(data) == Parsed(events + ReadAll(rest).messages, ReadAll(rest).left)
      decreases |rest|
    {
      Regroup(events, [next.value], ReadAll(next.rest).messages);
      events := events + [next.value];
      rest := next.rest;
      next := ReadOne(rest);
    }
    parsed := Parsed(events, rest);
  }
}
