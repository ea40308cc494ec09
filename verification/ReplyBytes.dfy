/** Negotiation from the reply's bytes on, as they come off the wire. */
module ReplyBytes {
  import opened Endian
  import opened Text
  import opened Magic
  import opened Header
  import opened Layout
  import opened Negotiation
  import opened ReceiveBuffer

  /** A 16-bit number on the wire. */
  function TwoBytes(hi: int, lo: int): int {
    256 * hi + lo
  }

  /** A set-up reply of type names, byte by byte: its length, 'I' or 'O', the recipe id and the
      comma-separated list. */
  ghost predicate TypeReply(bytes: seq<Byte>, id: Byte, types: seq<DataType>) {
    var list := Join(Words(types));
    && |bytes| == 4 + |list| <= 2000
    && TwoBytes(bytes[0], bytes[1]) == |bytes| && (bytes[2] == 73 || bytes[2] == 79) && bytes[3] == id
    && forall i | 0 <= i < |list| :: bytes[4 + i] as char == list[i]
  }

  /** The header is not a set-up reply's. */
  ghost predicate WrongHeader(bytes: seq<Byte>) {
    && |bytes| >= 3
    && var size := TwoBytes(bytes[0], bytes[1]);
       size < 3 || size > 2000 || (bytes[2] != 73 && bytes[2] != 79)
  }

  ghost predicate TypesAre(fields: seq<Token>, types: seq<DataType>) {
    |types| == |fields| && forall i | 0 <= i < |types| :: types[i] == fields[i].typ
  }

  /** The buffer as register_response sees it. */
  function InPlace(buffer: seq<Byte>, bytes: seq<Byte>): (r: seq<Byte>)
    requires |buffer| == FRAME && |bytes| <= FRAME
    ensures |r| == FRAME
  {
    Terminated(Received(buffer, bytes), |bytes|)
  }

  lemma InPlaceBytes(buffer: seq<Byte>, bytes: seq<Byte>)
    requires |buffer| == FRAME && |bytes| < FRAME
    ensures forall i | 0 <= i < |bytes| :: InPlace(buffer, bytes)[i] == bytes[i]
    ensures InPlace(buffer, bytes)[|bytes|] == 0
  {
  }

  lemma SizeOf(frame: seq<Byte>)
    requires |frame| >= 2
    ensures SizeField(frame) == TwoBytes(frame[0], frame[1])
  {
    TwoByteSize(frame[0], frame[1]);
    assert frame[..2] == [frame[0], frame[1]];
  }

  lemma ReplyCarries(buffer: seq<Byte>, bytes: seq<Byte>, id: Byte, types: seq<DataType>)
    requires |buffer| == FRAME && TypeReply(bytes, id, types)
    ensures Carries(DecodeResp(InPlace(buffer, bytes)).payload, 0, |Join(Words(types))|, Words(types))
  {
    var frame, list := InPlace(buffer, bytes), Join(Words(types));
    var payload := DecodeResp(frame).payload;
    InPlaceBytes(buffer, bytes);
    forall i | 0 <= i < |list|
      ensures payload[i] == list[i]
    {
      assert payload[i] == frame[4 + i] as char == bytes[4 + i] as char;
    }
    assert payload[0..|list|] == list;
    assert payload[|list|] == frame[|bytes|] as char;
  }

  lemma ReplyHeader(buffer: seq<Byte>, bytes: seq<Byte>, id: Byte, types: seq<DataType>)
    requires |buffer| == FRAME && TypeReply(bytes, id, types)
    ensures var r := DecodeResp(InPlace(buffer, bytes)); HeaderOk(r) && r.size == |bytes| && r.recipeId == id
  {
    InPlaceBytes(buffer, bytes);
    SizeOf(InPlace(buffer, bytes));
  }

  /** An empty list has no items, whatever the buffer held. */
  lemma NoItems(fields: seq<Token>, r: Resp)
    requires fields != [] && InBuffer(r) && r.payload[0] == NUL
    ensures !Registers(fields, r)
  {
    assert CString(r.payload) == "";
  }

  /** A reply of type names registers a recipe exactly when it names the fields' types, in order. */
  lemma TypeReplyRegisters(fields: seq<Token>, buffer: seq<Byte>, bytes: seq<Byte>, id: Byte, types: seq<DataType>)
    requires fields != [] && forall i | 0 <= i < |fields| :: Known(fields[i].typ)
    requires |buffer| == FRAME && TypeReply(bytes, id, types)
    ensures Registers(fields, DecodeResp(InPlace(buffer, bytes))) <==> TypesAre(fields, types)
    ensures InPlace(buffer, bytes)[3] == id
  {
    var r := DecodeResp(InPlace(buffer, bytes));
    ReplyCarries(buffer, bytes, id, types);
    ReplyHeader(buffer, bytes, id, types);
    if types == [] {
      NoItems(fields, r);
    } else {
      RegistersExactlyOwnTypes(fields, r, types);
    }
  }

  lemma HeaderOkIff(buffer: seq<Byte>, bytes: seq<Byte>)
    requires |buffer| == FRAME && 3 <= |bytes| <= FRAME
    ensures HeaderOk(DecodeResp(InPlace(buffer, bytes))) <==> !WrongHeader(bytes)
  {
    var frame := InPlace(buffer, bytes);
    assert frame[0] == bytes[0] && frame[1] == bytes[1] && frame[2] == bytes[2];
    SizeOf(frame);
  }

  /** A data package: 'U', a recipe id and at least the header's size. */
  lemma DataPackageIff(frame: seq<Byte>)
    requires |frame| >= 4
    ensures IsDataPackage(frame) <==> frame[2] == 85 && frame[3] != 0 && TwoBytes(frame[0], frame[1]) >= 4
  {
    SizeOf(frame);
  }

  /** A reply with any other header is refused, whatever it says. */
  lemma WrongHeaderRefused(fields: seq<Token>, buffer: seq<Byte>, bytes: seq<Byte>)
    requires |buffer| == FRAME && |bytes| <= FRAME && WrongHeader(bytes)
    ensures !Registers(fields, DecodeResp(InPlace(buffer, bytes)))
  {
    HeaderOkIff(buffer, bytes);
  }
}
