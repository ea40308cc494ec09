/** RTDE_Handler: one output recipe, any number of input recipes, one receive buffer. */
module Handler {
  import opened Endian
  import opened Text
  import opened Magic
  import opened Header
  import opened Layout
  import opened Negotiation
  import opened ReceiveBuffer
  import opened Recipe
  import opened ReplyBytes

  /** A whole data package for a recipe of this id and size. */
  ghost predicate Acceptable(frame: seq<Byte>, recipeId: int, bytes: nat)
    requires |frame| == FRAME
  {
    && frame[2] == DATA_PACKAGE && frame[3] != 0 && frame[3] == recipeId
    && SizeField(frame) == DATA_SIZE + bytes
  }

  lemma PayloadStart(a: seq<Byte>, rx: seq<Byte>)
    requires |a| == FRAME && DATA_SIZE <= |rx| <= FRAME && a[..|rx|] == rx
    ensures a[DATA_SIZE..][..|rx| - DATA_SIZE] == rx[DATA_SIZE..]
  {
    assert a[DATA_SIZE..][..|rx| - DATA_SIZE] == a[..|rx|][DATA_SIZE..];
  }

  lemma FitsExactly(l: Layout, cells: nat, bytes: nat)
    requires Tiled(l) && Fits(l.fields, bytes, cells)
    ensures Fits(l.fields, l.bytes, cells)
  {
    forall i | 0 <= i < |l.fields|
      ensures End(l.fields[i]) <= l.bytes
    {
      FieldInside(l.fields, l.base, l.bytes, i);
    }
  }

  /** The buffer is never cleared, only overwritten, yet nothing of an older frame leaks: a frame of
      the recipe's size is accepted exactly for its own bytes, and decodes to its own payload. */
  lemma WholeFrameDecides(l: Layout, mem: seq<nat>, rx: seq<Byte>, older: seq<Byte>, id: int)
    requires Tiled(l) && |rx| == 4 + l.bytes <= FRAME && |older| == FRAME
    requires Fits(l.fields, FRAME - DATA_SIZE, |mem|)
    ensures Fits(l.fields, l.bytes, |mem|)
    ensures ParseAll(mem, l.fields, Received(older, rx)[DATA_SIZE..]) == ParseAll(mem, l.fields, rx[4..])
    ensures Acceptable(Received(older, rx), id, l.bytes) <==>
              rx[2] == 85 && rx[3] != 0 && rx[3] == id && TwoBytes(rx[0], rx[1]) == 4 + l.bytes
  {
    var a := Received(older, rx);
    ReceivedStart(older, rx);
    PayloadStart(a, rx);
    FitsExactly(l, |mem|, FRAME - DATA_SIZE);
    ParseReadsOwnBytes(l.fields, l.base, l.bytes, mem, a[DATA_SIZE..], rx[4..]);
    SizeOf(a);
    assert forall k | 0 <= k < 4 :: a[k] == a[..|rx|][k] == rx[k];
  }

  lemma ReplyDecides(fields: seq<Token>, buffer: seq<Byte>, bytes: seq<Byte>)
    requires fields != [] && forall i | 0 <= i < |fields| :: Known(fields[i].typ)
    requires |buffer| == FRAME && |bytes| <= FRAME
    ensures forall id: Byte, types | TypeReply(bytes, id, types) ::
              && (Registers(fields, DecodeResp(InPlace(buffer, bytes))) <==> TypesAre(fields, types))
              && InPlace(buffer, bytes)[3] == id
    ensures WrongHeader(bytes) ==> !Registers(fields, DecodeResp(InPlace(buffer, bytes)))
  {
    forall id: Byte, types | TypeReply(bytes, id, types)
      ensures Registers(fields, DecodeResp(InPlace(buffer, bytes))) <==> TypesAre(fields, types)
      ensures InPlace(buffer, bytes)[3] == id
    {
      TypeReplyRegisters(fields, buffer, bytes, id, types);
    }
    if WrongHeader(bytes) {
      WrongHeaderRefused(fields, buffer, bytes);
    }
  }

  lemma ZeroSize()
    ensures FromNet([0, 0]) == 0
  {
    TwoByteSize(0, 0);
  }

  /** The recipe's data package, stored over what was in it before. */
  ghost predicate Packed(r: Recipe, before: seq<Byte>)
    reads r, r.dp, r.mem
  {
    && |before| == r.dp.Length == FRAME && r.Backed() && r.dp as object != r.mem
    && SizeField(r.dp[..]) == DATA_SIZE + r.bytes && r.dp[2] == DATA_PACKAGE && r.dp[3] == r.recipeId % 256
    && r.dp[DATA_SIZE..] == StoreAll(before[DATA_SIZE..], r.fields, r.mem[..])
  }

  /** The bytes of the recipe's data package that its header counts. */
  ghost function Package(r: Recipe?): seq<Byte>
    reads r, if r == null then {} else {r.dp}
  {
    if r == null || r.dp.Length < DATA_SIZE + r.bytes then [] else r.dp[..DATA_SIZE + r.bytes]
  }

  /** As many bytes of a frame as its header counts, if they went out. */
  function Counted(frame: seq<Byte>, sent: bool): seq<seq<Byte>>
    requires |frame| == FRAME && SizeField(frame) <= FRAME
  {
    if sent then [frame[..SizeField(frame)]] else []
  }

  /** What do_send_recv made of a request. */
  datatype Exchange = NotSent | NoReply | Reply(bytes: seq<Byte>)

  ghost predicate FitsBuffer(e: Exchange) {
    e.Reply? ==> |e.bytes| <= FRAME
  }

  lemma SomeKey(keys: set<int>)
    requires keys != {}
    ensures exists id :: id in keys
  {
    assert (forall id :: id !in keys) ==> keys == {};
  }

  class Handler {
    const buffer: array<Byte>
    var out: Recipe?
    var recipesIn: map<int, Recipe>
    var wire: seq<seq<Byte>>        // what the connection has taken

    /** Registered recipes are usable: what init promises before any data flows. */
    ghost predicate Valid()
      reads this`out, this`recipesIn
      reads {out}`dirOut, {out}`fields, {out}`base, {out}`bytes
      reads recipesIn.Values`dirOut, recipesIn.Values`fields, recipesIn.Values`base, recipesIn.Values`bytes
    {
      && buffer.Length == FRAME
      && (out != null ==> out.Valid() && out.dirOut && buffer as object != out.mem)
      && forall id | id in recipesIn ::
           && recipesIn[id].Valid() && !recipesIn[id].dirOut
           && recipesIn[id].dp != buffer && recipesIn[id].Backed()
    }

    constructor ()
      ensures Valid() && out == null && recipesIn == map[] && wire == [] && fresh(buffer)
    {
      buffer := new Byte[FRAME](_ => 0);
      out, recipesIn, wire := null, map[], [];
    }

    /** Con::do_recv into buffer_ */
    method Fill(rx: seq<Byte>)
      requires buffer.Length == FRAME && |rx| <= FRAME
      modifies buffer
      ensures buffer[..] == Received(old(buffer[..]), rx)
    {
      forall i | 0 <= i < |rx| {
        buffer[i] := rx[i];
      }
      if |rx| < FRAME {
        buffer[|rx|] := 0;
      }
    }

    /** parse_incoming_data: all the output recipe's variables, or none. */
    method ParseIncomingData(data: array?<Byte>, rxTs: nat) returns (ok: bool)
      requires out != null && out.Valid() && out.dirOut
      requires data != null ==> data.Length == FRAME && data as object != out.mem && out.Backed()
      modifies out.mem, out`ts
      ensures ok <==> data != null && Acceptable(data[..], out.recipeId, out.bytes)
      ensures ok ==> out.mem[..] == ParseAll(old(out.mem[..]), out.fields, data[DATA_SIZE..])
      ensures ok ==> out.ts == if out.tracksTs then rxTs else old(out.ts)
      ensures !ok ==> out.mem[..] == old(out.mem[..]) && out.ts == old(out.ts)
    {
      if data == null || !IsDataPackage(data[..]) {
        return false;
      }
      if out.recipeId != data[3] {
        return false;
      }
      var datasize := SizeField(data[..]) - DATA_SIZE;
      if out.bytes != datasize {
        return false;
      }
      ok := out.Parse(data, rxTs);
    }

    /** recv: one whole frame a call; `failed` is do_recv's error. */
    method Recv(rx: seq<Byte>, failed: bool, rxTs: nat) returns (ok: bool)
      requires Valid() && |rx| <= FRAME && out != null && out.Backed()
      modifies buffer, out.mem, out`ts
      ensures Valid()
      ensures buffer[..] == if failed then old(buffer[..]) else Received(old(buffer[..]), rx)
      ensures ok <==> !failed && Acceptable(buffer[..], out.recipeId, out.bytes)
      ensures ok ==> out.mem[..] == ParseAll(old(out.mem[..]), out.fields, buffer[DATA_SIZE..])
      ensures ok ==> out.ts == if out.tracksTs then rxTs else old(out.ts)
      ensures !ok ==> out.mem[..] == old(out.mem[..]) && out.ts == old(out.ts)
    {
      if failed {
        return false;
      }
      Fill(rx);
      ok := ParseIncomingData(buffer, rxTs);
    }

    /** send's search.  The table has no order, so which recipe, if ids clash, is open. */
    method FindRecipe(recipeId: int) returns (r: Recipe?)
      ensures r == null <==> forall id | id in recipesIn :: recipesIn[id].recipeId != recipeId
      ensures r != null ==> r.recipeId == recipeId && exists id :: id in recipesIn && recipesIn[id] == r
    {
      var left: set<int> := recipesIn.Keys;
      while left != {}
        invariant left <= recipesIn.Keys
        invariant forall id | id in recipesIn && id !in left :: recipesIn[id].recipeId != recipeId
        decreases |left|
      {
        SomeKey(left);
        var id: int :| id in left;
        if recipesIn[id].recipeId == recipeId {
          return recipesIn[id];
        }
        left := left - {id};
      }
      return null;
    }

    /** con_->do_send of as many bytes as the header says. */
    method Transmit(frame: array<Byte>, accepted: bool)
      requires frame.Length == FRAME && SizeField(frame[..]) <= FRAME
      modifies this`wire
      ensures wire == old(wire) + Counted(frame[..], accepted)
    {
      if accepted {
        wire := wire + [frame[..SizeField(frame[..])]];
      }
    }

    /** The matching recipe's part of send: as many bytes of its package go out as the header says. */
    method Dispatch(r: Recipe, accepted: bool)
      requires Valid() && r.Valid() && r.Backed() && !r.dirOut
      modifies this`wire, r.dp
      ensures Valid()
      ensures Packed(r, old(r.dp[..]))
      ensures wire == old(wire) + if accepted then [Package(r)] else []
    {
      var stored := r.Store(r.dp);
      Transmit(r.dp, accepted);
    }

    /** send: an input recipe of that id stores its variables into its data package, which goes out. */
    method Send(recipeId: int, accepted: bool) returns (ok: bool, ghost sent: Recipe?)
      requires Valid()
      modifies this`wire, set id | id in recipesIn :: recipesIn[id].dp
      ensures Valid()
      ensures sent == null <==> forall id | id in recipesIn :: recipesIn[id].recipeId != recipeId
      ensures ok <==> sent != null && accepted
      ensures sent != null ==> sent in recipesIn.Values && sent.recipeId == recipeId && Packed(sent, old(sent.dp[..]))
      ensures wire == old(wire) + if ok then [Package(sent)] else []
    {
      var r := FindRecipe(recipeId);
      if r == null {
        return false, null;
      }
      ghost var id :| id in recipesIn && recipesIn[id] == r;
      Dispatch(r, accepted);
      assert recipesIn[id].recipeId == recipeId;
      return accepted, r;
    }

    /** The frame is this recipe's request, if its list fits a frame. */
    ghost predicate Asked(r: Recipe, frame: seq<Byte>)
      requires r.fields != []
      reads r`dirOut, r`fields
    {
      && |frame| == FRAME && SizeField(frame) <= FRAME
      && (r.RequestSize() < FRAME ==> IsRequest(frame, r.RequestHead(), r.RequestType(), Join(r.Names())))
    }

    /** The request's half of do_send_recv. */
    method Ask(r: Recipe, connected: bool) returns (ghost request: seq<Byte>)
      requires Valid() && r.Valid() && r.fields != [] && r.RequestSize() != FRAME
      modifies this`wire
      ensures Valid()
      ensures Asked(r, request) && wire == old(wire) + Counted(request, connected)
    {
      var hdr := new Byte[FRAME](_ => 0);
      assert hdr[..][..2] == [0, 0];
      ZeroSize();
      var asked := r.GetMsg(hdr);
      Transmit(hdr, connected);
      request := hdr[..];
    }

    /** The reply lies in the buffer, NUL-terminated. */
    method Take(reply: seq<Byte>)
      requires Valid() && |reply| <= FRAME
      modifies buffer
      ensures Valid() && buffer[..] == InPlace(old(buffer[..]), reply)
    {
      Fill(reply);
      buffer[if |reply| < FRAME then |reply| else FRAME - 1] := 0;
    }

    /** The reply's half: NUL-terminated first, then matched. */
    method Match(r: Recipe, reply: seq<Byte>) returns (ok: bool)
      requires Valid() && |reply| <= FRAME
      modifies buffer, r`active, r`recipeId
      ensures Valid()
      ensures ok <==> Registers(r.fields, DecodeResp(buffer[..]))
      ensures buffer[..] == InPlace(old(buffer[..]), reply)
      ensures ok ==> r.active && r.recipeId == buffer[3]
      ensures !ok ==> r.active == old(r.active) && r.recipeId == old(r.recipeId)
    {
      Take(reply);
      ok := r.RegisterResponse(DecodeResp(buffer[..]));
    }

    /** The first half of register_recipe: ask for the recipe and match the reply.  A refused
        recipe keeps its id and its state. */
    method Negotiate(r: Recipe, e: Exchange) returns (ok: bool, ghost request: seq<Byte>)
      requires Valid() && FitsBuffer(e)
      requires r.Valid() && r.fields != [] && r.RequestSize() != FRAME
      modifies this`wire, buffer, r`active, r`recipeId
      ensures Valid() && r.Valid() && (old(r.Backed()) ==> r.Backed())
      ensures ok <==> e.Reply? && Registers(r.fields, DecodeResp(buffer[..]))
      ensures buffer[..] == if e.Reply? then InPlace(old(buffer[..]), e.bytes) else old(buffer[..])
      ensures ok ==> r.active && r.recipeId == buffer[3]
      ensures !ok ==> r.active == old(r.active) && r.recipeId == old(r.recipeId)
      ensures Asked(r, request) && wire == old(wire) + Counted(request, !e.NotSent?)
    {
      request := Ask(r, !e.NotSent?);
      if !e.Reply? {
        return false, request;
      }
      ok := Match(r, e.bytes);
    }

    /** The recipe has its place: the output recipe replaces any other, an input recipe goes into
        the table unless its id is taken. */
    ghost predicate Adopted(r: Recipe, out0: Recipe?, in0: map<int, Recipe>)
      reads this`out, this`recipesIn, r`dirOut, r`recipeId
    {
      if r.dirOut then out == r && recipesIn == in0
      else out == out0 && recipesIn == Inserted(in0, r.recipeId, r)
    }

    /** A recipe of that id, or none if there is none. */
    ghost predicate FoundBy(r: Recipe?, recipeId: int)
      reads this`recipesIn, {r}`recipeId, recipesIn.Values`recipeId
    {
      if r == null then forall id | id in recipesIn :: recipesIn[id].recipeId != recipeId
      else r in recipesIn.Values && r.recipeId == recipeId
    }

    /** recipes_in.insert */
    method Insert(r: Recipe)
      requires Valid() && r.Valid() && !r.dirOut && r.Backed() && r.dp != buffer
      modifies this`recipesIn
      ensures Valid() && recipesIn == Inserted(old(recipesIn), r.recipeId, r)
    {
      if r.recipeId !in recipesIn {
        recipesIn := recipesIn[r.recipeId := r];
      }
    }

    /** The second half of register_recipe. */
    method Adopt(r: Recipe, accepted: bool) returns (ok: bool, ghost sent: Recipe?)
      requires Valid() && r.Valid() && (r.dirOut || r.Backed()) && buffer as object != r.mem && r.dp != buffer
      modifies this`out, this`recipesIn, this`wire
      modifies (set id | id in recipesIn :: recipesIn[id].dp), r.dp
      ensures Valid() && Adopted(r, old(out), old(recipesIn)) && buffer[..] == old(buffer[..])
      ensures ok <==> r.dirOut || (sent != null && accepted)
      ensures !r.dirOut ==> FoundBy(sent, r.recipeId)
      ensures wire == old(wire) + if ok && !r.dirOut then [Package(sent)] else []
    {
      sent := null;
      if r.dirOut {
        out := r;
        return true, null;
      }
      Insert(r);
      ok, sent := Send(r.recipeId, accepted);
    }

    /** register_recipe, once there is a recipe: negotiate, then take it on. */
    method Enroll(r: Recipe, e: Exchange, accepted: bool)
      returns (ok: bool, ghost registered: bool, ghost request: seq<Byte>, ghost sent: Recipe?)
      requires Valid() && FitsBuffer(e) && r.Valid() && r.fields != [] && r.RequestSize() != FRAME && (r.dirOut || r.Backed())
      requires buffer as object != r.mem && r.dp != buffer
      modifies this`out, this`recipesIn, this`wire, buffer, r`active, r`recipeId
      modifies (set id | id in recipesIn :: recipesIn[id].dp), r.dp
      ensures Valid()
      ensures registered <==> e.Reply? && Registers(r.fields, DecodeResp(buffer[..]))
      ensures buffer[..] == if e.Reply? then InPlace(old(buffer[..]), e.bytes) else old(buffer[..])
      ensures !registered ==> !ok && out == old(out) && recipesIn == old(recipesIn)
      ensures !registered ==> r.active == old(r.active) && r.recipeId == old(r.recipeId)
      ensures registered ==> r.active && r.recipeId == buffer[3] && Adopted(r, old(out), old(recipesIn))
      ensures registered ==> (ok <==> r.dirOut || (sent != null && accepted))
      ensures registered && !r.dirOut ==> FoundBy(sent, r.recipeId)
      ensures Asked(r, request)
      ensures wire == old(wire) + Counted(request, !e.NotSent?) + if ok && !r.dirOut then [Package(sent)] else []
    {
      var matched;
      matched, request := Negotiate(r, e);
      registered := matched;
      if !matched {
        return false, false, request, null;
      }
      ok, sent := Adopt(r, accepted);
    }

    /** register_recipe.  A failed first send of an input recipe fails the call but leaves the
        recipe registered. */
    method RegisterRecipe(r: Recipe?, e: Exchange, accepted: bool)
      returns (ok: bool, ghost registered: bool, ghost request: seq<Byte>, ghost sent: Recipe?)
      requires Valid() && FitsBuffer(e)
      requires r != null ==> r.Valid() && r.fields != [] && r.RequestSize() != FRAME && (r.dirOut || r.Backed())
      requires r != null ==> buffer as object != r.mem && r.dp != buffer
      modifies this`out, this`recipesIn, this`wire, buffer, {r}`active, {r}`recipeId
      modifies set id | id in recipesIn :: recipesIn[id].dp
      modifies if r == null then {} else {r.dp}
      ensures Valid()
      ensures registered <==> r != null && e.Reply? && Registers(r.fields, DecodeResp(buffer[..]))
      ensures buffer[..] == if r != null && e.Reply? then InPlace(old(buffer[..]), e.bytes)
                            else old(buffer[..])
      ensures !registered ==> !ok && out == old(out) && recipesIn == old(recipesIn)
      ensures !registered && r != null ==> r.active == old(r.active) && r.recipeId == old(r.recipeId)
      ensures registered ==> r.active && r.recipeId == buffer[3] && Adopted(r, old(out), old(recipesIn))
      ensures registered ==> (ok <==> r.dirOut || (sent != null && accepted))
      ensures registered && !r.dirOut ==> FoundBy(sent, r.recipeId)
      ensures r == null ==> wire == old(wire)
      ensures r != null && e.Reply? ==> forall id: Byte, types | TypeReply(e.bytes, id, types) ::
                (registered <==> TypesAre(r.fields, types)) && (registered ==> r.recipeId == id)
      ensures r != null && e.Reply? && WrongHeader(e.bytes) ==> !registered
      ensures r != null ==>
                && Asked(r, request)
                && wire == old(wire) + Counted(request, !e.NotSent?) + if ok && !r.dirOut then [Package(sent)] else []
    {
      if r == null {
        return false, false, [], null;
      }
      ok, registered, request, sent := Enroll(r, e, accepted);
      if e.Reply? {
        ReplyDecides(r.fields, old(buffer[..]), e.bytes);
      }
    }
  }

  /** std::unordered_map::insert */
  function Inserted<T>(m: map<int, T>, key: int, value: T): (n: map<int, T>)
    ensures n.Keys == m.Keys + {key}
    ensures forall k | k in m :: n[k] == m[k]
  {
    if key in m then m else m[key := value]
  }
}
