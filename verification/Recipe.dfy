/** RTDE_Recipe: the fields one side sends and the other receives, negotiated once and then stored
    into, or parsed out of, data packages. */
module Recipe {
  import opened Endian
  import opened Text
  import opened Magic
  import opened Header
  import opened Layout
  import opened Negotiation

  /** std::getline(ss, item, ',') in a loop. */
  method GetLines(s: string) returns (items: seq<string>)
    ensures items == Split(s)
  {
    items := [];
    var pos := 0;
    while pos < |s|
      invariant pos <= |s| && Split(s) == items + Split(s[pos..])
      decreases |s| - pos
    {
      var c := CommaFrom(s[pos..], 0);
      var item := s[pos..][..c];
      if pos + c == |s| {
        assert item == s[pos..];
        items := items + [item];
        pos := |s|;
      } else {
        assert s[pos..][c + 1..] == s[pos + c + 1..];
        assert Split(s[pos..]) == [item] + Split(s[pos + c + 1..]);
        items := items + [item];
        pos := pos + c + 1;
      }
    }
  }

  class Recipe {
    const tables: Tables
    const mem: array<nat>   // the client's variables, one word each
    const dp: array<Byte>   // the recipe's own data package

    var active: bool
    var recipeId: int
    var fields: seq<Token>
    var bytes: nat
    var dirOut: bool
    var tracksTs: bool
    var ts: nat             // the tracked receive time, if tracksTs

    ghost var base: nat     // bytes when the fields were last cleared

    ghost function View(): Layout
      reads this`dirOut, this`fields, this`base, this`bytes
    {
      Layout(dirOut, fields, base, bytes)
    }

    ghost predicate Valid()
      reads this`dirOut, this`fields, this`base, this`bytes
    {
      && ValidTable(tables.inputs) && ValidTable(tables.outputs)
      && dp.Length == FRAME && dp as object != mem
      && Tiled(View())
      && forall i | 0 <= i < |fields| :: FieldName(fields[i].name) && Known(fields[i].typ)
    }

    /** Every field's variable exists and every field lies inside a frame. */
    ghost predicate Backed()
      reads this`fields, this`bytes
    {
      bytes <= FRAME - DATA_SIZE && Fits(fields, FRAME - DATA_SIZE, mem.Length)
    }

    constructor (tables: Tables, mem: array<nat>)
      requires ValidTable(tables.inputs) && ValidTable(tables.outputs)
      ensures Valid() && View() == NEW_LAYOUT && !active && recipeId == -1 && !tracksTs
      ensures this.tables == tables && this.mem == mem && fresh(dp)
    {
      this.tables, this.mem := tables, mem;
      dp := new Byte[FRAME](_ => 0);
      active, recipeId := false, -1;
      fields, bytes, base, dirOut := [], 0, 0, true;
      tracksTs, ts := false, 0;
    }

    /** add_field: refused for a null variable or a name the direction's table does not list. */
    method AddField(name: string, storage: Storage) returns (ok: bool)
      requires Valid()
      modifies this`fields, this`bytes
      ensures Valid()
      ensures ok == Accepts(tables, old(View()), Op.AddField(name, storage))
      ensures View() == ApplyOp(tables, old(View()), Op.AddField(name, storage))
    {
      ApplyKeepsTiling(tables, View(), Op.AddField(name, storage));
      if storage.Null? {
        return false;
      }
      var table := if dirOut then tables.outputs else tables.inputs;
      var idx := NameToIdx(table, name);
      if idx < 0 {
        return false;
      }
      var token := Token(name, table[idx].typ, storage.cell, bytes);
      bytes := bytes + DataSize(token.typ);
      fields := fields + [token];
      return true;
    }

    /** clear_fields */
    method ClearFields()
      requires Valid()
      modifies this`fields, this`base
      ensures Valid() && View() == ApplyOp(tables, old(View()), Op.ClearFields)
    {
      fields := [];
      base := bytes;
    }

    /** set_dir: refused once there are fields. */
    method SetDir(out: bool) returns (ok: bool)
      requires Valid()
      modifies this`dirOut
      ensures Valid()
      ensures ok == Accepts(tables, old(View()), Op.SetDir(out))
      ensures View() == ApplyOp(tables, old(View()), Op.SetDir(out))
    {
      if dirOut == out {
        return true;
      }
      if |fields| > 0 {
        return false;
      }
      dirOut := out;
      return true;
    }

    /** track_ts_ns */
    method TrackTs(given: bool) returns (ok: bool)
      modifies this`tracksTs, this`ts
      ensures ok == given
      ensures if given then tracksTs && ts == 0 else tracksTs == old(tracksTs) && ts == old(ts)
    {
      if !given {
        return false;
      }
      tracksTs, ts := true, 0;
      return true;
    }

    ghost function Names(): (names: seq<string>)
      reads this`fields
      ensures |names| == |fields| && forall i | 0 <= i < |names| :: names[i] == fields[i].name
    {
      var fs := fields;
      seq(|fs|, i requires 0 <= i < |fs| => fs[i].name)
    }

    /** get_fields: a comma after each name, the last one popped. */
    method GetFields() returns (res: string)
      requires fields != []
      ensures res == Join(Names())
    {
      res := "";
      ghost var names := Names();
      for i := 0 to |fields|
        invariant i == 0 ==> res == ""
        invariant i > 0 ==> res == Join(names[..i]) + ","
      {
        JoinExtends(names, i);
        res := res + fields[i].name + ",";
      }
      assert names[..|fields|] == names;
      res := res[..|res| - 1];
    }

    /** GetMsg: the request that asks the controller for this recipe. */
    method GetMsg(frame: array<Byte>) returns (ok: bool)
      requires Valid() && fields != [] && frame.Length == FRAME
      requires RequestSize() != FRAME  // see ControlMsg
      modifies frame
      ensures ok <==> RequestSize() < FRAME
      ensures !ok ==> frame[..] == old(frame[..])
      ensures ok ==> IsRequest(frame[..], RequestHead(), RequestType(), Join(Names()))
      ensures ok ==> Split(Join(Names())) == Names() && SizeField(frame[..]) == RequestSize()
    {
      var list := GetFields();
      JoinLength(Names());
      JoinIsPlain(Names());
      if dirOut {
        ok := ControlMsg(frame, SETUP_OUT_SIZE, SETUP_OUTPUTS, list);
      } else {
        ok := ControlMsg(frame, HEADER_SIZE, SETUP_INPUTS, list);
      }
      if ok {
        RequestRoundTrip(frame[..], RequestHead(), RequestType(), Names());
      }
    }

    ghost function RequestHead(): nat
      reads this`dirOut
    {
      if dirOut then SETUP_OUT_SIZE else HEADER_SIZE
    }

    ghost function RequestType(): Byte
      reads this`dirOut
    {
      if dirOut then SETUP_OUTPUTS else SETUP_INPUTS
    }

    /** The request's size: its head, the names, and a comma between neighbours. */
    ghost function RequestSize(): nat
      requires fields != []
      reads this`dirOut, this`fields
    {
      RequestHead() + TotalLength(Names()) + |fields| - 1
    }

    /** register_response: both parsers must like the reply, or nothing changes. */
    method RegisterResponse(r: Resp) returns (ok: bool)
      requires InBuffer(r)
      modifies this`active, this`recipeId
      ensures ok == Registers(fields, r)
      ensures ok ==> active && recipeId == r.recipeId
      ensures !ok ==> active == old(active) && recipeId == old(recipeId)
    {
      var valid := RespValidate(r);
      if !valid {
        return false;
      }
      var varlist := GetLines(CString(r.payload));
      if |varlist| != |fields| {
        return false;
      }
      for i := 0 to |fields|
        invariant forall k | 0 <= k < i :: NameToType(Trim(varlist[k])) == fields[k].typ
      {
        if fields[i].typ != NameToType(Trim(varlist[i])) {
          return false;
        }
      }
      recipeId := r.recipeId;
      active := true;
      return true;
    }

    /** An input token's store: the swapped word's memory image at the token's offset. */
    method StoreToken(frame: array<Byte>, f: Token)
      requires frame.Length == FRAME && frame as object != mem
      requires End(f) <= FRAME - DATA_SIZE && f.storage < mem.Length && Known(f.typ)
      modifies frame
      ensures frame[..DATA_SIZE] == old(frame[..DATA_SIZE])
      ensures frame[DATA_SIZE..] == StoreOne(old(frame[DATA_SIZE..]), f, mem[..])
    {
      if Storable(f.typ) {
        ghost var data := frame[DATA_SIZE..];
        var n := DataSize(f.typ);
        var image := HostBytes(n, Swap(n, mem[f.storage]));
        SwappedImageIsNet(n, mem[f.storage]);
        forall k | 0 <= k < n {
          frame[DATA_SIZE + f.offset + k] := image[k];
        }
        ghost var after := frame[DATA_SIZE..];
        assert forall b | 0 <= b < |data| :: after[b] == frame[DATA_SIZE + b];
        StoreOneIs(after, data, f, mem[..]);
      }
    }

    /** store: the data package's header, then every field at its offset. */
    method Store(frame: array?<Byte>) returns (ok: bool)
      requires frame != null ==> frame.Length == FRAME && frame as object != mem
      requires frame != null && !dirOut ==> Backed()
      modifies frame
      ensures ok <==> frame != null && !dirOut
      ensures ok ==>
                && SizeField(frame[..]) == DATA_SIZE + bytes && frame[2] == DATA_PACKAGE && frame[3] == recipeId % 256
                && frame[DATA_SIZE..] == StoreAll(old(frame[DATA_SIZE..]), fields, mem[..])
      ensures !ok && frame != null ==> frame[..] == old(frame[..])
    {
      if frame == null || dirOut {
        return false;
      }
      DataPackageInit(frame, recipeId, bytes);
      ghost var head, data := frame[..DATA_SIZE], frame[DATA_SIZE..];
      assert frame[..][..2] == head[..2];
      assert data == old(frame[DATA_SIZE..]);
      assert fields[..0] == [];
      for i := 0 to |fields|
        invariant frame[..DATA_SIZE] == head
        invariant Fits(fields[..i], |data|, mem.Length)
        invariant frame[DATA_SIZE..] == StoreAll(data, fields[..i], mem[..])
      {
        StoreToken(frame, fields[i]);
        assert fields[..i + 1][..i] == fields[..i];
      }
      assert fields[..|fields|] == fields;
      assert frame[..][..2] == frame[..DATA_SIZE][..2] && frame[2] == head[2] && frame[3] == head[3];
      return true;
    }

    /** One element, read off the host's memory image of it. */
    static function ReadElement(data: seq<Byte>, f: Token, c: nat): (v: nat)
      requires Known(f.typ) && End(f) <= |data| && c < Count(f.typ)
      ensures v == ParsedValue(data, f, c)
    {
      var image := ElementAt(data, f, c);
      SwapOfImage(image);
      var v := Swap(Width(f.typ), FromHost(image));
      if f.typ == BOOL then (if v != 0 then 1 else 0) else v
    }

    /** An output token's parser: every element's memory image, swapped. */
    method ParseToken(frame: array<Byte>, f: Token)
      requires frame.Length == FRAME && frame as object != mem
      requires Known(f.typ) && End(f) <= FRAME - DATA_SIZE && InMemory(f, mem.Length)
      modifies mem
      ensures mem[..] == ParseOne(old(mem[..]), f, frame[DATA_SIZE..])
    {
      var data := frame[DATA_SIZE..];
      ghost var before := mem[..];
      SizeIsElements(f.typ);
      for c := 0 to Count(f.typ)
        invariant forall k | 0 <= k < c :: mem[f.storage + k] == ParsedValue(data, f, k)
        invariant forall cell | 0 <= cell < mem.Length && !(f.storage <= cell < f.storage + c) :: mem[cell] == before[cell]
      {
        mem[f.storage + c] := ReadElement(data, f, c);
      }
      ParseOneIs(mem[..], before, f, data);
    }

    /** parse: every field into its variable, then the receive time if it is tracked. */
    method Parse(frame: array?<Byte>, rxTs: nat) returns (ok: bool)
      requires frame != null ==> frame.Length == FRAME && frame as object != mem
      requires frame != null && dirOut ==> Backed()
      modifies mem, this`ts
      ensures ok <==> frame != null && dirOut
      ensures ok ==> mem[..] == ParseAll(old(mem[..]), fields, frame[DATA_SIZE..])
      ensures ok ==> ts == if tracksTs then rxTs else old(ts)
      ensures !ok ==> mem[..] == old(mem[..]) && ts == old(ts)
    {
      if frame == null || !dirOut {
        return false;
      }
      ghost var data := frame[DATA_SIZE..];
      assert fields[..0] == [];
      for i := 0 to |fields|
        invariant Fits(fields[..i], |data|, mem.Length)
        invariant mem[..] == ParseAll(old(mem[..]), fields[..i], data)
        invariant ts == old(ts)
      {
        ParseToken(frame, fields[i]);
        assert fields[..i + 1][..i] == fields[..i];
      }
      assert fields[..|fields|] == fields;
      if tracksTs {
        ts := rxTs;
      }
      return true;
    }
  }

  lemma {:induction false} JoinAppend(items: seq<string>, item: string)
    requires items != []
    ensures Join(items + [item]) == Join(items) + "," + item
  {
    if |items| == 1 {
      assert (items + [item])[1..] == [item];
    } else {
      assert (items + [item])[1..] == items[1..] + [item];
      JoinAppend(items[1..], item);
    }
  }

  lemma JoinExtends(names: seq<string>, i: nat)
    requires i < |names|
    ensures Join(names[..i + 1]) == if i == 0 then names[0] else Join(names[..i]) + "," + names[i]
  {
    assert names[..i + 1] == names[..i] + [names[i]];
    if i > 0 {
      JoinAppend(names[..i], names[i]);
    }
  }

  lemma {:induction false} JoinIsPlain(names: seq<string>)
    requires forall i | 0 <= i < |names| :: FieldName(names[i])
    ensures forall i | 0 <= i < |Join(names)| :: Join(names)[i] as int < 256
  {
    if |names| > 1 {
      JoinIsPlain(names[1..]);
    }
  }

  /** A recipe whose fields were never cleared fills its data package exactly: each field's bytes are
      its own variable's, if its type has a store, every byte of the payload belongs to one field,
      and bytes past the end are the frame's old ones. */
  lemma StoreFillsExactly(l: Layout, before: seq<Byte>, mem: seq<nat>, b: nat)
    requires Tiled(l) && l.base == 0 && Fits(l.fields, |before|, |mem|) && b < |before|
    ensures forall i | 0 <= i < |l.fields| :: StoredAsTyped(StoreAll(before, l.fields, mem), before, l.fields[i], mem)
    ensures b < l.bytes <==> exists i :: 0 <= i < |l.fields| && Covers(l.fields[i], b)
    ensures b >= l.bytes ==> StoreAll(before, l.fields, mem)[b] == before[b]
  {
    StoredBytes(l.fields, l.base, l.bytes, before, mem);
    TilingIsExact(l, b);
  }
}
