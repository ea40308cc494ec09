/** Where a recipe's fields lie in a frame, and what storing and parsing do there. */
module Layout {
  import opened Endian
  import opened Magic

  /** One field: its type, the client's variable (the index of its first word) and its offset. */
  datatype Token = Token(name: string, typ: DataType, storage: nat, offset: nat)

  datatype Tables = Tables(inputs: seq<Entry>, outputs: seq<Entry>)

  datatype Storage = Null | At(cell: nat)

  /** The layout part of a recipe; `base` is the value of `bytes` when the fields were last cleared. */
  datatype Layout = Layout(dirOut: bool, fields: seq<Token>, base: nat, bytes: nat)

  const NEW_LAYOUT: Layout := Layout(true, [], 0, 0)

  datatype Op = AddField(name: string, storage: Storage) | ClearFields | SetDir(dirOut: bool)

  function TableOf(tables: Tables, dirOut: bool): seq<Entry> {
    if dirOut then tables.outputs else tables.inputs
  }

  predicate Accepts(tables: Tables, l: Layout, op: Op) {
    match op
    case AddField(name, storage) => storage.At? && FindName(TableOf(tables, l.dirOut), name) >= 0
    case ClearFields => true
    case SetDir(dirOut) => dirOut == l.dirOut || l.fields == []
  }

  /** clear_fields forgets the fields but not the bytes they took. */
  function ApplyOp(tables: Tables, l: Layout, op: Op): Layout {
    if !Accepts(tables, l, op) then l
    else
      match op
      case AddField(name, storage) =>
        var table := TableOf(tables, l.dirOut);
        var typ := table[FindName(table, name)].typ;
        l.(fields := l.fields + [Token(name, typ, storage.cell, l.bytes)], bytes := l.bytes + DataSize(typ))
      case ClearFields => l.(fields := [], base := l.bytes)
      case SetDir(dirOut) => l.(dirOut := dirOut)
  }

  function RunOps(tables: Tables, ops: seq<Op>): Layout {
    if ops == [] then NEW_LAYOUT
    else ApplyOp(tables, RunOps(tables, ops[..|ops| - 1]), ops[|ops| - 1])
  }

  function End(f: Token): nat {
    f.offset + DataSize(f.typ)
  }

  /** The fields lie end to end, in order, from base to bytes. */
  ghost predicate Tiles(fields: seq<Token>, base: nat, bytes: nat) {
    if fields == [] then bytes == base
    else
      var f := fields[|fields| - 1];
      End(f) == bytes && Tiles(fields[..|fields| - 1], base, f.offset)
  }

  ghost predicate Tiled(l: Layout) {
    Tiles(l.fields, l.base, l.bytes)
  }

  /** The byte count when the fields were last cleared; 0 if they never were. */
  function BytesAtLastClear(tables: Tables, ops: seq<Op>): nat {
    if ops == [] then 0
    else
      var before := ops[..|ops| - 1];
      if ops[|ops| - 1] == ClearFields then RunOps(tables, before).bytes else BytesAtLastClear(tables, before)
  }

  /** The direction changes exactly while there are no fields, and nothing else does. */
  lemma DirectionChanges(tables: Tables, l: Layout, dirOut: bool)
    ensures ApplyOp(tables, l, SetDir(dirOut)) == l.(dirOut := if l.fields == [] then dirOut else l.dirOut)
  {
  }

  /** After any sequence of calls every field is from the table of the recipe's direction. */
  lemma {:induction false} FieldsOfDirection(tables: Tables, ops: seq<Op>, i: nat)
    requires i < |RunOps(tables, ops).fields|
    ensures var l := RunOps(tables, ops);
            var table, f := TableOf(tables, l.dirOut), l.fields[i];
            exists k :: 0 <= k < |table| && table[k] == Entry(f.name, f.typ)
  {
    var n := |ops| - 1;
    var before, l := RunOps(tables, ops[..n]), RunOps(tables, ops);
    if i < |before.fields| {
      FieldsOfDirection(tables, ops[..n], i);
    } else {
      var table := TableOf(tables, l.dirOut);
      var k := FindName(table, ops[n].name);
      assert table[k] == Entry(l.fields[i].name, l.fields[i].typ);
    }
  }

  lemma ApplyKeepsTiling(tables: Tables, l: Layout, op: Op)
    requires Tiled(l)
    ensures Tiled(ApplyOp(tables, l, op))
  {
    var l' := ApplyOp(tables, l, op);
    if l'.fields != [] && |l'.fields| > |l.fields| {
      assert l'.fields[..|l'.fields| - 1] == l.fields;
    }
  }

  /** Any sequence of calls, successful or not, leaves the fields tiling [base, bytes). */
  lemma {:induction false} EveryHistoryTiles(tables: Tables, ops: seq<Op>)
    ensures Tiled(RunOps(tables, ops)) && RunOps(tables, ops).base == BytesAtLastClear(tables, ops)
  {
    if ops != [] {
      EveryHistoryTiles(tables, ops[..|ops| - 1]);
      ApplyKeepsTiling(tables, RunOps(tables, ops[..|ops| - 1]), ops[|ops| - 1]);
    }
  }

  ghost predicate Covers(f: Token, b: nat) {
    f.offset <= b < End(f)
  }

  lemma {:induction false} FieldInside(fields: seq<Token>, base: nat, bytes: nat, i: nat)
    requires Tiles(fields, base, bytes) && i < |fields|
    ensures base <= fields[i].offset && End(fields[i]) <= bytes
  {
    var n := |fields| - 1;
    BaseBelow(fields[..n], base, fields[n].offset);
    if i < n {
      FieldInside(fields[..n], base, fields[n].offset, i);
    }
  }

  lemma {:induction false} BaseBelow(fields: seq<Token>, base: nat, bytes: nat)
    requires Tiles(fields, base, bytes)
    ensures base <= bytes
  {
    if fields != [] {
      BaseBelow(fields[..|fields| - 1], base, fields[|fields| - 1].offset);
    }
  }

  lemma {:induction false} OffsetsOrdered(fields: seq<Token>, base: nat, bytes: nat, i: nat, j: nat)
    requires Tiles(fields, base, bytes) && i < j < |fields|
    ensures End(fields[i]) <= fields[j].offset
  {
    var n := |fields| - 1;
    if j < n {
      OffsetsOrdered(fields[..n], base, fields[n].offset, i, j);
    } else {
      FieldInside(fields[..n], base, fields[n].offset, i);
    }
  }

  lemma {:induction false} SomeFieldCovers(fields: seq<Token>, base: nat, bytes: nat, b: nat) returns (i: nat)
    requires Tiles(fields, base, bytes) && base <= b < bytes
    ensures i < |fields| && Covers(fields[i], b)
  {
    var n := |fields| - 1;
    if b < fields[n].offset {
      i := SomeFieldCovers(fields[..n], base, fields[n].offset, b);
    } else {
      i := n;
    }
  }

  /** A tiling: a byte lies in [base, bytes) exactly when some field covers it, and no two fields do. */
  lemma TilingIsExact(l: Layout, b: nat)
    requires Tiled(l)
    ensures l.base <= b < l.bytes <==> exists i :: 0 <= i < |l.fields| && Covers(l.fields[i], b)
    ensures forall i, j | 0 <= i < j < |l.fields| :: !(Covers(l.fields[i], b) && Covers(l.fields[j], b))
  {
    if l.base <= b < l.bytes {
      var i := SomeFieldCovers(l.fields, l.base, l.bytes, b);
    }
    forall i | 0 <= i < |l.fields|
      ensures l.base <= l.fields[i].offset && End(l.fields[i]) <= l.bytes
    {
      FieldInside(l.fields, l.base, l.bytes, i);
    }
    forall i, j | 0 <= i < j < |l.fields|
      ensures !(Covers(l.fields[i], b) && Covers(l.fields[j], b))
    {
      OffsetsOrdered(l.fields, l.base, l.bytes, i, j);
    }
  }

  // ----- Storing -----

  /** The element width and count of a type. */
  function Width(t: DataType): nat {
    match t
    case BOOL => 1
    case UINT8 => 1
    case UINT32 => 4
    case INT32 => 4
    case VECTOR6INT32 => 4
    case VECTOR6UINT32 => 4
    case UINT64 => 8
    case DOUBLE => 8
    case VECTOR3D => 8
    case VECTOR6D => 8
    case _ => 0
  }

  function Count(t: DataType): nat {
    match t
    case VECTOR3D => 3
    case VECTOR6D => 6
    case VECTOR6INT32 => 6
    case VECTOR6UINT32 => 6
    case _ => 1
  }

  /** The type table of the RTDE Guide: how many elements of how many bytes, and how many in all. */
  ghost predicate Encoded(t: DataType, count: nat, width: nat, size: nat) {
    || ((t == BOOL || t == UINT8) && count == 1 && width == 1 && size == 1)
    || ((t == UINT32 || t == INT32) && count == 1 && width == 4 && size == 4)
    || ((t == UINT64 || t == DOUBLE) && count == 1 && width == 8 && size == 8)
    || (t == VECTOR3D && count == 3 && width == 8 && size == 24)
    || (t == VECTOR6D && count == 6 && width == 8 && size == 48)
    || ((t == VECTOR6INT32 || t == VECTOR6UINT32) && count == 6 && width == 4 && size == 24)
  }

  lemma TypeTable(t: DataType, count: nat, width: nat, size: nat)
    requires Encoded(t, count, width, size)
    ensures Known(t) && Count(t) == count && Width(t) == width && DataSize(t) == size == count * width
  {
  }

  /** The rest of the size table: one byte a character, and none for no type at all. */
  lemma OtherSizes(t: DataType)
    requires !Known(t)
    ensures DataSize(t) == if t == STRING then 1 else 0
  {
  }

  lemma SizeIsElements(t: DataType)
    requires Known(t)
    ensures DataSize(t) == Count(t) * Width(t) && Width(t) > 0
  {
  }

  /** The types an input token has a store for; the others store nothing. */
  predicate Storable(t: DataType) {
    t == BOOL || t == UINT8 || t == UINT32 || t == INT32 || t == DOUBLE
  }

  ghost predicate InMemory(f: Token, cells: nat) {
    f.storage + Count(f.typ) <= cells
  }

  /** Everything a store or parse touches is there. */
  ghost predicate Fits(fields: seq<Token>, bytes: nat, cells: nat) {
    forall i | 0 <= i < |fields| :: Known(fields[i].typ) && End(fields[i]) <= bytes && InMemory(fields[i], cells)
  }

  /** One field stored: its variable, in network order, at its offset. */
  function StoreOne(data: seq<Byte>, f: Token, mem: seq<nat>): (r: seq<Byte>)
    requires End(f) <= |data| && f.storage < |mem|
    ensures |r| == |data|
  {
    if Storable(f.typ) then
      data[..f.offset] + NetBytes(DataSize(f.typ), mem[f.storage]) + data[End(f)..]
    else data
  }

  lemma StoreOneIs(after: seq<Byte>, data: seq<Byte>, f: Token, mem: seq<nat>)
    requires End(f) <= |data| == |after| && f.storage < |mem| && Storable(f.typ)
    requires forall k | 0 <= k < DataSize(f.typ) :: after[f.offset + k] == NetBytes(DataSize(f.typ), mem[f.storage])[k]
    requires forall b | 0 <= b < |data| && !Covers(f, b) :: after[b] == data[b]
    ensures after == StoreOne(data, f, mem)
  {
    var r := StoreOne(data, f, mem);
    forall b | 0 <= b < |data|
      ensures after[b] == r[b]
    {
      if Covers(f, b) {
        assert after[f.offset + (b - f.offset)] == NetBytes(DataSize(f.typ), mem[f.storage])[b - f.offset];
      }
    }
  }

  function StoreAll(data: seq<Byte>, fields: seq<Token>, mem: seq<nat>): (r: seq<Byte>)
    requires Fits(fields, |data|, |mem|)
    ensures |r| == |data|
  {
    if fields == [] then data
    else StoreOne(StoreAll(data, fields[..|fields| - 1], mem), fields[|fields| - 1], mem)
  }

  ghost predicate AllStorable(fields: seq<Token>) {
    forall i | 0 <= i < |fields| ::
      var t := fields[i].typ; t == BOOL || t == UINT8 || t == UINT32 || t == INT32 || t == DOUBLE
  }

  ghost predicate Stored(r: seq<Byte>, f: Token, mem: seq<nat>) {
    && End(f) <= |r| && f.storage < |mem|
    && r[f.offset..End(f)] == NetBytes(DataSize(f.typ), mem[f.storage])
  }

  lemma StoreOneKeeps(data: seq<Byte>, f: Token, g: Token, mem: seq<nat>)
    requires End(f) <= |data| && f.storage < |mem| && Stored(data, g, mem) && End(g) <= f.offset
    ensures Stored(StoreOne(data, f, mem), g, mem)
  {
    assert StoreOne(data, f, mem)[g.offset..End(g)] == data[g.offset..End(g)];
  }

  lemma StoreOneStores(data: seq<Byte>, f: Token, mem: seq<nat>)
    requires End(f) <= |data| && f.storage < |mem| && Storable(f.typ)
    ensures Stored(StoreOne(data, f, mem), f, mem)
    ensures forall b | 0 <= b < |data| && !Covers(f, b) :: StoreOne(data, f, mem)[b] == data[b]
  {
    assert StoreOne(data, f, mem)[f.offset..End(f)] == NetBytes(DataSize(f.typ), mem[f.storage]);
  }

  /** What a store leaves in field f: the variable's bytes in network order, for the types an
      input token has a store for; the old bytes, for the others. */
  ghost predicate StoredAsTyped(r: seq<Byte>, data: seq<Byte>, f: Token, mem: seq<nat>)
    requires |r| == |data| && f.storage < |mem| && End(f) <= |data|
  {
    var at, x := f.offset, mem[f.storage];
    match f.typ
    case BOOL => at + 1 <= |r| && r[at..at + 1] == NetBytes(1, x)
    case UINT8 => at + 1 <= |r| && r[at..at + 1] == NetBytes(1, x)
    case UINT32 => at + 4 <= |r| && r[at..at + 4] == NetBytes(4, x)
    case INT32 => at + 4 <= |r| && r[at..at + 4] == NetBytes(4, x)
    case DOUBLE => at + 8 <= |r| && r[at..at + 8] == NetBytes(8, x)
    case _ => r[at..End(f)] == data[at..End(f)]
  }

  lemma StoreOneTyped(data: seq<Byte>, f: Token, mem: seq<nat>)
    requires End(f) <= |data| && f.storage < |mem|
    ensures StoredAsTyped(StoreOne(data, f, mem), data, f, mem)
    ensures forall b | 0 <= b < |data| && !Covers(f, b) :: StoreOne(data, f, mem)[b] == data[b]
  {
    if Storable(f.typ) {
      StoreOneStores(data, f, mem);
    }
  }

  lemma TypedStays(r: seq<Byte>, data: seq<Byte>, f: Token, g: Token, mem: seq<nat>)
    requires |r| == |data| && f.storage < |mem| && g.storage < |mem| && End(f) <= |data| && End(g) <= f.offset
    requires StoredAsTyped(r, data, g, mem)
    ensures StoredAsTyped(StoreOne(r, f, mem), data, g, mem)
  {
    var r' := StoreOne(r, f, mem);
    assert r'[g.offset..End(g)] == r[g.offset..End(g)];
  }

  lemma TypedFrom(r: seq<Byte>, before: seq<Byte>, data: seq<Byte>, f: Token, mem: seq<nat>)
    requires |r| == |before| == |data| && f.storage < |mem| && End(f) <= |data|
    requires StoredAsTyped(r, before, f, mem) && before[f.offset..End(f)] == data[f.offset..End(f)]
    ensures StoredAsTyped(r, data, f, mem)
  {
  }

  /** After storing, each field has its own variable's bytes in network order, if its type has a
      store; every other byte of the frame is as it was. */
  lemma {:induction false} StoredBytes(fields: seq<Token>, base: nat, bytes: nat, data: seq<Byte>, mem: seq<nat>)
    requires Tiles(fields, base, bytes) && Fits(fields, |data|, |mem|)
    ensures forall i | 0 <= i < |fields| :: StoredAsTyped(StoreAll(data, fields, mem), data, fields[i], mem)
    ensures forall b | 0 <= b < |data| && !(base <= b < bytes) :: StoreAll(data, fields, mem)[b] == data[b]
  {
    if fields != [] {
      var n := |fields| - 1;
      var f, rest := fields[n], fields[..n];
      StoredBytes(rest, base, f.offset, data, mem);
      BaseBelow(rest, base, f.offset);
      var before := StoreAll(data, rest, mem);
      StoreOneTyped(before, f, mem);
      assert before[f.offset..End(f)] == data[f.offset..End(f)];
      TypedFrom(StoreOne(before, f, mem), before, data, f, mem);
      forall i | 0 <= i < n
        ensures StoredAsTyped(StoreOne(before, f, mem), data, fields[i], mem)
      {
        assert rest[i] == fields[i];
        FieldInside(rest, base, f.offset, i);
        TypedStays(before, data, f, fields[i], mem);
      }
    }
  }

  lemma TypedIsStored(r: seq<Byte>, data: seq<Byte>, f: Token, mem: seq<nat>)
    requires |r| == |data| && f.storage < |mem| && End(f) <= |data| && Storable(f.typ)
    requires StoredAsTyped(r, data, f, mem)
    ensures Stored(r, f, mem)
  {
  }

  // ----- Parsing -----

  function ElementAt(data: seq<Byte>, f: Token, c: nat): (image: seq<Byte>)
    requires Known(f.typ) && End(f) <= |data| && c < Count(f.typ)
    ensures |image| == Width(f.typ)
  {
    SizeIsElements(f.typ);
    var at := f.offset + c * Width(f.typ);
    assert c * Width(f.typ) + Width(f.typ) <= DataSize(f.typ);
    data[at..at + Width(f.typ)]
  }

  /** The value a parser gives element c of a field. */
  function ParsedValue(data: seq<Byte>, f: Token, c: nat): nat
    requires Known(f.typ) && End(f) <= |data| && c < Count(f.typ)
  {
    var v := FromNet(ElementAt(data, f, c));
    if f.typ == BOOL then (if v != 0 then 1 else 0) else v
  }

  function ParseOne(mem: seq<nat>, f: Token, data: seq<Byte>): (r: seq<nat>)
    requires Known(f.typ) && End(f) <= |data| && InMemory(f, |mem|)
    ensures |r| == |mem|
  {
    mem[..f.storage]
    + seq(Count(f.typ), c requires 0 <= c < Count(f.typ) => ParsedValue(data, f, c))
    + mem[f.storage + Count(f.typ)..]
  }

  function ParseAll(mem: seq<nat>, fields: seq<Token>, data: seq<Byte>): (r: seq<nat>)
    requires Fits(fields, |data|, |mem|)
    ensures |r| == |mem|
  {
    if fields == [] then mem
    else ParseOne(ParseAll(mem, fields[..|fields| - 1], data), fields[|fields| - 1], data)
  }

  ghost predicate Holds(f: Token, cell: int) {
    f.storage <= cell < f.storage + Count(f.typ)
  }

  ghost predicate Apart(f: Token, g: Token) {
    f.storage + Count(f.typ) <= g.storage || g.storage + Count(g.typ) <= f.storage
  }

  /** No variable is registered twice. */
  ghost predicate DistinctStorage(fields: seq<Token>) {
    forall i, j | 0 <= i < j < |fields| :: Apart(fields[i], fields[j])
  }

  ghost predicate Parsed(r: seq<nat>, f: Token, data: seq<Byte>) {
    && Known(f.typ) && End(f) <= |data| && InMemory(f, |r|)
    && forall c | 0 <= c < Count(f.typ) :: r[f.storage + c] == ParsedValue(data, f, c)
  }

  lemma ParseOneIs(after: seq<nat>, mem: seq<nat>, f: Token, data: seq<Byte>)
    requires Known(f.typ) && End(f) <= |data| && InMemory(f, |mem|) && |after| == |mem|
    requires forall c | 0 <= c < Count(f.typ) :: after[f.storage + c] == ParsedValue(data, f, c)
    requires forall cell | 0 <= cell < |mem| && !Holds(f, cell) :: after[cell] == mem[cell]
    ensures after == ParseOne(mem, f, data)
  {
    forall cell | 0 <= cell < |mem|
      ensures after[cell] == ParseOne(mem, f, data)[cell]
    {
      if Holds(f, cell) {
        assert after[f.storage + (cell - f.storage)] == ParsedValue(data, f, cell - f.storage);
      }
    }
  }

  lemma ParseOneSets(mem: seq<nat>, f: Token, data: seq<Byte>)
    requires Known(f.typ) && End(f) <= |data| && InMemory(f, |mem|)
    ensures Parsed(ParseOne(mem, f, data), f, data)
    ensures forall cell | 0 <= cell < |mem| && !Holds(f, cell) :: ParseOne(mem, f, data)[cell] == mem[cell]
  {
  }

  lemma ParseOneKeeps(mem: seq<nat>, f: Token, g: Token, data: seq<Byte>)
    requires Known(f.typ) && End(f) <= |data| && InMemory(f, |mem|) && Parsed(mem, g, data)
    requires Apart(g, f)
    ensures Parsed(ParseOne(mem, f, data), g, data)
  {
    ParseOneSets(mem, f, data);
    forall cell | Holds(g, cell)
      ensures ParseOne(mem, f, data)[cell] == mem[cell]
    {
      assert !Holds(f, cell);
    }
  }

  lemma ParsedMore(mem: seq<nat>, rest: seq<Token>, f: Token, data: seq<Byte>)
    requires Known(f.typ) && End(f) <= |data| && InMemory(f, |mem|) && DistinctStorage(rest + [f])
    requires forall i | 0 <= i < |rest| :: Parsed(mem, rest[i], data)
    ensures forall i | 0 <= i < |rest| :: Parsed(ParseOne(mem, f, data), rest[i], data)
  {
    forall i | 0 <= i < |rest|
      ensures Parsed(ParseOne(mem, f, data), rest[i], data)
    {
      assert (rest + [f])[i] == rest[i] && (rest + [f])[|rest|] == f;
      ParseOneKeeps(mem, f, rest[i], data);
    }
  }

  lemma {:induction false} ParsedFields(mem: seq<nat>, fields: seq<Token>, data: seq<Byte>)
    requires Fits(fields, |data|, |mem|) && DistinctStorage(fields)
    ensures forall i | 0 <= i < |fields| :: Parsed(ParseAll(mem, fields, data), fields[i], data)
  {
    if fields != [] {
      var n := |fields| - 1;
      var rest, f := fields[..n], fields[n];
      assert fields == rest + [f];
      ParsedFields(mem, rest, data);
      var before := ParseAll(mem, rest, data);
      ParseOneSets(before, f, data);
      ParsedMore(before, rest, f, data);
      assert forall i | 0 <= i < n :: fields[i] == rest[i];
    }
  }

  lemma {:induction false} OthersKept(mem: seq<nat>, fields: seq<Token>, data: seq<Byte>, cell: nat)
    requires Fits(fields, |data|, |mem|) && cell < |mem|
    requires forall i | 0 <= i < |fields| :: !Holds(fields[i], cell)
    ensures ParseAll(mem, fields, data)[cell] == mem[cell]
  {
    if fields != [] {
      var n := |fields| - 1;
      OthersKept(mem, fields[..n], data, cell);
      ParseOneSets(ParseAll(mem, fields[..n], data), fields[n], data);
    }
  }

  /** Parsing gives every registered variable its field's value and touches no other. */
  lemma ParsedCells(mem: seq<nat>, fields: seq<Token>, data: seq<Byte>)
    requires Fits(fields, |data|, |mem|) && DistinctStorage(fields)
    ensures forall i | 0 <= i < |fields| :: Parsed(ParseAll(mem, fields, data), fields[i], data)
    ensures forall cell | 0 <= cell < |mem| && (forall i | 0 <= i < |fields| :: !Holds(fields[i], cell)) ::
              ParseAll(mem, fields, data)[cell] == mem[cell]
  {
    ParsedFields(mem, fields, data);
    forall cell | 0 <= cell < |mem| && (forall i | 0 <= i < |fields| :: !Holds(fields[i], cell))
      ensures ParseAll(mem, fields, data)[cell] == mem[cell]
    {
      OthersKept(mem, fields, data, cell);
    }
  }

  /** Words on the wire, one after another. */
  function NetWords(width: nat, words: seq<nat>): (r: seq<Byte>)
    ensures |r| == |words| * width
  {
    if words == [] then [] else NetBytes(width, words[0]) + NetWords(width, words[1..])
  }

  lemma {:induction false} NetWordAt(width: nat, words: seq<nat>, c: nat)
    requires c < |words|
    ensures 0 <= c * width <= (c + 1) * width <= |words| * width
    ensures NetWords(width, words)[c * width..(c + 1) * width] == NetBytes(width, words[c])
  {
    var r, rest := NetWords(width, words), words[1..];
    if c > 0 {
      NetWordAt(width, rest, c - 1);
      assert r[width..] == NetWords(width, rest);
      assert c * width == width + (c - 1) * width && (c + 1) * width == width + c * width;
      assert r[c * width..(c + 1) * width] == r[width..][(c - 1) * width..c * width];
    }
  }

  /** As the type table has it, the field's bytes are there and so is its variable. */
  ghost predicate EncodedFits(f: Token, bytes: nat, cells: nat) {
    exists count, width, size :: Encoded(f.typ, count, width, size) && f.offset + size <= bytes && f.storage + count <= cells
  }

  lemma EncodedAllFit(fields: seq<Token>, bytes: nat, cells: nat)
    requires forall j | 0 <= j < |fields| :: EncodedFits(fields[j], bytes, cells)
    ensures Fits(fields, bytes, cells)
  {
    forall j | 0 <= j < |fields|
      ensures Known(fields[j].typ) && End(fields[j]) <= bytes && InMemory(fields[j], cells)
    {
      var count, width, size :| Encoded(fields[j].typ, count, width, size)
        && fields[j].offset + size <= bytes && fields[j].storage + count <= cells;
      TypeTable(fields[j].typ, count, width, size);
    }
  }

  lemma SliceOfSlice(data: seq<Byte>, from: nat, size: nat, at: nat, width: nat)
    requires from + size <= |data| && at + width <= size
    ensures data[from..from + size][at..at + width] == data[from + at..from + at + width]
  {
    var whole, part := data[from..from + size], data[from + at..from + at + width];
    forall k | 0 <= k < width
      ensures whole[at..at + width][k] == part[k]
    {
      assert whole[at + k] == data[from + (at + k)];
    }
  }

  /** The field's bytes are these words', one after another. */
  ghost predicate CarriesWords(data: seq<Byte>, f: Token, words: seq<nat>, width: nat, size: nat) {
    && Encoded(f.typ, |words|, width, size) && f.offset + size <= |data|
    && data[f.offset..f.offset + size] == NetWords(width, words)
  }

  lemma ElementIs(data: seq<Byte>, f: Token, words: seq<nat>, width: nat, size: nat, c: nat)
    requires CarriesWords(data, f, words, width, size) && c < |words|
    requires Known(f.typ) && c < Count(f.typ) && Width(f.typ) == width && End(f) == f.offset + size == f.offset + |words| * width
    ensures ElementAt(data, f, c) == NetBytes(width, words[c])
  {
    NetWordAt(width, words, c);
    var at := c * width;
    assert (c + 1) * width == at + width;
    SliceOfSlice(data, f.offset, size, at, width);
  }

  /** The value a variable's element gets from a word on the wire; of a BOOL, whether it is zero. */
  function WordRead(t: DataType, width: nat, x: nat): nat {
    if t == BOOL then (if x % 256 == 0 then 0 else 1) else x % Pow256(width)
  }

  lemma ElementWord(data: seq<Byte>, f: Token, words: seq<nat>, width: nat, size: nat, c: nat)
    requires CarriesWords(data, f, words, width, size) && c < |words|
    requires Known(f.typ) && c < Count(f.typ) && Width(f.typ) == width && End(f) == f.offset + size == f.offset + |words| * width
    ensures ParsedValue(data, f, c) == WordRead(f.typ, width, words[c])
  {
    ElementIs(data, f, words, width, size, c);
    NetRoundTrip(width, words[c]);
    assert Pow256(1) == 256 * Pow256(0);
  }

  /** A field that carries words x0, x1, ... on the wire, as many and as wide as its type has them,
      leaves x_c in the c-th element of its variable. */
  lemma FieldReads(mem: seq<nat>, fields: seq<Token>, data: seq<Byte>, i: nat, words: seq<nat>, width: nat, size: nat)
    requires i < |fields| && DistinctStorage(fields)
    requires forall j | 0 <= j < |fields| :: EncodedFits(fields[j], |data|, |mem|)
    requires CarriesWords(data, fields[i], words, width, size)
    ensures Fits(fields, |data|, |mem|) && fields[i].storage + |words| <= |mem|
    ensures forall c | 0 <= c < |words| ::
              ParseAll(mem, fields, data)[fields[i].storage + c] == WordRead(fields[i].typ, width, words[c])
  {
    EncodedAllFit(fields, |data|, |mem|);
    ParsedFields(mem, fields, data);
    VariableReads(ParseAll(mem, fields, data), data, fields[i], words, width, size);
  }

  lemma VariableReads(r: seq<nat>, data: seq<Byte>, f: Token, words: seq<nat>, width: nat, size: nat)
    requires Parsed(r, f, data) && CarriesWords(data, f, words, width, size)
    ensures f.storage + |words| <= |r|
    ensures forall c | 0 <= c < |words| :: r[f.storage + c] == WordRead(f.typ, width, words[c])
  {
    TypeTable(f.typ, |words|, width, size);
    forall c | 0 <= c < |words|
      ensures r[f.storage + c] == WordRead(f.typ, width, words[c])
    {
      ElementWord(data, f, words, width, size, c);
    }
  }

  /** Parsing reads the fields' own bytes and nothing past them. */
  lemma {:induction false} ParseReadsOwnBytes(fields: seq<Token>, base: nat, bytes: nat, mem: seq<nat>,
                                              data: seq<Byte>, data': seq<Byte>)
    requires Tiles(fields, base, bytes) && Fits(fields, |data|, |mem|) && Fits(fields, |data'|, |mem|)
    requires bytes <= |data| && bytes <= |data'| && data[..bytes] == data'[..bytes]
    ensures ParseAll(mem, fields, data) == ParseAll(mem, fields, data')
  {
    if fields != [] {
      var n := |fields| - 1;
      var f := fields[n];
      assert data[..f.offset] == data[..bytes][..f.offset] && data'[..f.offset] == data'[..bytes][..f.offset];
      ParseReadsOwnBytes(fields[..n], base, f.offset, mem, data, data');
      forall c: nat | c < Count(f.typ)
        ensures ParsedValue(data, f, c) == ParsedValue(data', f, c)
      {
        SameElement(f, c, bytes, data, data');
      }
      ParseOneAlike(ParseAll(mem, fields[..n], data), f, data, data');
    }
  }

  lemma SameElement(f: Token, c: nat, bytes: nat, data: seq<Byte>, data': seq<Byte>)
    requires Known(f.typ) && End(f) <= bytes <= |data| && bytes <= |data'| && c < Count(f.typ)
    requires data[..bytes] == data'[..bytes]
    ensures ElementAt(data, f, c) == ElementAt(data', f, c)
  {
    SizeIsElements(f.typ);
    var at := f.offset + c * Width(f.typ);
    assert c * Width(f.typ) + Width(f.typ) <= DataSize(f.typ);
    assert data[at..at + Width(f.typ)] == data[..bytes][at..at + Width(f.typ)];
    assert data'[at..at + Width(f.typ)] == data'[..bytes][at..at + Width(f.typ)];
  }

  lemma ParseOneAlike(mem: seq<nat>, f: Token, data: seq<Byte>, data': seq<Byte>)
    requires Known(f.typ) && End(f) <= |data| && End(f) <= |data'| && InMemory(f, |mem|)
    requires forall c: nat | c < Count(f.typ) :: ParsedValue(data, f, c) == ParsedValue(data', f, c)
    ensures ParseOne(mem, f, data) == ParseOne(mem, f, data')
  {
  }

  // ----- Read-back -----

  /** What survives a trip over the wire: as many bytes as the field has; of a BOOL, zero or not. */
  function Carried(t: DataType, x: nat): nat {
    var v := x % Pow256(Width(t));
    if t == BOOL then (if v != 0 then 1 else 0) else v
  }

  ghost predicate SameShape(a: Layout, b: Layout) {
    && a.base == b.base && |a.fields| == |b.fields|
    && forall i | 0 <= i < |a.fields| :: a.fields[i].typ == b.fields[i].typ
  }

  lemma {:induction false} SameOffsets(fs: seq<Token>, gs: seq<Token>, base: nat, m: nat, n: nat)
    requires Tiles(fs, base, m) && Tiles(gs, base, n) && |fs| == |gs|
    requires forall i | 0 <= i < |fs| :: fs[i].typ == gs[i].typ
    ensures m == n && forall i | 0 <= i < |fs| :: fs[i].offset == gs[i].offset
  {
    if fs != [] {
      var k := |fs| - 1;
      SameOffsets(fs[..k], gs[..k], base, fs[k].offset, gs[k].offset);
      assert forall i | 0 <= i < k :: fs[..k][i] == fs[i] && gs[..k][i] == gs[i];
    }
  }

  lemma StorableIsOne(t: DataType)
    requires Storable(t)
    ensures Known(t) && Count(t) == 1 && DataSize(t) == Width(t)
  {
  }

  lemma OnlyElement(frame: seq<Byte>, g: Token)
    requires Known(g.typ) && Count(g.typ) == 1 && DataSize(g.typ) == Width(g.typ) && End(g) <= |frame|
    ensures ElementAt(frame, g, 0) == frame[g.offset..End(g)]
  {
  }

  lemma ParsesWhatIsStored(frame: seq<Byte>, f: Token, g: Token, mem: seq<nat>)
    requires Stored(frame, f, mem) && Storable(f.typ) && g.typ == f.typ && g.offset == f.offset
    ensures ParsedValue(frame, g, 0) == Carried(f.typ, mem[f.storage])
  {
    StorableIsOne(f.typ);
    OnlyElement(frame, g);
    ElementReads(frame, g, Width(g.typ), mem[f.storage]);
  }

  lemma ElementReads(frame: seq<Byte>, g: Token, n: nat, x: nat)
    requires Known(g.typ) && n == Width(g.typ) && End(g) <= |frame|
    requires ElementAt(frame, g, 0) == NetBytes(n, x)
    ensures ParsedValue(frame, g, 0) == Carried(g.typ, x)
  {
    NetRoundTrip(n, x);
  }

  /** Storing with one recipe and parsing with another of the same shape returns every value. */
  lemma ReadBack(a: Layout, b: Layout, data: seq<Byte>, mem: seq<nat>, mem': seq<nat>, i: nat)
    requires Tiled(a) && Tiled(b) && SameShape(a, b) && i < |a.fields|
    requires Fits(a.fields, |data|, |mem|) && Fits(b.fields, |data|, |mem'|) && DistinctStorage(b.fields)
    requires AllStorable(a.fields)
    ensures ParseAll(mem', b.fields, StoreAll(data, a.fields, mem))[b.fields[i].storage]
         == Carried(a.fields[i].typ, mem[a.fields[i].storage])
  {
    var f, g := a.fields[i], b.fields[i];
    var frame := StoreAll(data, a.fields, mem);
    StoredBytes(a.fields, a.base, a.bytes, data, mem);
    SameOffsets(a.fields, b.fields, a.base, a.bytes, b.bytes);
    TypedIsStored(frame, data, f, mem);
    ParsedCells(mem', b.fields, frame);
    ParsesWhatIsStored(frame, f, g, mem);
    assert Parsed(ParseAll(mem', b.fields, frame), g, frame);
    assert ParseAll(mem', b.fields, frame)[g.storage + 0] == ParsedValue(frame, g, 0);
  }

  // ----- Recipes over names in both tables -----

  /** The tables give a name they share one type, and inputs only types with a store. */
  ghost predicate Agree(tables: Tables) {
    && ValidTable(tables.inputs) && ValidTable(tables.outputs)
    && (forall i | 0 <= i < |tables.inputs| ::
          var t := tables.inputs[i].typ; t == BOOL || t == UINT8 || t == UINT32 || t == INT32 || t == DOUBLE)
    && (forall i, j | 0 <= i < |tables.inputs| && 0 <= j < |tables.outputs| ::
          tables.inputs[i].name == tables.outputs[j].name ==> tables.inputs[i].typ == tables.outputs[j].typ)
  }

  /** set_dir, then one add_field a name. */
  function Build(tables: Tables, dirOut: bool, names: seq<string>, cells: seq<nat>): Layout
    requires |names| == |cells|
  {
    if names == [] then NEW_LAYOUT.(dirOut := dirOut)
    else
      var n := |names| - 1;
      ApplyOp(tables, Build(tables, dirOut, names[..n], cells[..n]), AddField(names[n], At(cells[n])))
  }

  ghost predicate Listed(table: seq<Entry>, names: seq<string>) {
    forall i | 0 <= i < |names| :: FindName(table, names[i]) >= 0
  }

  ghost predicate BuiltFrom(l: Layout, table: seq<Entry>, names: seq<string>, cells: seq<nat>) {
    && |l.fields| == |names| == |cells|
    && forall i | 0 <= i < |names| ::
         && FindName(table, names[i]) >= 0
         && l.fields[i].name == names[i] && l.fields[i].storage == cells[i]
         && l.fields[i].typ == table[FindName(table, names[i])].typ
  }

  lemma BuildOne(tables: Tables, l: Layout, names: seq<string>, cells: seq<nat>)
    requires |names| == |cells| > 0 && FindName(TableOf(tables, l.dirOut), names[|names| - 1]) >= 0
    requires Tiled(l) && BuiltFrom(l, TableOf(tables, l.dirOut), names[..|names| - 1], cells[..|names| - 1])
    ensures var l' := ApplyOp(tables, l, AddField(names[|names| - 1], At(cells[|names| - 1])));
            && Tiled(l') && l'.base == l.base && l'.dirOut == l.dirOut
            && BuiltFrom(l', TableOf(tables, l.dirOut), names, cells)
  {
    var n := |names| - 1;
    ApplyKeepsTiling(tables, l, AddField(names[n], At(cells[n])));
    assert forall i | 0 <= i < n :: names[..n][i] == names[i] && cells[..n][i] == cells[i];
  }

  lemma {:induction false} BuildFields(tables: Tables, dirOut: bool, names: seq<string>, cells: seq<nat>)
    requires |names| == |cells| && Listed(TableOf(tables, dirOut), names)
    ensures var l := Build(tables, dirOut, names, cells);
            Tiled(l) && l.base == 0 && l.dirOut == dirOut && BuiltFrom(l, TableOf(tables, dirOut), names, cells)
  {
    if names != [] {
      var n := |names| - 1;
      BuildFields(tables, dirOut, names[..n], cells[..n]);
      assert FindName(TableOf(tables, dirOut), names[n]) >= 0;
      BuildOne(tables, Build(tables, dirOut, names[..n], cells[..n]), names, cells);
    }
  }

  lemma BuiltAlike(tables: Tables, a: Layout, b: Layout, names: seq<string>, cells: seq<nat>, cells': seq<nat>)
    requires Agree(tables)
    requires BuiltFrom(a, tables.inputs, names, cells) && BuiltFrom(b, tables.outputs, names, cells')
    ensures |a.fields| == |b.fields| && AllStorable(a.fields) && AllStorable(b.fields)
    ensures forall k | 0 <= k < |a.fields| :: a.fields[k].typ == b.fields[k].typ
  {
    forall k | 0 <= k < |names|
      ensures a.fields[k].typ == b.fields[k].typ
      ensures var t := a.fields[k].typ; t == BOOL || t == UINT8 || t == UINT32 || t == INT32 || t == DOUBLE
    {
      var p, q := FindName(tables.inputs, names[k]), FindName(tables.outputs, names[k]);
      assert tables.inputs[p].name == names[k] == tables.outputs[q].name;
    }
  }

  lemma AllFit(l: Layout, bytes: nat, cells: nat)
    requires Tiled(l) && AllStorable(l.fields) && l.bytes <= bytes
    requires forall k | 0 <= k < |l.fields| :: l.fields[k].storage < cells
    ensures Fits(l.fields, bytes, cells)
  {
    forall k | 0 <= k < |l.fields|
      ensures Known(l.fields[k].typ) && End(l.fields[k]) <= bytes && InMemory(l.fields[k], cells)
    {
      FieldInside(l.fields, l.base, l.bytes, k);
    }
  }

  lemma OneCellEach(l: Layout, cells: seq<nat>)
    requires |cells| == |l.fields| && AllStorable(l.fields)
    requires forall k | 0 <= k < |cells| :: l.fields[k].storage == cells[k]
    requires forall j, k | 0 <= j < k < |cells| :: cells[j] != cells[k]
    ensures DistinctStorage(l.fields)
  {
    forall i, j | 0 <= i < j < |l.fields|
      ensures Apart(l.fields[i], l.fields[j])
    {
      StorableIsOne(l.fields[i].typ);
      StorableIsOne(l.fields[j].typ);
      assert cells[i] != cells[j];
    }
  }

  lemma BuiltFit(a: Layout, b: Layout, bytes: nat, cells: nat, cells': nat)
    requires Tiled(a) && Tiled(b) && SameShape(a, b) && AllStorable(a.fields) && a.bytes <= bytes
    requires forall k | 0 <= k < |a.fields| :: a.fields[k].storage < cells && b.fields[k].storage < cells'
    ensures Fits(a.fields, bytes, cells) && Fits(b.fields, bytes, cells')
  {
    SameOffsets(a.fields, b.fields, a.base, a.bytes, b.bytes);
    AllFit(a, bytes, cells);
    AllFit(b, bytes, cells');
  }

  lemma BuiltReadBack(tables: Tables, a: Layout, b: Layout, names: seq<string>, cells: seq<nat>, cells': seq<nat>,
                      data: seq<Byte>, mem: seq<nat>, mem': seq<nat>, i: nat)
    requires Agree(tables) && i < |names|
    requires Tiled(a) && BuiltFrom(a, tables.inputs, names, cells) && a.base == 0 && a.bytes <= |data|
    requires Tiled(b) && BuiltFrom(b, tables.outputs, names, cells') && b.base == 0
    requires forall k | 0 <= k < |names| :: cells[k] < |mem| && cells'[k] < |mem'|
    requires forall j, k | 0 <= j < k < |cells'| :: cells'[j] != cells'[k]
    ensures Fits(a.fields, |data|, |mem|) && Fits(b.fields, |data|, |mem'|)
    ensures ParseAll(mem', b.fields, StoreAll(data, a.fields, mem))[cells'[i]]
         == Carried(a.fields[i].typ, mem[cells[i]])
  {
    BuiltAlike(tables, a, b, names, cells, cells');
    OneCellEach(b, cells');
    BuiltFit(a, b, |data|, |mem|, |mem'|);
    ReadBack(a, b, data, mem, mem', i);
  }

  /** A recipe of any length over names both tables list: what the input recipe stores, an output
      recipe of the same names reads back. */
  lemma NamesReadBack(tables: Tables, names: seq<string>, cells: seq<nat>, cells': seq<nat>,
                      data: seq<Byte>, mem: seq<nat>, mem': seq<nat>, i: nat)
    requires Agree(tables) && |names| == |cells| == |cells'| && i < |names|
    requires Listed(tables.inputs, names) && Listed(tables.outputs, names)
    requires forall k | 0 <= k < |cells| :: cells[k] < |mem| && cells'[k] < |mem'|
    requires forall j, k | 0 <= j < k < |cells'| :: cells'[j] != cells'[k]
    requires Build(tables, false, names, cells).bytes <= |data|
    ensures var a, b := Build(tables, false, names, cells), Build(tables, true, names, cells');
            && |a.fields| == |b.fields| == |names|
            && Fits(a.fields, |data|, |mem|) && Fits(b.fields, |data|, |mem'|)
            && ParseAll(mem', b.fields, StoreAll(data, a.fields, mem))[cells'[i]]
               == Carried(a.fields[i].typ, mem[cells[i]])
  {
    BuildFields(tables, false, names, cells);
    BuildFields(tables, true, names, cells');
    BuiltReadBack(tables, Build(tables, false, names, cells), Build(tables, true, names, cells'),
                  names, cells, cells', data, mem, mem', i);
  }
}
