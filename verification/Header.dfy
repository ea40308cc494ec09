/** RTDE packages: set-up requests, the validation of their replies, and data package headers. */
module Header {
  import opened Endian
  import opened Text
  import opened Magic

  const FRAME: nat := 2048

  const SETUP_OUTPUTS: Byte := 79
  const SETUP_INPUTS: Byte := 73
  const DATA_PACKAGE: Byte := 85

  const HEADER_SIZE: nat := 3
  const SETUP_OUT_SIZE: nat := 11  // header and an 8-byte update_freq
  const RESP_SIZE: nat := 4        // header and recipe_id
  const DATA_SIZE: nat := 4        // header and recipe_id

  /** The package types are ASCII letters; the sizes are those of the packed structs. */
  lemma PackageNumbers()
    ensures SETUP_OUTPUTS == 'O' as int && SETUP_INPUTS == 'I' as int && DATA_PACKAGE == 'U' as int
    ensures HEADER_SIZE == 2 + 1 && SETUP_OUT_SIZE == 2 + 1 + 8 && RESP_SIZE == DATA_SIZE == 2 + 1 + 1
    ensures FRAME == 2048
  {
  }

  function SizeField(frame: seq<Byte>): nat
    requires |frame| >= 2
  {
    FromNet(frame[..2])
  }

  lemma TwoByteSize(hi: Byte, lo: Byte)
    ensures FromNet([hi, lo]) == 256 * hi + lo
    ensures NetBytes(2, 256 * hi + lo) == [hi, lo]
  {
    assert [hi, lo][..1] == [hi] && [hi][..0] == [];
    assert FromNet([hi]) == 256 * FromNet([]) + hi;
    assert (256 * hi + lo) / 256 == hi;
    assert NetBytes(1, hi) == NetBytes(0, hi / 256) + [hi % 256];
  }

  // ----- Set-up requests -----

  /** What a request frame holds: its size, type, a cleared update_freq if it has one, and the
      NUL-terminated field list. */
  ghost predicate IsRequest(frame: seq<Byte>, head: nat, ptype: Byte, payload: string)
    requires head >= HEADER_SIZE
  {
    && head + |payload| < |frame|
    && SizeField(frame) == head + |payload|
    && frame[2] == ptype
    && (forall i | HEADER_SIZE <= i < head :: frame[i] == 0)
    && (forall i | 0 <= i < |payload| :: frame[head + i] as char == payload[i])
    && frame[head + |payload|] == 0
  }

  /** rtde_control_msg_in (head 3) and rtde_control_msg_out (head 11).  The guard lets a list
      through that fills the frame to the last byte, whose terminator would land past the end. */
  method ControlMsg(frame: array<Byte>, head: nat, ptype: Byte, payload: string) returns (ok: bool)
    requires frame.Length == FRAME && (head == HEADER_SIZE || head == SETUP_OUT_SIZE)
    requires forall i | 0 <= i < |payload| :: payload[i] as int < 256
    requires head + |payload| != FRAME
    modifies frame
    ensures ok <==> head + |payload| < FRAME
    ensures ok ==> IsRequest(frame[..], head, ptype, payload)
    ensures ok ==> forall i | head + |payload| < i < FRAME :: frame[i] == old(frame[i])
    ensures !ok ==> frame[..] == old(frame[..])
  {
    if |payload| > FRAME - head {
      return false;
    }
    ClearMsg(frame, head, ptype);
    for i := 0 to |payload|
      invariant frame[..head] == HeadOf(head, ptype)
      invariant forall k | 0 <= k < i :: frame[head + k] as char == payload[k]
      invariant forall k | head + |payload| < k < FRAME :: frame[k] == old(frame[k])
    {
      frame[head + i] := payload[i] as int as Byte;
    }
    frame[head + |payload|] := 0;
    SetSize(frame, head + |payload|);
    return true;
  }

  function HeadOf(head: nat, ptype: Byte): (h: seq<Byte>)
    requires head >= HEADER_SIZE
    ensures |h| == head
  {
    NetBytes(2, head) + [ptype] + Zeros(head - HEADER_SIZE)
  }

  function Zeros(n: nat): (z: seq<Byte>)
    ensures |z| == n && forall i | 0 <= i < n :: z[i] == 0
  {
    seq(n, _ => 0)
  }

  /** rtde_control_msg_clear */
  method ClearMsg(frame: array<Byte>, head: nat, ptype: Byte)
    requires frame.Length == FRAME && (head == HEADER_SIZE || head == SETUP_OUT_SIZE)
    modifies frame
    ensures frame[..head] == HeadOf(head, ptype)
    ensures frame[head] == 0
    ensures forall i | head < i < FRAME :: frame[i] == old(frame[i])
  {
    SetSize(frame, head);
    frame[2] := ptype;
    for i := HEADER_SIZE to head
      invariant frame[..2] == NetBytes(2, head) && frame[2] == ptype
      invariant forall k | HEADER_SIZE <= k < i :: frame[k] == 0
      invariant forall k | head < k < FRAME :: frame[k] == old(frame[k])
    {
      frame[i] := 0;
    }
    frame[head] := 0;
    assert frame[..head] == frame[..2] + [frame[2]] + frame[HEADER_SIZE..head];
  }

  /** hdr.size = htons(n) */
  method SetSize(frame: array<Byte>, n: nat)
    requires frame.Length >= 2
    modifies frame
    ensures frame[..2] == NetBytes(2, n)
    ensures n < 65536 ==> SizeField(frame[..]) == n
    ensures forall i | 2 <= i < frame.Length :: frame[i] == old(frame[i])
  {
    var image := HostBytes(2, Swap(2, n));
    SwappedImageIsNet(2, n);
    frame[0] := image[0];
    frame[1] := image[1];
    assert frame[..2] == image;
    NetRoundTrip(2, n);
    assert frame[..][..2] == frame[..2];
    assert Pow256(2) == 65536 by { assert Pow256(1) == 256; }
  }

  /** Printing a request is invertible: cutting the list at its commas gives the field names back,
      and the size field is the head, the names and one comma between neighbours. */
  lemma RequestRoundTrip(frame: seq<Byte>, head: nat, ptype: Byte, names: seq<string>)
    requires head >= HEADER_SIZE && names != [] && forall i | 0 <= i < |names| :: FieldName(names[i])
    requires IsRequest(frame, head, ptype, Join(names))
    ensures Split(Join(names)) == names
    ensures SizeField(frame) == head + TotalLength(names) + |names| - 1
  {
    assert Items(names) && names[|names| - 1] != "";
    SplitJoin(names);
    JoinLength(names);
  }

  // ----- Set-up replies -----

  /** A reply as it lies in the receive buffer: everything after the recipe id is `payload`. */
  datatype Resp = Resp(size: nat, ptype: Byte, recipeId: Byte, payload: string)

  ghost predicate InBuffer(r: Resp) {
    |r.payload| == FRAME - RESP_SIZE
  }

  function DecodeResp(buffer: seq<Byte>): (r: Resp)
    requires |buffer| == FRAME
    ensures InBuffer(r)
  {
    Resp(SizeField(buffer), buffer[2], buffer[3],
         seq(FRAME - RESP_SIZE, i requires 0 <= i < FRAME - RESP_SIZE => buffer[RESP_SIZE + i] as char))
  }

  /** basic_hdr_validate for either reply type */
  predicate HeaderOk(r: Resp) {
    HEADER_SIZE <= r.size <= 2000 && (r.ptype == SETUP_OUTPUTS || r.ptype == SETUP_INPUTS)
  }

  /** The scanner's answer from a position on.  It looks at the character after the current one to
      see the end, and steps over one character after each token. */
  function Scan(payload: string, start: nat, ptr: nat, end: int): bool
    requires end < |payload| && start <= ptr
    decreases end - ptr
  {
    if ptr >= end then true
    else if payload[ptr] == ',' || payload[ptr + 1] == NUL then
      Typed(payload[start..ptr]) && Scan(payload, ptr + 1, ptr + 2, end)
    else Scan(payload, start, ptr + 1, end)
  }

  predicate Validates(r: Resp)
    requires InBuffer(r)
  {
    HeaderOk(r) && Scan(r.payload, 0, 0, r.size - RESP_SIZE)
  }

  /** rtde_control_package_resp_validate: the pointer-moving loop. */
  method RespValidate(r: Resp) returns (ok: bool)
    requires InBuffer(r)
    ensures ok == Validates(r)
  {
    if !HeaderOk(r) {
      return false;
    }
    var start, ptr := 0, 0;
    var end := r.size - RESP_SIZE;
    while ptr < end
      invariant 0 <= start <= ptr
      invariant Scan(r.payload, 0, 0, end) == Scan(r.payload, start, ptr, end)
      decreases end - ptr
    {
      if r.payload[ptr] == ',' || r.payload[ptr + 1] == NUL {
        var typ := NameToType(r.payload[start..ptr]);
        if typ == NOT_FOUND || typ == IN_USE {
          return false;
        }
        ptr := ptr + 1;
        start := ptr;
      }
      ptr := ptr + 1;
    }
    return true;
  }

  /** The list as a reply carries it: at position `at` of the payload, up to `end`, then NUL. */
  ghost predicate Carries(payload: string, at: nat, end: nat, items: seq<string>) {
    && at + |Join(items)| == end < |payload|
    && payload[at..end] == Join(items) && payload[end] == NUL
  }

  /** Items the scanner cannot lose: no separators inside, and long enough to survive its skips. */
  ghost predicate Scannable(items: seq<string>) {
    items != [] && forall i | 0 <= i < |items| :: |items[i]| >= 2 && NoNul(items[i]) && ',' !in items[i]
  }

  /** What the scanner tests of a list: every item but the last, and the last without its last letter. */
  ghost predicate ScanTest(items: seq<string>)
    requires Scannable(items)
  {
    var last := items[|items| - 1];
    && (forall i | 0 <= i < |items| - 1 :: Typed(items[i]))
    && Typed(last[..|last| - 1])
  }

  /** The scanner does not stop at this position. */
  predicate Quiet(payload: string, k: nat)
    requires k + 1 < |payload|
  {
    payload[k] != ',' && payload[k + 1] != NUL
  }

  /** Moving along inside an item changes nothing. */
  lemma {:induction false} ScanAlong(payload: string, start: nat, ptr: nat, to: nat, end: nat)
    requires end < |payload| && start <= ptr <= to <= end
    requires forall k | ptr <= k < to :: Quiet(payload, k)
    ensures Scan(payload, start, ptr, end) == Scan(payload, start, to, end)
    decreases |payload| - ptr
  {
    if ptr < to {
      assert Quiet(payload, ptr);
      ScanAlong(payload, start, ptr + 1, to, end);
    }
  }

  lemma ScanLast(payload: string, at: nat, ptr: nat, end: nat, item: string)
    requires Carries(payload, at, end, [item]) && Scannable([item]) && (ptr == at || ptr == at + 1)
    ensures Scan(payload, at, ptr, end) == Typed(item[..|item| - 1])
  {
    assert [item][0] == item;
    assert forall k | 0 <= k < |item| :: payload[at + k] == payload[at..end][k] == item[k];
    var to := end - 1;
    forall k | ptr <= k < to
      ensures Quiet(payload, k)
    {
      assert payload[k] == item[k - at] && payload[k + 1] == item[k + 1 - at];
    }
    ScanAlong(payload, at, ptr, to, end);
    assert payload[at..to] == item[..|item| - 1];
  }

  lemma ScanTestSplits(items: seq<string>)
    requires Scannable(items) && |items| > 1
    ensures Scannable(items[1..]) && (ScanTest(items) <==> Typed(items[0]) && ScanTest(items[1..]))
  {
    var rest := items[1..];
    assert forall i | 0 <= i < |rest| :: rest[i] == items[i + 1];
    assert forall i | 1 <= i < |items| :: items[i] == rest[i - 1];
  }

  /** The list after its first item lies after the first comma. */
  lemma CarriesRest(payload: string, at: nat, end: nat, items: seq<string>)
    requires Carries(payload, at, end, items) && |items| > 1
    ensures var to := at + |items[0]|;
            && to < end && payload[at..to] == items[0] && payload[to] == ','
            && Carries(payload, to + 1, end, items[1..])
  {
    var item, rest, joined := items[0], items[1..], Join(items);
    var to := at + |item|;
    assert joined == item + "," + Join(rest);
    assert payload[at..to] == payload[at..end][..|item|] && joined[..|item|] == item;
    assert payload[to] == payload[at..end][|item|] == joined[|item|];
    assert payload[to + 1..end] == payload[at..end][|item| + 1..];
  }

  /** The scanner walks over an item to its comma, tests it, and skips one character. */
  lemma ScanItem(payload: string, at: nat, ptr: nat, to: nat, end: nat, item: string)
    requires to == at + |item| < end < |payload| && payload[at..to] == item && payload[to] == ','
    requires Scannable([item]) && (ptr == at || ptr == at + 1)
    ensures Scan(payload, at, ptr, end) == (Typed(item) && Scan(payload, to + 1, to + 2, end))
  {
    assert [item][0] == item;
    assert forall k | at <= k < to :: payload[k] == payload[at..to][k - at] == item[k - at];
    forall k | ptr <= k < to
      ensures Quiet(payload, k)
    {
      assert payload[k] == item[k - at];
      assert k + 1 < to ==> payload[k + 1] == item[k + 1 - at];
    }
    ScanAlong(payload, at, ptr, to, end);
  }

  lemma {:induction false} ScanList(payload: string, at: nat, ptr: nat, end: nat, items: seq<string>)
    requires Scannable(items) && Carries(payload, at, end, items) && (ptr == at || ptr == at + 1)
    ensures Scan(payload, at, ptr, end) == ScanTest(items)
    decreases |items|
  {
    if |items| == 1 {
      assert items == [items[0]];
      ScanLast(payload, at, ptr, end, items[0]);
    } else {
      var to := at + |items[0]|;
      CarriesRest(payload, at, end, items);
      ScanItem(payload, at, ptr, to, end, items[0]);
      ScanTestSplits(items);
      ScanList(payload, to + 1, to + 2, end, items[1..]);
    }
  }

  /** What the scanner makes of an empty item: the comma that ends it is the character it steps over,
      so the next item is seen with that comma in front, which no type name has. */
  lemma CommaIsUntyped(name: string)
    requires name != "" && name[0] == ',' && NoNul(name)
    ensures !Typed(name)
  {
    NameToTypeIsFirstPrefix(name);
    forall i | 0 <= i < |TYPE_NAMES|
      ensures !(name <= TYPE_NAMES[i].0)
    {
      assert TYPE_NAMES[i].0[0] != ',';
    }
  }

  /** The list has an empty item, other than the first, before item b. */
  lemma EmptyItemRefused(payload: string, at: nat, end: nat, b: string)
    requires Scannable([b]) && end < |payload| && at + 1 + |b| <= end
    requires payload[at] == ',' && payload[at + 1..at + 1 + |b|] == b
    requires payload[at + 1 + |b|] == if at + 1 + |b| == end then NUL else ','
    ensures !Scan(payload, at, at + 1, end)
  {
    var from, to := at + 1, at + 1 + |b|;
    assert [b][0] == b;
    assert forall k | from <= k < to :: payload[k] == payload[from..to][k - from] == b[k - from];
    var stop := if to == end then to - 1 else to;
    forall k | from <= k < stop
      ensures Quiet(payload, k)
    {
      assert payload[k] == b[k - from];
      assert k + 1 < to ==> payload[k + 1] == b[k + 1 - from];
    }
    ScanAlong(payload, at, from, stop, end);
    CommaIsUntyped(payload[at..stop]);
  }

  lemma AllTyped(items: seq<string>)
    requires items != []
    ensures (forall i | 0 <= i < |items| :: Typed(items[i]))
       <==> Typed(items[0]) && forall i | 0 <= i < |items[1..]| :: Typed(items[1..][i])
  {
    assert forall i | 0 <= i < |items[1..]| :: items[1..][i] == items[i + 1];
    assert forall i | 1 <= i < |items| :: items[i] == items[1..][i - 1];
  }

  /** An item, a comma and more, one after another. */
  lemma Pieces(payload: string, at: nat, item: string, more: string)
    requires at + |item| + 1 + |more| <= |payload|
    requires payload[at..at + |item| + 1 + |more|] == item + "," + more
    ensures var to := at + |item|;
            payload[at..to] == item && payload[to] == ',' && payload[to + 1..to + 1 + |more|] == more
  {
    var whole := item + "," + more;
    var part := payload[at..at + |whole|];
    assert whole[..|item|] == item && whole[|item|] == ',' && whole[|item| + 1..] == more;
    assert payload[at..at + |item|] == part[..|item|];
    assert payload[at + |item|] == part[|item|];
    assert payload[at + |item| + 1..at + |item| + 1 + |more|] == part[|item| + 1..];
  }

  /** The scanner walks through a list that another comma follows. */
  lemma {:induction false} ScanThrough(payload: string, at: nat, ptr: nat, end: nat, items: seq<string>)
    requires Scannable(items) && (ptr == at || ptr == at + 1)
    requires var to := at + |Join(items)|; to < end < |payload| && payload[at..to] == Join(items) && payload[to] == ','
    ensures var to := at + |Join(items)|;
            Scan(payload, at, ptr, end) == ((forall i | 0 <= i < |items| :: Typed(items[i])) && Scan(payload, to + 1, to + 2, end))
    decreases |items|
  {
    var item, to := items[0], at + |items[0]|;
    AllTyped(items);
    if |items| == 1 {
      ScanItem(payload, at, ptr, to, end, item);
    } else {
      ScanTestSplits(items);
      Pieces(payload, at, item, Join(items[1..]));
      ScanItem(payload, at, ptr, to, end, item);
      ScanThrough(payload, to + 1, to + 2, end, items[1..]);
    }
  }

  /** Nothing between two commas is refused, though an empty name would resolve to BOOL. */
  lemma EmptyItemIsRefused(r: Resp, items: seq<string>, b: string, end: nat)
    requires InBuffer(r) && HeaderOk(r) && r.size == RESP_SIZE + end && end < |r.payload|
    requires Scannable(items) && Scannable([b])
    requires var at := |Join(items)|;
             && at + 2 + |b| <= end && r.payload[..at] == Join(items) && r.payload[at] == r.payload[at + 1] == ','
             && r.payload[at + 2..at + 2 + |b|] == b
             && r.payload[at + 2 + |b|] == (if at + 2 + |b| == end then NUL else ',')
    ensures !Validates(r)
  {
    assert r.payload[0..|Join(items)|] == r.payload[..|Join(items)|];
    ScanThrough(r.payload, 0, 0, end, items);
    EmptyItemRefused(r.payload, |Join(items)| + 1, end, b);
  }

  /** A well-formed reply to a request: the list, its length in the header, NUL after it. */
  ghost predicate RepliesWith(r: Resp, items: seq<string>) {
    && InBuffer(r) && HeaderOk(r) && items != []
    && r.size == RESP_SIZE + |Join(items)| && Carries(r.payload, 0, |Join(items)|, items)
  }

  /** Despite its double step and its shortened last item, the scanner's verdict on a reply is
      exactly a test of its items, one by one. */
  lemma ScannerTestsItems(r: Resp, items: seq<string>)
    requires Scannable(items) && RepliesWith(r, items)
    ensures Validates(r) <==> ScanTest(items)
  {
    ScanList(r.payload, 0, 0, |Join(items)|, items);
  }

  // ----- Data packages -----

  /** rtde_data_package_init */
  method DataPackageInit(dp: array<Byte>, recipeId: int, bytes: nat)
    requires dp.Length >= DATA_SIZE && DATA_SIZE + bytes < 65536
    modifies dp
    ensures SizeField(dp[..]) == DATA_SIZE + bytes && dp[2] == DATA_PACKAGE && dp[3] == recipeId % 256
    ensures forall i | DATA_SIZE <= i < dp.Length :: dp[i] == old(dp[i])
  {
    dp[2] := DATA_PACKAGE;
    SetSize(dp, DATA_SIZE + bytes);
    dp[3] := recipeId % 256;
    assert dp[..][..2] == dp[..2];
    NetRoundTrip(2, DATA_SIZE + bytes);
    assert Pow256(2) == 65536 by { assert Pow256(1) == 256; }
  }

  /** rtde_parse_data_package */
  predicate IsDataPackage(frame: seq<Byte>)
    requires |frame| >= DATA_SIZE
  {
    frame[3] != 0 && frame[2] == DATA_PACKAGE && SizeField(frame) >= DATA_SIZE
  }
}
