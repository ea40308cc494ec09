/** When a reply registers a recipe.  Two parsers read the reply, the scanner and the splitter, and
    a recipe is registered only if both like it. */
module Negotiation {
  import opened Text
  import opened Magic
  import opened Header
  import opened Layout

  /** The payload as a C string: up to its first NUL. */
  function CString(payload: string): (s: string)
    ensures s <= payload && NUL !in s
    ensures |s| < |payload| ==> payload[|s|] == NUL
  {
    if payload == "" || payload[0] == NUL then "" else [payload[0]] + CString(payload[1..])
  }

  /** set_response_type on every field, in order. */
  predicate TypesMatch(fields: seq<Token>, items: seq<string>)
  {
    |items| == |fields| && forall i | 0 <= i < |fields| :: NameToType(Trim(items[i])) == fields[i].typ
  }

  /** What register_response accepts. */
  predicate Registers(fields: seq<Token>, r: Resp)
    requires InBuffer(r)
  {
    Validates(r) && TypesMatch(fields, Split(CString(r.payload)))
  }

  lemma {:induction false} CStringOf(payload: string, s: string)
    requires |s| < |payload| && payload[..|s|] == s && payload[|s|] == NUL && NoNul(s)
    ensures CString(payload) == s
  {
    if s != "" {
      assert payload[0] == s[0];
      assert payload[1..][..|s| - 1] == s[1..];
      CStringOf(payload[1..], s[1..]);
    }
  }

  // ----- Replies made of the vocabulary's words -----

  function Words(types: seq<DataType>): (w: seq<string>)
    ensures |w| == |types| && forall i | 0 <= i < |w| :: w[i] == TypeName(types[i])
  {
    seq(|types|, i requires 0 <= i < |types| => TypeName(types[i]))
  }

  lemma WordsArePlain(types: seq<DataType>)
    ensures forall i | 0 <= i < |types| :: PlainName(Words(types)[i])
  {
    forall i | 0 <= i < |types|
      ensures PlainName(Words(types)[i])
    {
      WordResolves(TypeName(types[i]), types[i], 0);
    }
  }

  lemma {:induction false} JoinHasNoNul(items: seq<string>)
    requires forall i | 0 <= i < |items| :: NoNul(items[i])
    ensures NoNul(Join(items))
  {
    if |items| > 1 {
      JoinHasNoNul(items[1..]);
    }
  }

  ghost predicate Refusal(t: DataType) {
    t == NOT_FOUND || t == IN_USE
  }

  lemma RefusalIsUntyped(t: DataType, cut: nat)
    requires cut <= 1
    ensures |TypeName(t)| >= 2 && (Typed(TypeName(t)[..|TypeName(t)| - cut]) <==> !Refusal(t))
  {
    WordResolves(TypeName(t)[..|TypeName(t)| - cut], t, cut);
  }

  lemma WordTyped(types: seq<DataType>, i: nat)
    requires i < |types|
    ensures Typed(Words(types)[i]) <==> !Refusal(types[i])
    ensures |Words(types)[i]| >= 2 && (Typed(Words(types)[i][..|Words(types)[i]| - 1]) <==> !Refusal(types[i]))
  {
    var name := TypeName(types[i]);
    RefusalIsUntyped(types[i], 0);
    RefusalIsUntyped(types[i], 1);
    assert name[..|name|] == name;
  }

  lemma AllOrLast(ok: seq<bool>)
    requires ok != []
    ensures (forall i | 0 <= i < |ok| :: ok[i]) <==> (forall i | 0 <= i < |ok| - 1 :: ok[i]) && ok[|ok| - 1]
  {
  }

  function Granted(types: seq<DataType>): (ok: seq<bool>)
    ensures |ok| == |types| && forall i | 0 <= i < |ok| :: ok[i] <==> types[i] != NOT_FOUND && types[i] != IN_USE
  {
    seq(|types|, i requires 0 <= i < |types| => types[i] != NOT_FOUND && types[i] != IN_USE)
  }

  lemma WordsTyped(types: seq<DataType>)
    ensures forall i | 0 <= i < |types| :: Typed(Words(types)[i]) <==> Granted(types)[i]
  {
    forall i | 0 <= i < |types|
      ensures Typed(Words(types)[i]) <==> Granted(types)[i]
    {
      WordTyped(types, i);
    }
  }

  /** The last word, as far as the scanner sees it. */
  function LastSeen(words: seq<string>): string
    requires words != [] && |words[|words| - 1]| >= 2
  {
    var last := words[|words| - 1];
    last[..|last| - 1]
  }

  lemma LastWordTyped(types: seq<DataType>)
    requires types != [] && |Words(types)[|types| - 1]| >= 2
    ensures Typed(LastSeen(Words(types))) <==> Granted(types)[|types| - 1]
  {
    WordTyped(types, |types| - 1);
  }

  lemma ScanTestIs(items: seq<string>, ok: seq<bool>)
    requires Scannable(items) && |ok| == |items|
    requires forall i | 0 <= i < |items| :: Typed(items[i]) <==> ok[i]
    requires Typed(LastSeen(items)) <==> ok[|ok| - 1]
    ensures ScanTest(items) <==> forall i | 0 <= i < |ok| :: ok[i]
  {
    AllOrLast(ok);
  }

  lemma WordsScanTest(types: seq<DataType>)
    requires types != [] && Scannable(Words(types))
    ensures ScanTest(Words(types)) <==> forall i | 0 <= i < |types| :: !Refusal(types[i])
  {
    WordsTyped(types);
    LastWordTyped(types);
    ScanTestIs(Words(types), Granted(types));
    assert forall i | 0 <= i < |types| :: Granted(types)[i] <==> !Refusal(types[i]);
  }

  /** The scanner accepts a reply of type names exactly when none of them is a refusal. */
  lemma ScannerFindsRefusals(r: Resp, types: seq<DataType>)
    requires types != [] && RepliesWith(r, Words(types))
    ensures Validates(r) <==> forall i | 0 <= i < |types| :: !Refusal(types[i])
  {
    WordsArePlain(types);
    ScannerTestsItems(r, Words(types));
    WordsScanTest(types);
  }

  lemma HeadAndWordsScan(head: string, types: seq<DataType>)
    requires |head| >= 2 && NoNul(head) && ',' !in head
    ensures Scannable([head] + Words(types))
  {
    WordsArePlain(types);
    var items := [head] + Words(types);
    forall i | 0 <= i < |items|
      ensures |items[i]| >= 2 && NoNul(items[i]) && ',' !in items[i]
    {
      assert i > 0 ==> items[i] == Words(types)[i - 1];
    }
  }

  /** ... also when the controller sent no recipe id, so that a leading refusal lost its first
      letter to it. */
  lemma ScannerFindsBeheadedRefusal(r: Resp, first: DataType, types: seq<DataType>)
    requires Refusal(first) && RepliesWith(r, [TypeName(first)[1..]] + Words(types))
    ensures !Validates(r)
  {
    WordsArePlain(types);
    var head := TypeName(first)[1..];
    var items := [head] + Words(types);
    BeheadedResolves(head, first, 0);
    HeadAndWordsScan(head, types);
    ScannerTestsItems(r, items);
    if types == [] {
      BeheadedResolves(head[..|head| - 1], first, 1);
    } else {
      assert items[0] == head;
    }
  }

  /** The second parser gets the items back whole. */
  lemma SplitterGetsNulFree(r: Resp, items: seq<string>)
    requires RepliesWith(r, items) && Scannable(items)
    ensures Split(CString(r.payload)) == items
  {
    var joined := Join(items);
    JoinHasNoNul(items);
    assert r.payload[..|joined|] == r.payload[0..|joined|];
    CStringOf(r.payload, joined);
    SplitJoin(items);
  }

  lemma SplitterGetsItems(r: Resp, items: seq<string>)
    requires RepliesWith(r, items) && forall i | 0 <= i < |items| :: PlainName(items[i])
    ensures Split(CString(r.payload)) == items
  {
    SplitterGetsNulFree(r, items);
  }

  lemma TrimsToItself(s: string)
    requires PlainName(s)
    ensures Trim(s) == s
  {
    TrimStrips("", "", s, "", "");
    assert "" + "" + s + "" + "" == s;
  }

  lemma WordsMatch(fields: seq<Token>, types: seq<DataType>)
    ensures TypesMatch(fields, Words(types)) <==>
              |types| == |fields| && forall i | 0 <= i < |types| :: types[i] == fields[i].typ
  {
    forall i | 0 <= i < |types|
      ensures NameToType(Trim(Words(types)[i])) == types[i]
    {
      WordResolves(Words(types)[i], types[i], 0);
      TrimsToItself(Words(types)[i]);
    }
  }

  /** A reply of type names registers a recipe of existing fields exactly when it names the fields'
      own types, all of them, in order.  Anything else, refusals included, is turned down. */
  lemma RegistersExactlyOwnTypes(fields: seq<Token>, r: Resp, types: seq<DataType>)
    requires forall i | 0 <= i < |fields| :: Known(fields[i].typ)
    requires types != [] && RepliesWith(r, Words(types))
    ensures Registers(fields, r) <==>
              |types| == |fields| && forall i | 0 <= i < |types| :: types[i] == fields[i].typ
  {
    WordsArePlain(types);
    SplitterGetsItems(r, Words(types));
    ScannerFindsRefusals(r, types);
    WordsMatch(fields, types);
  }

  /** The list with an ETX character after its last item. */
  function WithEtx(items: seq<string>): seq<string>
    requires items != []
  {
    items[..|items| - 1] + [items[|items| - 1] + [ETX]]
  }

  lemma EtxIsTrimmed(word: string)
    requires PlainName(word)
    ensures Trim(word + [ETX]) == word == Trim(word)
  {
    TrimsToItself(word);
    TrimStrips("", "", word, [ETX], "");
    assert "" + "" + word + [ETX] + "" == word + [ETX];
  }

  lemma ScanTestWithEtx(items: seq<string>)
    requires items != [] && forall i | 0 <= i < |items| :: PlainName(items[i]) && Typed(items[i])
    ensures Scannable(WithEtx(items)) && ScanTest(WithEtx(items))
  {
    var n, etx := |items| - 1, WithEtx(items);
    assert forall i | 0 <= i < n :: etx[i] == items[i];
    assert etx[n][..|etx[n]| - 1] == items[n];
  }

  /** A controller that ends its list with ETX is understood too: the scanner's lost last character
      is then the ETX, and trim removes it for the second parser. */
  lemma EtxReplyRegisters(fields: seq<Token>, r: Resp, items: seq<string>)
    requires items != [] && forall i | 0 <= i < |items| :: PlainName(items[i]) && Typed(items[i])
    requires RepliesWith(r, WithEtx(items))
    ensures Registers(fields, r) <==> TypesMatch(fields, items)
  {
    var n, etx := |items| - 1, WithEtx(items);
    ScanTestWithEtx(items);
    ScannerTestsItems(r, etx);
    SplitterGetsNulFree(r, etx);
    EtxIsTrimmed(items[n]);
    forall i | 0 <= i < |items|
      ensures Trim(etx[i]) == Trim(items[i])
    {
      assert i < n ==> etx[i] == items[i];
    }
  }

  /** Whatever was in the buffer, a registered recipe's items resolve to its fields' types, in order. */
  lemma RegisteredItemsResolve(fields: seq<Token>, r: Resp, i: nat)
    requires InBuffer(r) && Registers(fields, r) && i < |fields|
    ensures var items := Split(CString(r.payload));
            && |items| == |fields|
            && forall k: nat | FirstPrefix(Trim(items[i]), TYPE_NAMES, k) :: TYPE_NAMES[k].1 == fields[i].typ
  {
    var items := Split(CString(r.payload));
    SplitHasNoNul(CString(r.payload), i);
    TrimHasNoNul(items[i]);
    NameToTypeIsFirstPrefix(Trim(items[i]));
  }

  lemma {:induction false} SplitHasNoNul(s: string, i: nat)
    requires NoNul(s) && i < |Split(s)|
    ensures NoNul(Split(s)[i])
    decreases |s|
  {
    var c := CommaFrom(s, 0);
    if c < |s| && i > 0 {
      SplitHasNoNul(s[c + 1..], i - 1);
    }
  }

  lemma {:induction false} DropEndHasNoNul(s: string, p: char -> bool)
    requires NoNul(s)
    ensures NoNul(DropEnd(s, p))
  {
    if s != "" && p(s[|s| - 1]) {
      DropEndHasNoNul(s[..|s| - 1], p);
    }
  }

  lemma {:induction false} DropStartHasNoNul(s: string, p: char -> bool)
    requires NoNul(s)
    ensures NoNul(DropStart(s, p))
  {
    if s != "" && p(s[0]) {
      DropStartHasNoNul(s[1..], p);
    }
  }

  lemma TrimHasNoNul(s: string)
    requires NoNul(s)
    ensures NoNul(Trim(s))
  {
    DropEndHasNoNul(s, IsBlank);
    DropEndHasNoNul(DropEnd(s, IsBlank), IsEtx);
    DropStartHasNoNul(DropEnd(DropEnd(s, IsBlank), IsEtx), IsBlank);
    DropStartHasNoNul(DropStart(DropEnd(DropEnd(s, IsBlank), IsEtx), IsBlank), IsEtx);
  }
}
