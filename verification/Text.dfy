/** The text side of negotiation: comma-joined lists, std::getline and urx::trim. */
module Text {

  function Join(items: seq<string>): string {
    if items == [] then ""
    else if |items| == 1 then items[0]
    else items[0] + "," + Join(items[1..])
  }

  /** Position of the first comma at or after i, or the length. */
  function CommaFrom(s: string, i: nat): (c: nat)
    requires i <= |s|
    ensures i <= c <= |s| && ',' !in s[i..c] && (c < |s| ==> s[c] == ',')
    decreases |s| - i
  {
    if i == |s| || s[i] == ',' then i else CommaFrom(s, i + 1)
  }

  /** std::getline on ',' until the stream is exhausted: a trailing comma adds no empty item. */
  function Split(s: string): seq<string>
    decreases |s|
  {
    if s == "" then []
    else
      var c := CommaFrom(s, 0);
      if c == |s| then [s] else [s[..c]] + Split(s[c + 1..])
  }

  ghost predicate Items(items: seq<string>) {
    forall i | 0 <= i < |items| :: ',' !in items[i]
  }

  lemma CommaIsFirst(s: string, c: nat)
    requires c <= |s| && ',' !in s[..c] && (c < |s| ==> s[c] == ',')
    ensures CommaFrom(s, 0) == c
  {
    var d := CommaFrom(s, 0);
    assert forall i | 0 <= i < c :: s[i] == s[..c][i];
    assert forall i | 0 <= i < d :: s[i] == s[0..d][i];
  }

  lemma SplitOne(s: string)
    requires ',' !in s
    ensures Split(s) == if s == "" then [] else [s]
  {
    if s != "" {
      CommaIsFirst(s, |s|);
    }
  }

  lemma SplitFirst(item: string, rest: string)
    requires ',' !in item
    ensures Split(item + "," + rest) == [item] + Split(rest)
  {
    var s, c := item + "," + rest, |item|;
    assert s[..c] == item && s[c] == ',' && s[c + 1..] == rest;
    CommaIsFirst(s, c);
  }

  /** Splitting undoes joining exactly for lists whose last item is not empty. */
  lemma {:induction false} SplitJoin(items: seq<string>)
    requires items != [] && Items(items)
    ensures Split(Join(items)) == items <==> items[|items| - 1] != ""
  {
    if |items| == 1 {
      SplitOne(items[0]);
    } else {
      var rest := items[1..];
      SplitJoin(rest);
      SplitFirst(items[0], Join(rest));
      assert items == [items[0]] + rest;
      assert ([items[0]] + Split(Join(rest)))[1..] == Split(Join(rest));
    }
  }

  function TotalLength(items: seq<string>): nat {
    if items == [] then 0 else |items[0]| + TotalLength(items[1..])
  }

  lemma {:induction false} JoinLength(items: seq<string>)
    requires items != []
    ensures |Join(items)| == TotalLength(items) + |items| - 1
  {
    if |items| > 1 {
      JoinLength(items[1..]);
    } else {
      assert items[1..] == [];
    }
  }

  // ----- trim -----

  const ETX: char := 3 as char
  const NUL: char := 0 as char

  predicate IsBlank(c: char) {
    c == '\t' || c == '\n' || c == 11 as char || c == 12 as char || c == '\r' || c == ' '
  }

  predicate IsEtx(c: char) {
    c == ETX
  }

  function DropEnd(s: string, p: char -> bool): string {
    if s != "" && p(s[|s| - 1]) then DropEnd(s[..|s| - 1], p) else s
  }

  function DropStart(s: string, p: char -> bool): string {
    if s != "" && p(s[0]) then DropStart(s[1..], p) else s
  }

  /** The four erasures, in the order urx::trim makes them. */
  function Trim(s: string): string {
    DropStart(DropStart(DropEnd(DropEnd(s, IsBlank), IsEtx), IsBlank), IsEtx)
  }

  ghost predicate Only(s: string, p: char -> bool) {
    forall i | 0 <= i < |s| :: p(s[i])
  }

  lemma {:induction false} DropEndOf(core: string, tail: string, p: char -> bool)
    requires Only(tail, p) && (core != "" ==> !p(core[|core| - 1]))
    ensures DropEnd(core + tail, p) == core
  {
    var s := core + tail;
    if tail == "" {
      assert s == core;
    } else {
      assert s[..|s| - 1] == core + tail[..|tail| - 1];
      DropEndOf(core, tail[..|tail| - 1], p);
    }
  }

  lemma {:induction false} DropStartOf(head: string, core: string, p: char -> bool)
    requires Only(head, p) && (core != "" ==> !p(core[0]))
    ensures DropStart(head + core, p) == core
  {
    var s := head + core;
    if head == "" {
      assert s == core;
    } else {
      assert s[1..] == head[1..] + core;
      DropStartOf(head[1..], core, p);
    }
  }

  /** trim strips ETX inside blanks: blanks outermost, then ETX, then the text. */
  lemma TrimStrips(b1: string, e1: string, core: string, e2: string, b2: string)
    requires Only(b1, IsBlank) && Only(b2, IsBlank) && Only(e1, IsEtx) && Only(e2, IsEtx)
    requires core != "" && !IsBlank(core[0]) && !IsEtx(core[0])
    requires !IsBlank(core[|core| - 1]) && !IsEtx(core[|core| - 1])
    ensures Trim(b1 + e1 + core + e2 + b2) == core
  {
    var inner := b1 + e1 + core + e2;
    DropEndOf(inner, b2, IsBlank);
    DropEndOf(b1 + e1 + core, e2, IsEtx);
    assert b1 + e1 + core == b1 + (e1 + core);
    DropStartOf(b1, e1 + core, IsBlank);
    DropStartOf(e1, core, IsEtx);
  }

  /** The characters trim knows, by their codes: HT to CR and space, and end of text. */
  predicate White(c: char) {
    9 <= c as int <= 13 || c as int == 32
  }

  predicate EndOfText(c: char) {
    c as int == 3
  }

  lemma CodesOf(s: string)
    ensures Only(s, White) <==> Only(s, IsBlank)
    ensures Only(s, EndOfText) <==> Only(s, IsEtx)
  {
    assert forall i | 0 <= i < |s| :: (White(s[i]) <==> IsBlank(s[i])) && (EndOfText(s[i]) <==> IsEtx(s[i]));
  }

  ghost predicate BlanksThenEtxs(s: string) {
    exists k :: 0 <= k <= |s| && Only(s[..k], White) && Only(s[k..], EndOfText)
  }

  ghost predicate EtxsThenBlanks(s: string) {
    exists k :: 0 <= k <= |s| && Only(s[..k], EndOfText) && Only(s[k..], White)
  }

  lemma {:induction false} DropEndSplits(s: string, p: char -> bool) returns (tail: string)
    ensures s == DropEnd(s, p) + tail && Only(tail, p)
  {
    tail := "";
    if s != "" && p(s[|s| - 1]) {
      var rest := DropEndSplits(s[..|s| - 1], p);
      tail := rest + [s[|s| - 1]];
      assert s == DropEnd(s, p) + tail;
    }
  }

  lemma {:induction false} DropStartSplits(s: string, p: char -> bool) returns (head: string)
    ensures s == head + DropStart(s, p) && Only(head, p)
  {
    head := "";
    if s != "" && p(s[0]) {
      var rest := DropStartSplits(s[1..], p);
      head := [s[0]] + rest;
      assert s == head + DropStart(s, p);
    }
  }

  lemma Halves(a: string, b: string)
    ensures (a + b)[..|a|] == a && (a + b)[|a|..] == b
  {
  }

  lemma Regroup3(a: string, b: string, c: string)
    ensures a + b + c == a + (b + c)
  {
  }

  lemma EndTakes(s: string) returns (tail: string)
    ensures s == DropEnd(DropEnd(s, IsBlank), IsEtx) + tail && EtxsThenBlanks(tail)
  {
    var blanks := DropEndSplits(s, IsBlank);
    var etxs := DropEndSplits(DropEnd(s, IsBlank), IsEtx);
    tail := etxs + blanks;
    CodesOf(etxs);
    CodesOf(blanks);
    Halves(etxs, blanks);
    Regroup3(DropEnd(DropEnd(s, IsBlank), IsEtx), etxs, blanks);
  }

  lemma StartTakes(s: string) returns (head: string)
    ensures s == head + DropStart(DropStart(s, IsBlank), IsEtx) && BlanksThenEtxs(head)
  {
    var blanks := DropStartSplits(s, IsBlank);
    var etxs := DropStartSplits(DropStart(s, IsBlank), IsEtx);
    head := blanks + etxs;
    CodesOf(etxs);
    CodesOf(blanks);
    Halves(blanks, etxs);
    Regroup3(blanks, etxs, DropStart(DropStart(s, IsBlank), IsEtx));
  }

  /** What trim took off: blanks and then ETXs in front, ETXs and then blanks behind. */
  lemma TrimTakes(s: string) returns (head: string, tail: string)
    ensures s == head + Trim(s) + tail && BlanksThenEtxs(head) && EtxsThenBlanks(tail)
  {
    tail := EndTakes(s);
    head := StartTakes(DropEnd(DropEnd(s, IsBlank), IsEtx));
  }

  ghost predicate Wrapping(s: string) {
    forall i | 0 <= i < |s| :: White(s[i]) || EndOfText(s[i])
  }

  /** A text: it begins and ends with none of the characters trim knows. */
  ghost predicate Bare(s: string) {
    && s != "" && !White(s[0]) && !EndOfText(s[0])
    && !White(s[|s| - 1]) && !EndOfText(s[|s| - 1])
  }

  lemma WrappingEnds(s: string, h: string, i: nat)
    requires h <= s && Wrapping(h) && i < |s| && !White(s[i]) && !EndOfText(s[i])
    ensures |h| <= i
  {
  }

  /** The text a core begins and ends is found in one place only. */
  lemma SamePlace(h: string, t: string, h': string, t': string, core: string)
    requires Bare(core)
    requires Wrapping(h) && Wrapping(h') && h + core + t == h' + core + t'
    ensures h == h' && t == t'
  {
    var s := h + core + t;
    assert s[|h|] == core[0] && s[|h'|] == core[0];
    assert s[..|h|] == h && s[..|h'|] == h';
    WrappingEnds(s, h, |h'|);
    WrappingEnds(s, h', |h|);
    assert t == s[|h| + |core|..] && t' == s[|h'| + |core|..];
  }

  lemma WrappingOf(s: string)
    requires BlanksThenEtxs(s)
    ensures Wrapping(s)
  {
    var k :| 0 <= k <= |s| && Only(s[..k], White) && Only(s[k..], EndOfText);
    forall i | 0 <= i < |s|
      ensures White(s[i]) || EndOfText(s[i])
    {
      assert i < k ==> s[..k][i] == s[i];
      assert i >= k ==> s[k..][i - k] == s[i];
    }
  }

  lemma Regroup(a: string, b: string, c: string, d: string, e: string)
    ensures a + b + c + d + e == (a + b) + c + (d + e)
  {
    Regroup3(a + b + c, d, e);
  }

  lemma TrimBoth(head: string, core: string, tail: string)
    requires BlanksThenEtxs(head) && EtxsThenBlanks(tail)
    requires Bare(core)
    ensures Trim(head + core + tail) == core
  {
    var j :| 0 <= j <= |head| && Only(head[..j], White) && Only(head[j..], EndOfText);
    var k :| 0 <= k <= |tail| && Only(tail[..k], EndOfText) && Only(tail[k..], White);
    var b1, e1, e2, b2 := head[..j], head[j..], tail[..k], tail[k..];
    CodesOf(b1);
    CodesOf(e1);
    CodesOf(e2);
    CodesOf(b2);
    TrimStrips(b1, e1, core, e2, b2);
    assert head == b1 + e1 && tail == e2 + b2;
    Regroup(b1, e1, core, e2, b2);
  }

  /** trim uncovers a text wrapped in blanks and ETXs exactly when the blanks are outermost on
      both sides. */
  lemma TrimIff(head: string, core: string, tail: string)
    requires Wrapping(head) && Wrapping(tail)
    requires Bare(core)
    ensures Trim(head + core + tail) == core <==> BlanksThenEtxs(head) && EtxsThenBlanks(tail)
  {
    if BlanksThenEtxs(head) && EtxsThenBlanks(tail) {
      TrimBoth(head, core, tail);
    }
    if Trim(head + core + tail) == core {
      var h, t := TrimTakes(head + core + tail);
      WrappingOf(h);
      SamePlace(head, tail, h, t, core);
    }
  }

  /** For one, a blank inside an ETX survives, so trim is not idempotent. */
  lemma TrimOrderMatters()
    ensures Trim(['x', ' ', ETX]) == "x " && Trim("x ") == "x"
  {
    var t: string := ['x', ' ', ETX];
    DropEndOf(t, "", IsBlank);
    assert t + "" == t;
    DropEndOf("x ", [ETX], IsEtx);
    assert "x " + [ETX] == t;
    DropStartOf("", "x ", IsBlank);
    DropStartOf("", "x ", IsEtx);
    assert "" + "x " == "x ";
    TrimStrips("", "", "x", "", " ");
    assert "" + "" + "x" + "" + " " == "x ";
  }
}
