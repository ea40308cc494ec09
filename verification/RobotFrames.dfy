/** Where the two halves meet: the bytes of the robot's input frame carry exactly the fourteen cells
    that the step machine sends. */
module RobotFrames {
  import opened Cells
  import opened Endian
  import opened Magic
  import opened Layout

  /** init_input_TCP_pose's types: two INT32 registers, then twelve DOUBLE registers. */
  function InputType(i: nat): DataType {
    if i < IN_QD then INT32 else DOUBLE
  }

  /** The registers' names, as both tables list them. */
  ghost predicate RobotInputs(tables: Tables, names: seq<string>) {
    && |names| == IN_CELLS && Listed(tables.inputs, names) && Listed(tables.outputs, names)
    && forall i | 0 <= i < IN_CELLS :: tables.inputs[FindName(tables.inputs, names[i])].typ == InputType(i)
  }

  /** The cells as words of the registers' widths. */
  ghost predicate InWidth(cells: seq<nat>) {
    && |cells| == IN_CELLS
    && forall i | 0 <= i < IN_CELLS :: cells[i] < if i < IN_QD then 0x1_0000_0000 else 0x1_0000_0000_0000_0000
  }

  function Indices(n: nat): (s: seq<nat>)
    ensures |s| == n && forall i | 0 <= i < n :: s[i] == i
  {
    seq(n, i => i)
  }

  lemma Widths()
    ensures Pow256(4) == 0x1_0000_0000 && Pow256(8) == 0x1_0000_0000_0000_0000
  {
    assert Pow256(2) == 65536 && Pow256(4) == 65536 * Pow256(2) && Pow256(6) == 65536 * Pow256(4);
  }

  lemma {:induction false} InputBytes(l: Layout, n: nat)
    requires Tiled(l) && l.base == 0 && |l.fields| == n <= IN_CELLS
    requires forall i | 0 <= i < n :: l.fields[i].typ == InputType(i)
    ensures l.bytes == if n <= IN_QD then 4 * n else 8 + 8 * (n - IN_QD)
    decreases n
  {
    if n > 0 {
      var rest := l.(fields := l.fields[..n - 1], bytes := l.fields[n - 1].offset);
      InputBytes(rest, n - 1);
    }
  }

  lemma InputLayout(tables: Tables, names: seq<string>, a: Layout)
    requires RobotInputs(tables, names) && Tiled(a) && a.base == 0
    requires BuiltFrom(a, tables.inputs, names, Indices(IN_CELLS))
    ensures |a.fields| == IN_CELLS && a.bytes == 104
    ensures forall k | 0 <= k < IN_CELLS :: a.fields[k].typ == InputType(k)
  {
    InputBytes(a, IN_CELLS);
  }

  lemma LayoutCarriesCells(tables: Tables, names: seq<string>, cells: seq<nat>, a: Layout, b: Layout,
                           data: seq<Byte>, regs: seq<nat>, i: nat)
    requires Agree(tables) && RobotInputs(tables, names) && InWidth(cells)
    requires |data| >= 104 && |regs| == IN_CELLS && i < IN_CELLS
    requires Tiled(a) && a.base == 0 && BuiltFrom(a, tables.inputs, names, Indices(IN_CELLS))
    requires Tiled(b) && b.base == 0 && BuiltFrom(b, tables.outputs, names, Indices(IN_CELLS))
    ensures a.bytes == 104 && Fits(a.fields, |data|, IN_CELLS) && Fits(b.fields, |data|, IN_CELLS)
    ensures ParseAll(regs, b.fields, StoreAll(data, a.fields, cells))[i] == cells[i]
  {
    InputLayout(tables, names, a);
    BuiltReadBack(tables, a, b, names, Indices(IN_CELLS), Indices(IN_CELLS), data, cells, regs, i);
    WholeCell(i, cells[i]);
  }

  /** A cell of its register's width is carried whole. */
  lemma WholeCell(i: nat, x: nat)
    requires i < IN_CELLS && x < if i < IN_QD then 0x1_0000_0000 else 0x1_0000_0000_0000_0000
    ensures Carried(InputType(i), x) == x
  {
    Widths();
  }

  /** Storing the input recipe and reading the registers' names back gives every cell: the frame is
      104 bytes and loses nothing. */
  lemma InputFrameCarriesCells(tables: Tables, names: seq<string>, cells: seq<nat>, data: seq<Byte>, regs: seq<nat>, i: nat)
    requires Agree(tables) && RobotInputs(tables, names) && InWidth(cells)
    requires |data| >= 104 && |regs| == IN_CELLS && i < IN_CELLS
    ensures var a, b := Build(tables, false, names, Indices(IN_CELLS)), Build(tables, true, names, Indices(IN_CELLS));
            && a.bytes == 104
            && Fits(a.fields, |data|, IN_CELLS) && Fits(b.fields, |data|, IN_CELLS)
            && ParseAll(regs, b.fields, StoreAll(data, a.fields, cells))[i] == cells[i]
  {
    BuildFields(tables, false, names, Indices(IN_CELLS));
    BuildFields(tables, true, names, Indices(IN_CELLS));
    LayoutCarriesCells(tables, names, cells, Build(tables, false, names, Indices(IN_CELLS)),
                       Build(tables, true, names, Indices(IN_CELLS)), data, regs, i);
  }
}
