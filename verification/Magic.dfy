/** Type names, sizes and the field-name tables. */
module Magic {
  import opened Text

  datatype DataType =
    | BOOL | UINT8 | UINT32 | UINT64 | INT32 | DOUBLE
    | VECTOR3D | VECTOR6D | VECTOR6INT32 | VECTOR6UINT32
    | STRING | IN_USE | NOT_FOUND

  /** The names in the order they are compared. */
  const TYPE_NAMES: seq<(string, DataType)> := [
    ("BOOL", BOOL), ("UINT8", UINT8), ("UINT32", UINT32), ("UINT64", UINT64), ("INT32", INT32),
    ("DOUBLE", DOUBLE), ("VECTOR3D", VECTOR3D), ("VECTOR6D", VECTOR6D), ("VECTOR6INT32", VECTOR6INT32),
    ("VECTOR6UINT32", VECTOR6UINT32), ("STRING", STRING), ("IN_USE", IN_USE)]

  /** strncmp(name, lit, |name|) == 0; lit is NUL-terminated, name need not be. */
  predicate SameUpTo(name: string, lit: string) {
    if name == "" then true
    else
      var c := if lit == "" then NUL else lit[0];
      name[0] == c && (c == NUL || SameUpTo(name[1..], lit[1..]))
  }

  /** data_name_to_type on the slice `name`. */
  function NameToType(name: string): DataType {
    FirstMatch(name, TYPE_NAMES)
  }

  function FirstMatch(name: string, names: seq<(string, DataType)>): DataType {
    if names == [] then NOT_FOUND
    else if SameUpTo(name, names[0].0) then names[0].1
    else FirstMatch(name, names[1..])
  }

  ghost predicate NoNul(s: string) {
    NUL !in s
  }

  lemma {:induction false} SameUpToIsPrefix(name: string, lit: string)
    requires NoNul(name)
    ensures SameUpTo(name, lit) <==> name <= lit
  {
    if name != "" && lit != "" && name[0] == lit[0] {
      assert lit[0] == name[0] != NUL;
      SameUpToIsPrefix(name[1..], lit[1..]);
      if name[1..] <= lit[1..] {
        assert name == [name[0]] + name[1..] && lit == [lit[0]] + lit[1..];
      }
    }
  }

  /** A slice that runs past a NUL counts only up to it, and must then be the whole name. */
  lemma {:induction false} SameUpToNul(name: string, lit: string, k: nat)
    requires k < |name| && name[k] == NUL && NoNul(name[..k]) && NoNul(lit)
    ensures SameUpTo(name, lit) <==> name[..k] == lit
  {
    if k == 0 {
      assert name[..0] == "";
    } else {
      assert name[0] == name[..k][0];
      if lit != "" && name[0] == lit[0] {
        assert name[1..][..k - 1] == name[..k][1..];
        SameUpToNul(name[1..], lit[1..], k - 1);
        assert name[..k] == [name[0]] + name[..k][1..] && lit == [lit[0]] + lit[1..];
      }
    }
  }

  /** Where `name` first occurs as a prefix. */
  ghost predicate FirstPrefix(name: string, names: seq<(string, DataType)>, k: nat) {
    && k < |names| && name <= names[k].0
    && forall i | 0 <= i < k :: !(name <= names[i].0)
  }

  /** A NUL-free slice resolves to the first listed name it is a prefix of, and to NOT_FOUND
      exactly when there is none. */
  lemma {:induction false} FirstMatchIsFirstPrefix(name: string, names: seq<(string, DataType)>)
    requires NoNul(name) && forall i | 0 <= i < |names| :: names[i].1 != NOT_FOUND
    ensures FirstMatch(name, names) == NOT_FOUND <==> forall i | 0 <= i < |names| :: !(name <= names[i].0)
    ensures forall k: nat | FirstPrefix(name, names, k) :: FirstMatch(name, names) == names[k].1
  {
    if names != [] {
      SameUpToIsPrefix(name, names[0].0);
      var rest := names[1..];
      FirstMatchIsFirstPrefix(name, rest);
      assert forall i | 0 <= i < |rest| :: rest[i] == names[i + 1];
      if !(name <= names[0].0) {
        assert FirstMatch(name, names) == FirstMatch(name, rest);
        forall k: nat | FirstPrefix(name, names, k)
          ensures FirstMatch(name, names) == names[k].1
        {
          assert k > 0 && rest[k - 1] == names[k];
          assert FirstPrefix(name, rest, k - 1);
        }
        if forall i | 0 <= i < |rest| :: !(name <= rest[i].0) {
          forall i | 0 <= i < |names| ensures !(name <= names[i].0) { assert i > 0 ==> names[i] == rest[i - 1]; }
        }
      } else {
        assert FirstPrefix(name, names, 0);
      }
    }
  }

  /** data_name_to_type is exactly "the first listed name that the slice begins". */
  lemma NameToTypeIsFirstPrefix(name: string)
    requires NoNul(name)
    ensures NameToType(name) == NOT_FOUND <==> forall i | 0 <= i < |TYPE_NAMES| :: !(name <= TYPE_NAMES[i].0)
    ensures forall k: nat | FirstPrefix(name, TYPE_NAMES, k) :: NameToType(name) == TYPE_NAMES[k].1
  {
    FirstMatchIsFirstPrefix(name, TYPE_NAMES);
  }

  /** rtde_datasize */
  function DataSize(t: DataType): nat {
    match t
    case BOOL => 1
    case UINT8 => 1
    case UINT32 => 4
    case UINT64 => 8
    case INT32 => 4
    case DOUBLE => 8
    case VECTOR3D => 24
    case VECTOR6D => 48
    case VECTOR6INT32 => 24
    case VECTOR6UINT32 => 24
    case STRING => 1
    case IN_USE => 0
    case NOT_FOUND => 0
  }

  /** The types a reply can name for a variable that exists. */
  predicate Known(t: DataType) {
    t != STRING && t != IN_USE && t != NOT_FOUND
  }

  /** What the controller writes for a type in its reply. */
  function TypeName(t: DataType): string {
    match t
    case BOOL => "BOOL"
    case UINT8 => "UINT8"
    case UINT32 => "UINT32"
    case UINT64 => "UINT64"
    case INT32 => "INT32"
    case DOUBLE => "DOUBLE"
    case VECTOR3D => "VECTOR3D"
    case VECTOR6D => "VECTOR6D"
    case VECTOR6INT32 => "VECTOR6INT32"
    case VECTOR6UINT32 => "VECTOR6UINT32"
    case STRING => "STRING"
    case IN_USE => "IN_USE"
    case NOT_FOUND => "NOT_FOUND"
  }

  predicate Typed(name: string) {
    NameToType(name) != NOT_FOUND && NameToType(name) != IN_USE
  }

  ghost predicate PlainName(s: string) {
    && |s| >= 2 && NoNul(s) && ',' !in s
    && !IsBlank(s[0]) && !IsEtx(s[0]) && !IsBlank(s[|s| - 1]) && !IsEtx(s[|s| - 1])
  }

  /** Which listed name a slice of the vocabulary begins first; 12 for none. */
  function MatchOf(t: DataType): nat {
    match t
    case BOOL => 0
    case UINT8 => 1
    case UINT32 => 2
    case UINT64 => 3
    case INT32 => 4
    case DOUBLE => 5
    case VECTOR3D => 6
    case VECTOR6D => 7
    case VECTOR6INT32 => 8
    case VECTOR6UINT32 => 9
    case STRING => 10
    case IN_USE => 11
    case NOT_FOUND => 12
  }

  /** A slice begins listed name k first, or none if k is 12. */
  ghost predicate Begins(name: string, k: nat) {
    if k < |TYPE_NAMES| then FirstPrefix(name, TYPE_NAMES, k)
    else forall i | 0 <= i < |TYPE_NAMES| :: !(name <= TYPE_NAMES[i].0)
  }

  lemma Vocabulary(name: string, t: DataType, cut: nat)
    requires cut <= 1 && name == TypeName(t)[..|TypeName(t)| - cut]
    ensures Begins(name, MatchOf(t))
  {
    match t
    case BOOL =>
    case UINT8 =>
    case UINT32 => assert name[4] == '3';
    case UINT64 => assert name[4] == '6';
    case INT32 => 
    case DOUBLE =>
    case VECTOR3D =>
    case VECTOR6D => assert name[6] == '6';
    case VECTOR6INT32 => assert name[6] == '6' && name[7] == 'I';
    case VECTOR6UINT32 => assert name[6] == '6' && name[7] == 'U';
    case STRING => assert name[0] == 'S';
    case IN_USE => assert name[2] == '_';
    case NOT_FOUND => assert name[0] == 'N';
  }

  lemma Beheaded(name: string, t: DataType, cut: nat)
    requires cut <= 1 && (t == IN_USE || t == NOT_FOUND) && name == TypeName(t)[1..|TypeName(t)| - cut]
    ensures Begins(name, 12)
  {
    assert name[0] == 'N' || name[0] == 'O';
  }

  lemma BeginsResolves(name: string, k: nat)
    requires NoNul(name) && k <= |TYPE_NAMES| && Begins(name, k)
    ensures NameToType(name) == if k < |TYPE_NAMES| then TYPE_NAMES[k].1 else NOT_FOUND
  {
    NameToTypeIsFirstPrefix(name);
  }

  lemma VocabularyIsPlain(name: string, t: DataType)
    requires name == TypeName(t)
    ensures PlainName(name)
  {
  }

  lemma MatchOfIsOwn(t: DataType)
    ensures t != NOT_FOUND ==> MatchOf(t) < |TYPE_NAMES| && TYPE_NAMES[MatchOf(t)].1 == t
    ensures t == NOT_FOUND ==> MatchOf(t) == |TYPE_NAMES|
  {
  }

  /** Every word of the vocabulary resolves to its own type, whole or short of its last letter:
      a scanner that drops the last letter still sees NOT_FOUND and IN_USE for what they are. */
  lemma WordResolves(name: string, t: DataType, cut: nat)
    requires cut <= 1 && name == TypeName(t)[..|TypeName(t)| - cut]
    ensures NameToType(name) == t
    ensures cut == 0 ==> PlainName(name)
  {
    Vocabulary(name, t, cut);
    VocabularyIsPlain(TypeName(t), t);
    MatchOfIsOwn(t);
    BeginsResolves(name, MatchOf(t));
  }

  /** A refusal whose first letter went into the recipe id is still no type. */
  lemma BeheadedResolves(name: string, t: DataType, cut: nat)
    requires cut <= 1 && (t == IN_USE || t == NOT_FOUND) && name == TypeName(t)[1..|TypeName(t)| - cut]
    ensures NameToType(name) == NOT_FOUND && NoNul(name) && ',' !in name
  {
    Beheaded(name, t, cut);
    VocabularyIsPlain(TypeName(t), t);
    BeginsResolves(name, |TYPE_NAMES|);
  }

  lemma SharedPrefix(name: string, k: nat)
    requires || (name == "UINT" && k == 1) || (name == "IN" && k == 4)
             || (name == "VECTOR" && k == 6) || (name == "VECTOR6" && k == 7)
    ensures NoNul(name) && Begins(name, k)
  {
    assert name == TYPE_NAMES[k].0[..|name|];
    if k == 1 {
      assert name[0] == 'U';
    } else if k == 4 {
      assert name[0] == 'I';
    } else if k == 6 {
      assert name[0] == 'V';
    } else if k == 7 {
      assert name[0] == 'V' && name[6] == '6';
    }
  }

  /** A prefix of several names resolves to the one compared first. */
  lemma AmbiguousPrefixes(name: string, k: nat)
    requires || (name == "UINT" && k == 1) || (name == "IN" && k == 4)
             || (name == "VECTOR" && k == 6) || (name == "VECTOR6" && k == 7)
    ensures NameToType(name) == if k == 1 then UINT8 else if k == 4 then INT32 else if k == 6 then VECTOR3D else VECTOR6D
  {
    SharedPrefix(name, k);
    BeginsResolves(name, k);
  }

  // ----- Field-name tables -----

  datatype Entry = Entry(name: string, typ: DataType)

  /** A field name fits a request: printable on the wire and free of the separator. */
  ghost predicate FieldName(s: string) {
    s != "" && ',' !in s && NoNul(s) && forall i | 0 <= i < |s| :: s[i] as int < 256
  }

  /** What every use of the tables relies on. */
  ghost predicate ValidTable(table: seq<Entry>) {
    forall i | 0 <= i < |table| :: FieldName(table[i].name) && Known(table[i].typ)
  }

  /** The first entry of that name. */
  function FindName(table: seq<Entry>, name: string): (idx: int)
    ensures -1 <= idx < |table|
    ensures idx >= 0 ==> table[idx].name == name && forall i | 0 <= i < idx :: table[i].name != name
    ensures idx < 0 ==> forall i | 0 <= i < |table| :: table[i].name != name
  {
    FindNameFrom(table, name, 0)
  }

  function FindNameFrom(table: seq<Entry>, name: string, from: nat): (idx: int)
    requires from <= |table|
    ensures -1 <= idx < |table|
    ensures idx >= 0 ==> from <= idx && table[idx].name == name && forall i | from <= i < idx :: table[i].name != name
    ensures idx < 0 ==> forall i | from <= i < |table| :: table[i].name != name
    decreases |table| - from
  {
    if from == |table| then -1
    else if table[from].name == name then from
    else FindNameFrom(table, name, from + 1)
  }

  /** input_name_to_idx and output_name_to_idx: the index loop. */
  method NameToIdx(table: seq<Entry>, name: string) returns (idx: int)
    ensures idx == FindName(table, name)
  {
    for i := 0 to |table|
      invariant FindName(table, name) == FindNameFrom(table, name, i)
    {
      if table[i].name == name {
        return i;
      }
    }
    return -1;
  }
}
