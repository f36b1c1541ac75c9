/**
 * A table schema: an ordered sequence of (type, name) items. The schema is
 * immutable once built, so it is a value; the operations the source writes
 * as loops are methods proved against the functions below.
 */
module TupleDescs {
  import opened Wrappers
  import opened Types

  /** One schema item. */
  datatype TDItem = TDItem(fieldType: Type, fieldName: string) {

    /** `name(type)`, with the type printed as its enum constant. */
    function ToString(): string {
      fieldName + "(" + fieldType.Name() + ")"
    }
  }

  datatype TupleDesc = TupleDesc(items: seq<TDItem>) {

    /** `numFields`: the item count; each field takes between 4 and 132 bytes of a tuple. */
    function NumFields(): (n: nat)
      ensures 4 * n <= Size() <= (STRING_LEN + 4) * n
    {
      SumLenBounds(items);
      |items|
    }

    /** `getFieldName(i)`: NoSuchElement outside `0 <= i < numFields`. */
    function FieldName(i: int): (r: Result<string>)
      ensures r.Err? <==> i < 0 || i >= NumFields()
      ensures r.Err? ==> r.error == NoSuchElement
      ensures r.Ok? ==> r.value == items[i].fieldName
    {
      if i >= NumFields() || i < 0 then Err(NoSuchElement) else Ok(items[i].fieldName)
    }

    /** `getFieldType(i)`: NoSuchElement outside `0 <= i < numFields`. */
    function FieldType(i: int): (r: Result<Type>)
      ensures r.Err? <==> i < 0 || i >= NumFields()
      ensures r.Err? ==> r.error == NoSuchElement
      ensures r.Ok? ==> r.value == items[i].fieldType
    {
      if i >= NumFields() || i < 0 then Err(NoSuchElement) else Ok(items[i].fieldType)
    }

    /** The byte size of a tuple of this schema. */
    function Size(): nat {
      SumLen(items)
    }
  }

  /** The sum of the type lengths of `items`, accumulated left to right. */
  function SumLen(items: seq<TDItem>): nat {
    if items == [] then 0 else SumLen(items[..|items| - 1]) + items[|items| - 1].fieldType.Len()
  }

  /** The size of a concatenation is the sum of the sizes. */
  lemma {:induction false} SumLenAppend(a: seq<TDItem>, b: seq<TDItem>)
    ensures SumLen(a + b) == SumLen(a) + SumLen(b)
    decreases |b|
  {
    if b != [] {
      var b' := b[..|b| - 1];
      assert (a + b)[..|a + b| - 1] == a + b';
      SumLenAppend(a, b');
    } else {
      assert a + b == a;
    }
  }

  /** Every field occupies between 4 and 132 bytes. */
  lemma {:induction false} SumLenBounds(items: seq<TDItem>)
    ensures 4 * |items| <= SumLen(items) <= (STRING_LEN + 4) * |items|
  {
    if items != [] {
      SumLenBounds(items[..|items| - 1]);
    }
  }

  /** `new TupleDesc(typeAr, fieldAr)`: reading past the end of `fieldAr` throws. */
  method NewTupleDesc(types: seq<Type>, names: seq<string>) returns (r: Result<TupleDesc>)
    ensures r.Err? <==> |names| < |types|
    ensures r.Err? ==> r.error == IndexOutOfBounds
    ensures r.Ok? ==> r.value.NumFields() == |types|
    ensures r.Ok? ==> forall i :: 0 <= i < |types| ==>
      r.value.FieldType(i) == Ok(types[i]) && r.value.FieldName(i) == Ok(names[i])
  {
    var items: seq<TDItem> := [];
    for i := 0 to |types|
      invariant i <= |names|
      invariant |items| == i
      invariant forall j :: 0 <= j < i ==> items[j] == TDItem(types[j], names[j])
    {
      if i >= |names| {
        return Err(IndexOutOfBounds);
      }
      items := items + [TDItem(types[i], names[i])];
    }
    return Ok(TupleDesc(items));
  }

  /** `new TupleDesc(typeAr)`: every field is named "". */
  method NewUnnamedTupleDesc(types: seq<Type>) returns (td: TupleDesc)
    ensures td.NumFields() == |types|
    ensures forall i :: 0 <= i < |types| ==> td.FieldType(i) == Ok(types[i]) && td.FieldName(i) == Ok("")
  {
    var items: seq<TDItem> := [];
    for i := 0 to |types|
      invariant |items| == i
      invariant forall j :: 0 <= j < i ==> items[j] == TDItem(types[j], "")
    {
      items := items + [TDItem(types[i], "")];
    }
    return TupleDesc(items);
  }

  /** `getSize`: the sum of the field types' lengths. */
  method GetSize(td: TupleDesc) returns (sz: nat)
    ensures sz == td.Size()
    ensures 4 * td.NumFields() <= sz <= (STRING_LEN + 4) * td.NumFields()
  {
    sz := 0;
    for i := 0 to |td.items|
      invariant sz == SumLen(td.items[..i])
    {
      assert td.items[..i + 1][..i] == td.items[..i];
      sz := sz + td.items[i].fieldType.Len();
    }
    assert td.items[..|td.items|] == td.items;
    SumLenBounds(td.items);
  }

  /**
   * `merge(td1, td2)`: td1's items in order, then td2's, so the field count
   * and the size are the sums of the two.
   */
  method Merge(td1: TupleDesc, td2: TupleDesc) returns (r: TupleDesc)
    ensures r.items == td1.items + td2.items
    ensures r.NumFields() == td1.NumFields() + td2.NumFields()
    ensures r.Size() == td1.Size() + td2.Size()
  {
    var types: seq<Type> := [];
    var names: seq<string> := [];
    for i := 0 to |td1.items|
      invariant |types| == |names| == i
      invariant forall j :: 0 <= j < i ==>
        types[j] == td1.items[j].fieldType && names[j] == td1.items[j].fieldName
    {
      types := types + [td1.items[i].fieldType];
      names := names + [td1.items[i].fieldName];
    }
    var n1 := |td1.items|;
    for i := 0 to |td2.items|
      invariant |types| == |names| == n1 + i
      invariant forall j :: 0 <= j < n1 ==>
        types[j] == td1.items[j].fieldType && names[j] == td1.items[j].fieldName
      invariant forall j :: 0 <= j < i ==>
        types[n1 + j] == td2.items[j].fieldType && names[n1 + j] == td2.items[j].fieldName
    {
      types := types + [td2.items[i].fieldType];
      names := names + [td2.items[i].fieldName];
    }
    var made := NewTupleDesc(types, names);
    r := made.value;
    assert forall j :: 0 <= j < |types| ==> r.items[j] == TDItem(types[j], names[j]) by {
      forall j | 0 <= j < |types| ensures r.items[j] == TDItem(types[j], names[j]) {
        assert r.FieldType(j) == Ok(types[j]) && r.FieldName(j) == Ok(names[j]);
      }
    }
    assert r.items == td1.items + td2.items;
    SumLenAppend(td1.items, td2.items);
  }

  // ---------------------------------------------------------------------
  // `equals`

  /** Same field count and the same type at every position; names are ignored. */
  predicate SameTypes(a: TupleDesc, b: TupleDesc) {
    a.NumFields() == b.NumFields() &&
    forall i :: 0 <= i < a.NumFields() ==> a.items[i].fieldType == b.items[i].fieldType
  }

  /**
   * `equals(o)`: `o` is None when it is null or not a TupleDesc.
   */
  method Equals(td: TupleDesc, o: Option<TupleDesc>) returns (res: bool)
    ensures res <==> o.Some? && SameTypes(td, o.value)
  {
    res := false;
    if o.Some? {
      var other := o.value;
      if other.NumFields() == td.NumFields() {
        res := true;
        var i := 0;
        while i < td.NumFields()
          invariant 0 <= i <= td.NumFields()
          invariant res
          invariant forall j :: 0 <= j < i ==> td.items[j].fieldType == other.items[j].fieldType
        {
          if td.FieldType(i).value != other.FieldType(i).value {
            res := false;
            break;
          }
          i := i + 1;
        }
      }
    }
  }

  /** Schema equality is an equivalence relation. */
  lemma SameTypesEquivalence(a: TupleDesc, b: TupleDesc, c: TupleDesc)
    ensures SameTypes(a, a)
    ensures SameTypes(a, b) ==> SameTypes(b, a)
    ensures SameTypes(a, b) && SameTypes(b, c) ==> SameTypes(a, c)
  {
  }

  /** Two schemas built from the same types are equal whatever their names. */
  lemma SameTypesIgnoresNames(types: seq<Type>, names1: seq<string>, names2: seq<string>)
    requires |names1| == |names2| == |types|
    ensures SameTypes(
      TupleDesc(seq(|types|, i requires 0 <= i < |types| => TDItem(types[i], names1[i]))),
      TupleDesc(seq(|types|, i requires 0 <= i < |types| => TDItem(types[i], names2[i]))))
  {
  }

  // ---------------------------------------------------------------------
  // `fieldNameToIndex` and Java's `String.split("\\.")`

  /** The pieces of `s` between '.' characters, empty ones included. */
  function Pieces(s: string): (r: seq<string>)
    ensures |r| >= 1
    ensures forall i :: 0 <= i < |r| ==> '.' !in r[i]
  {
    if s == [] then [[]]
    else
      var init := Pieces(s[..|s| - 1]);
      var c := s[|s| - 1];
      if c == '.' then init + [[]]
      else init[..|init| - 1] + [init[|init| - 1] + [c]]
  }

  /** Drops the empty strings at the end of `ss`. */
  function DropTrailingEmpty(ss: seq<string>): (r: seq<string>)
    ensures r <= ss
    ensures r == [] || r[|r| - 1] != []
    ensures forall i :: |r| <= i < |ss| ==> ss[i] == []
  {
    if ss != [] && ss[|ss| - 1] == [] then DropTrailingEmpty(ss[..|ss| - 1]) else ss
  }

  /**
   * `s.split("\\.")`: the pieces with trailing empty strings removed; an
   * empty `s` (no match at all) splits into the one piece "".
   */
  function Split(s: string): (r: seq<string>)
    ensures forall i :: 0 <= i < |r| ==> '.' !in r[i]
    ensures s != [] ==> r == [] || r[|r| - 1] != []
  {
    if s == [] then [[]] else DropTrailingEmpty(Pieces(s))
  }

  /** `tmp[tmp.length - 1]` after the split: fails when the split is empty. */
  function LastSegment(name: string): (r: Result<string>)
    ensures r.Err? ==> r.error == IndexOutOfBounds
    ensures r.Ok? ==> '.' !in r.value
  {
    var parts := Split(name);
    if |parts| == 0 then Err(IndexOutOfBounds) else Ok(parts[|parts| - 1])
  }

  /** Appending dot-free characters extends the last piece only. */
  lemma {:induction false} PiecesAppend(t: string, k: string)
    requires '.' !in k
    ensures var p := Pieces(t);
      Pieces(t + k) == p[..|p| - 1] + [p[|p| - 1] + k]
    decreases |k|
  {
    var p := Pieces(t);
    if k == [] {
      assert t + k == t;
      assert p[|p| - 1] + k == p[|p| - 1];
    } else {
      var k', c := k[..|k| - 1], k[|k| - 1];
      assert c in k;
      assert (t + k)[..|t + k| - 1] == t + k';
      assert (t + k)[|t + k| - 1] == c;
      PiecesAppend(t, k');
      var init := Pieces(t + k');
      assert init[..|init| - 1] == p[..|p| - 1];
      assert init[|init| - 1] == p[|p| - 1] + k';
      assert p[|p| - 1] + k' + [c] == p[|p| - 1] + k;
    }
  }

  /** A name without '.' is its own last segment. */
  lemma NoDotIsOwnSegment(name: string)
    requires '.' !in name
    ensures LastSegment(name) == Ok(name)
  {
    if name != [] {
      PiecesAppend([], name);
      assert [] + name == name;
    }
  }

  /** The segment after the last '.' is kept when it is not empty. */
  lemma StripsQualifier(prefix: string, key: string)
    requires '.' !in key && key != []
    ensures LastSegment(prefix + ['.'] + key) == Ok(key)
  {
    var t := prefix + ['.'];
    assert t[..|t| - 1] == prefix;
    assert Pieces(t)[|Pieces(t)| - 1] == [];
    PiecesAppend(t, key);
    var p := Pieces(t + key);
    assert p[|p| - 1] == key;
    assert t + key == prefix + ['.'] + key;
  }

  /** A trailing '.' is dropped by the split, so the segment before it is kept. */
  lemma TrailingDotKeepsPreviousSegment(prefix: string, key: string)
    requires '.' !in key && key != []
    ensures LastSegment(prefix + ['.'] + key + ['.']) == Ok(key)
  {
    var t := prefix + ['.'];
    var u := t + key;
    assert t[..|t| - 1] == prefix;
    assert Pieces(t)[|Pieces(t)| - 1] == [];
    PiecesAppend(t, key);
    var p := Pieces(u);
    assert p[|p| - 1] == key;
    var s := u + ['.'];
    assert s[..|s| - 1] == u;
    var q := Pieces(s);
    assert q == p + [[]];
    assert DropTrailingEmpty(q) == DropTrailingEmpty(p);
    assert DropTrailingEmpty(p) == p;
    assert prefix + ['.'] + key + ['.'] == s;
  }

  /** A non-empty name made only of dots splits into nothing, and the lookup throws. */
  lemma AllDotsFails(name: string)
    requires name != [] && forall i :: 0 <= i < |name| ==> name[i] == '.'
    ensures LastSegment(name) == Err(IndexOutOfBounds)
  {
    AllDotsPieces(name);
  }

  lemma {:induction false} AllDotsPieces(s: string)
    requires forall i :: 0 <= i < |s| ==> s[i] == '.'
    ensures forall i :: 0 <= i < |Pieces(s)| ==> Pieces(s)[i] == []
  {
    if s != [] {
      AllDotsPieces(s[..|s| - 1]);
    }
  }

  /**
   * `fieldNameToIndex(name)`: the first index whose name equals the last
   * segment of `name`; NoSuchElement when there is none.
   */
  method FieldNameToIndex(td: TupleDesc, name: string) returns (r: Result<nat>)
    ensures LastSegment(name).Err? ==> r == Err(IndexOutOfBounds)
    ensures LastSegment(name).Ok? && r.Ok? ==>
      r.value < td.NumFields() &&
      td.items[r.value].fieldName == LastSegment(name).value &&
      forall j :: 0 <= j < r.value ==> td.items[j].fieldName != LastSegment(name).value
    ensures LastSegment(name).Ok? && r.Err? ==>
      r.error == NoSuchElement &&
      forall j :: 0 <= j < td.NumFields() ==> td.items[j].fieldName != LastSegment(name).value
  {
    var parts := Split(name);
    if |parts| == 0 {
      return Err(IndexOutOfBounds);
    }
    var key := parts[|parts| - 1];
    for i := 0 to |td.items|
      invariant forall j :: 0 <= j < i ==> td.items[j].fieldName != key
    {
      if td.items[i].fieldName == key {
        return Ok(i);
      }
    }
    return Err(NoSuchElement);
  }

  // ---------------------------------------------------------------------
  // `toString`

  /** The items' strings joined with ",". */
  function Describe(items: seq<TDItem>): string {
    if items == [] then ""
    else if |items| == 1 then items[0].ToString()
    else Describe(items[..|items| - 1]) + "," + items[|items| - 1].ToString()
  }

  /** Only the empty schema prints as "". */
  lemma DescribeEmpty(items: seq<TDItem>)
    ensures Describe(items) == "" <==> items == []
  {
    if items != [] {
      var last := items[|items| - 1];
      assert last.ToString()[|last.fieldName|] == '(';
    }
  }

  /** A description of several items is the description of all but the last, a comma, and the last. */
  lemma DescribeSnoc(items: seq<TDItem>)
    requires |items| > 1
    ensures Describe(items) == Describe(items[..|items| - 1]) + "," + items[|items| - 1].ToString()
  {
  }

  /** Joining with "," regroups freely. */
  lemma JoinAssoc(x: string, y: string, t: string)
    ensures (x + "," + y) + "," + t == x + "," + (y + "," + t)
  {
  }

  /** Dropping the last item of `a + b` drops the last item of `b`. */
  lemma AppendInit(a: seq<TDItem>, b: seq<TDItem>)
    requires b != []
    ensures (a + b)[..|a + b| - 1] == a + b[..|b| - 1]
    ensures (a + b)[|a + b| - 1] == b[|b| - 1]
  {
  }

  /** The description of a merged schema joins the two descriptions with ",". */
  lemma {:induction false} DescribeAppend(a: seq<TDItem>, b: seq<TDItem>)
    requires a != [] && b != []
    ensures Describe(a + b) == Describe(a) + "," + Describe(b)
    decreases |b|
  {
    var b' := b[..|b| - 1];
    AppendInit(a, b);
    DescribeSnoc(a + b);
    if |b| > 1 {
      DescribeAppend(a, b');
      DescribeSnoc(b);
      JoinAssoc(Describe(a), Describe(b'), b[|b| - 1].ToString());
    } else {
      assert a + b' == a;
    }
  }

  /** `toString` builds the description in a buffer. */
  method ToString(td: TupleDesc) returns (s: string)
    ensures s == Describe(td.items)
  {
    if |td.items| == 0 {
      return "";
    }
    s := td.items[0].ToString();
    for i := 1 to |td.items|
      invariant s == Describe(td.items[..i])
    {
      assert td.items[..i + 1][..i] == td.items[..i];
      s := s + "," + td.items[i].ToString();
    }
    assert td.items[..|td.items|] == td.items;
  }
}
