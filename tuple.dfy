/**
 * A record: a schema reference, a fixed-length list of field slots (None
 * for a slot that has not been set) and an optional RecordId. The source
 * updates all three in place, so the record is a class.
 */
module Tuples {
  import opened Wrappers
  import opened Ids
  import opened Types
  import opened TupleDescs

  class Tuple {
    var tupleDesc: TupleDesc
    var recordId: Option<RecordId>
    var fields: seq<Option<Field>>

    /** The slot count matches the schema's field count. */
    ghost predicate Conforms()
      reads this
    {
      |fields| == tupleDesc.NumFields()
    }

    /** `new Tuple(td)`: `td.numFields()` unset slots and no RecordId. */
    constructor (td: TupleDesc)
      ensures tupleDesc == td && recordId == None
      ensures |fields| == td.NumFields() && forall i :: 0 <= i < |fields| ==> fields[i] == None
      ensures Conforms()
    {
      tupleDesc := td;
      recordId := None;
      var slots: seq<Option<Field>> := [];
      for i := 0 to td.NumFields()
        invariant |slots| == i && forall j :: 0 <= j < i ==> slots[j] == None
      {
        slots := slots + [None];
      }
      fields := slots;
    }

    /** `getRecordId`: may be None. */
    function GetRecordId(): Option<RecordId>
      reads this
    {
      recordId
    }

    /** `setRecordId(rid)`: later reads return `rid`; nothing else changes. */
    method SetRecordId(rid: Option<RecordId>)
      modifies this
      ensures GetRecordId() == rid
      ensures fields == old(fields) && tupleDesc == old(tupleDesc)
    {
      recordId := rid;
    }

    /** `getField(i)`: the slot's value (None if unset); out of range throws. */
    function GetField(i: int): (r: Result<Option<Field>>)
      reads this
      ensures r.Err? <==> i < 0 || i >= |fields|
      ensures r.Err? ==> r.error == IndexOutOfBounds
    {
      if 0 <= i < |fields| then Ok(fields[i]) else Err(IndexOutOfBounds)
    }

    /**
     * `setField(i, f)`: slot `i` afterwards reads `f` and every other slot
     * reads as before; an index out of range throws and changes nothing.
     */
    method SetField(i: int, f: Option<Field>) returns (r: Outcome)
      modifies this
      ensures r.Pass? <==> 0 <= i < |old(fields)|
      ensures r.Fail? ==> r.error == IndexOutOfBounds
      ensures |fields| == |old(fields)|
      ensures r.Pass? ==> GetField(i) == Ok(f)
      ensures forall j :: j != i ==> GetField(j) == old(GetField(j))
      ensures tupleDesc == old(tupleDesc) && recordId == old(recordId)
      ensures old(Conforms()) ==> Conforms()
    {
      if 0 <= i < |fields| {
        fields := fields[i := f];
        r := Pass;
      } else {
        r := Fail(IndexOutOfBounds);
      }
    }

    /** `resetTupleDesc(td)`: only the schema changes; the slots stay as they are. */
    method ResetTupleDesc(td: TupleDesc)
      modifies this
      ensures tupleDesc == td
      ensures fields == old(fields) && recordId == old(recordId)
      ensures Conforms() <==> |old(fields)| == td.NumFields()
    {
      tupleDesc := td;
    }

    /** `fields()`: the slots in order, as `getField` returns them. */
    function Fields(): (r: seq<Option<Field>>)
      reads this
      ensures |r| == |fields|
      ensures forall i :: 0 <= i < |r| ==> GetField(i) == Ok(r[i])
    {
      fields
    }

    /**
     * `toString`: each of the schema's `numFields` slots rendered and
     * followed by a space, in order. `render` stands for `Field.toString`.
     */
    method ToString(render: Field -> string) returns (r: Result<string>)
      ensures r == Render(fields, tupleDesc.NumFields(), render)
    {
      var sb := "";
      for i := 0 to tupleDesc.NumFields()
        invariant Render(fields, i, render) == Ok(sb)
      {
        if i >= |fields| {
          RenderStaysFailed(fields, i + 1, tupleDesc.NumFields(), render);
          return Err(IndexOutOfBounds);
        }
        if fields[i].None? {
          RenderStaysFailed(fields, i + 1, tupleDesc.NumFields(), render);
          return Err(NullPointer);
        }
        sb := sb + render(fields[i].value) + " ";
      }
      return Ok(sb);
    }
  }

  /**
   * The string of the first `n` slots, each rendered and followed by " ";
   * the first slot that is missing (IndexOutOfBounds) or unset (NullPointer)
   * decides the exception.
   */
  function Render(fields: seq<Option<Field>>, n: nat, render: Field -> string): Result<string> {
    if n == 0 then Ok("")
    else
      match Render(fields, n - 1, render)
      case Err(e) => Err(e)
      case Ok(s) =>
        if n - 1 >= |fields| then Err(IndexOutOfBounds)
        else if fields[n - 1].None? then Err(NullPointer)
        else Ok(s + render(fields[n - 1].value) + " ")
  }

  /** Once rendering has failed, rendering more slots fails the same way. */
  lemma {:induction false} RenderStaysFailed(fields: seq<Option<Field>>, m: nat, n: nat, render: Field -> string)
    requires m <= n && Render(fields, m, render).Err?
    ensures Render(fields, n, render) == Render(fields, m, render)
    decreases n - m
  {
    if m < n {
      RenderStaysFailed(fields, m, n - 1, render);
    }
  }

  /** Slot `j` is missing or unset. */
  predicate Unprintable(fields: seq<Option<Field>>, j: nat) {
    j >= |fields| || fields[j].None?
  }

  /** Rendering fails exactly when one of the first `n` slots is missing or unset. */
  lemma {:induction false} RenderFailsIff(fields: seq<Option<Field>>, n: nat, render: Field -> string)
    ensures Render(fields, n, render).Err? <==>
      exists j :: 0 <= j < n && Unprintable(fields, j)
  {
    if n > 0 {
      RenderFailsIff(fields, n - 1, render);
      var j := n - 1;
      if j >= |fields| || fields[j].None? {
        assert Render(fields, n, render).Err? by {
          if Render(fields, j, render).Ok? {
            assert Render(fields, n, render) == (if j >= |fields| then Err(IndexOutOfBounds) else Err(NullPointer));
          }
        }
        assert 0 <= j < n && Unprintable(fields, j);
      }
    }
  }

  /** A longer rendering extends a shorter one: the slots come out in order. */
  lemma {:induction false} RenderPrefix(fields: seq<Option<Field>>, m: nat, n: nat, render: Field -> string)
    requires m <= n && Render(fields, n, render).Ok?
    ensures Render(fields, m, render).Ok?
    ensures Render(fields, m, render).value <= Render(fields, n, render).value
    decreases n - m
  {
    if m < n {
      RenderPrefix(fields, m, n - 1, render);
      assert Render(fields, n - 1, render).Ok?;
    }
  }

  /** A fresh tuple of a non-empty schema does not print: its first slot is unset. */
  lemma FreshTupleDoesNotRender(td: TupleDesc, render: Field -> string)
    requires td.NumFields() > 0
    ensures Render(seq(td.NumFields(), _ => None), td.NumFields(), render) == Err(NullPointer)
  {
    var fields: seq<Option<Field>> := seq(td.NumFields(), _ => None);
    assert Render(fields, 1, render) == Err(NullPointer);
    RenderStaysFailed(fields, 1, td.NumFields(), render);
  }
}
