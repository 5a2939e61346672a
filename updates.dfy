/** The partial-update rule both controllers share: the `forEach` over
    `baseFields` that collects one `field = $n` assignment per recognised field
    present in the body, and the `UPDATE ... SET` that applies them to a row. */
module Updates {
  import opened Json
  import opened Schema

  /** A column name paired with the value bound to its placeholder. */
  type Assignment = (string, Val)

  /** The assignments for `body`, in field order: one for every field of `fields`
      that is a key of `body` (`field in req.body`), even when its value is null. */
  function Assignments(fields: seq<string>, body: Body): (ups: seq<Assignment>)
    ensures |ups| <= |fields|
    ensures forall i :: 0 <= i < |ups| ==> ups[i].0 in fields && ups[i].0 in body && ups[i].1 == body[ups[i].0]
    ensures ups == [] <==> forall f :: f in fields ==> f !in body
    ensures forall f :: f in fields && f in body ==> (f, body[f]) in ups
  {
    if fields == [] then []
    else
      var init, last := fields[..|fields| - 1], fields[|fields| - 1];
      assert fields == init + [last];
      Assignments(init, body) + if last in body then [(last, body[last])] else []
  }

  /** With duplicate-free fields, as `baseFields` is, no column is assigned twice. */
  lemma {:induction false} AssignmentsDistinct(fields: seq<string>, body: Body)
    requires forall i, j :: 0 <= i < j < |fields| ==> fields[i] != fields[j]
    ensures var ups := Assignments(fields, body);
      forall i, j :: 0 <= i < j < |ups| ==> ups[i].0 != ups[j].0
  {
    if fields != [] {
      var init, last := fields[..|fields| - 1], fields[|fields| - 1];
      assert fields == init + [last];
      DistinctSnoc(init, last);
      AssignmentsDistinct(init, body);
      AssignmentsSnoc(init, last, body);
    }
  }

  /** A duplicate-free list stays duplicate-free without its last element, which it does not repeat. */
  lemma DistinctSnoc(init: seq<string>, last: string)
    ensures (forall i, j :: 0 <= i < j < |init + [last]| ==> (init + [last])[i] != (init + [last])[j]) ==>
      && (forall i, j :: 0 <= i < j < |init| ==> init[i] != init[j])
      && last !in init
  {
    var fields := init + [last];
    if forall i, j :: 0 <= i < j < |fields| ==> fields[i] != fields[j] {
      forall i, j | 0 <= i < j < |init| ensures init[i] != init[j] {
        assert init[i] == fields[i] && init[j] == fields[j];
      }
      forall i | 0 <= i < |init| ensures init[i] != last {
        assert init[i] == fields[i] && last == fields[|fields| - 1];
      }
    }
  }

  /** Neither controller's SET clause names a column twice, whatever the body. */
  lemma NoColumnTwice(body: Body)
    ensures var ups := Assignments(EquipmentFields, body);
      forall i, j :: 0 <= i < j < |ups| ==> ups[i].0 != ups[j].0
    ensures var ups := Assignments(RequestFields, body);
      forall i, j :: 0 <= i < j < |ups| ==> ups[i].0 != ups[j].0
  {
    AssignmentsDistinct(EquipmentFields, body);
    AssignmentsDistinct(RequestFields, body);
  }

  /** Pairs the SET clause's columns with the parameters bound to them. */
  function Zip(columns: seq<string>, params: seq<Val>): (ups: seq<Assignment>)
    requires |columns| == |params|
    ensures |ups| == |columns|
    ensures forall i :: 0 <= i < |ups| ==> ups[i] == (columns[i], params[i])
  {
    seq(|columns|, i requires 0 <= i < |columns| => (columns[i], params[i]))
  }

  lemma ZipSnoc(columns: seq<string>, params: seq<Val>, column: string, param: Val)
    requires |columns| == |params|
    ensures Zip(columns + [column], params + [param]) == Zip(columns, params) + [(column, param)]
  {
  }

  /** The loop of `updateEquipment` and `updateRequest`: walks the recognised
      fields, pushing the body's value onto `params` and the column onto the
      SET clause for every field the body carries. */
  method CollectAssignments(fields: seq<string>, body: Body) returns (columns: seq<string>, params: seq<Val>)
    ensures |columns| == |params|
    ensures Zip(columns, params) == Assignments(fields, body)
  {
    columns, params := [], [];
    for k := 0 to |fields|
      invariant |columns| == |params|
      invariant Zip(columns, params) == Assignments(fields[..k], body)
    {
      var field := fields[k];
      assert fields[..k + 1] == fields[..k] + [field];
      AssignmentsSnoc(fields[..k], field, body);
      if field in body {
        ZipSnoc(columns, params, field, body[field]);
        params := params + [body[field]];
        columns := columns + [field];
      }
    }
    assert fields[..|fields|] == fields;
  }

  /** One more field adds its assignment at the end when the body carries it. */
  lemma AssignmentsSnoc(init: seq<string>, last: string, body: Body)
    ensures Assignments(init + [last], body) == Assignments(init, body) + if last in body then [(last, body[last])] else []
  {
    var fields := init + [last];
    assert fields[..|fields| - 1] == init;
  }

  /** The equipment update applied to one row, assignment by assignment. */
  function ApplyToEquipment(row: EquipmentRow, ups: seq<Assignment>): (r: EquipmentRow)
    ensures r.id == row.id
  {
    if ups == [] then row
    else
      var last := ups[|ups| - 1];
      SetEquipmentColumn(ApplyToEquipment(row, ups[..|ups| - 1]), last.0, last.1)
  }

  /** The request update applied to one row, assignment by assignment. */
  function ApplyToRequest(row: RequestRow, ups: seq<Assignment>): (r: RequestRow)
    ensures r.id == row.id && r.createdAt == row.createdAt
  {
    if ups == [] then row
    else
      var last := ups[|ups| - 1];
      SetRequestColumn(ApplyToRequest(row, ups[..|ups| - 1]), last.0, last.1)
  }

  /** After the update, a recognised column holds the body's value when the body
      carries it and its old value otherwise. */
  lemma {:induction false} EquipmentColumnAfter(row: EquipmentRow, fields: seq<string>, body: Body, g: string)
    requires g in EquipmentFields
    ensures EquipmentColumn(ApplyToEquipment(row, Assignments(fields, body)), g)
         == if g in fields && g in body then body[g] else EquipmentColumn(row, g)
  {
    if fields != [] {
      var init, last := fields[..|fields| - 1], fields[|fields| - 1];
      assert fields == init + [last];
      var before := Assignments(init, body);
      EquipmentColumnAfter(row, init, body, g);
      assert g in fields <==> g in init || g == last;
      if last in body {
        var ups := before + [(last, body[last])];
        assert Assignments(fields, body) == ups;
        assert ups[..|ups| - 1] == before;
      } else {
        assert Assignments(fields, body) == before;
      }
    }
  }

  /** The same rule for request rows. */
  lemma {:induction false} RequestColumnAfter(row: RequestRow, fields: seq<string>, body: Body, g: string)
    requires g in RequestFields
    ensures RequestColumn(ApplyToRequest(row, Assignments(fields, body)), g)
         == if g in fields && g in body then body[g] else RequestColumn(row, g)
  {
    if fields != [] {
      var init, last := fields[..|fields| - 1], fields[|fields| - 1];
      assert fields == init + [last];
      var before := Assignments(init, body);
      RequestColumnAfter(row, init, body, g);
      assert g in fields <==> g in init || g == last;
      if last in body {
        var ups := before + [(last, body[last])];
        assert Assignments(fields, body) == ups;
        assert ups[..|ups| - 1] == before;
      } else {
        assert Assignments(fields, body) == before;
      }
    }
  }
}
