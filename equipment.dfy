/** The equipment registry (`equipmentController.js`): create, list, get and
    partial update of equipment rows, each read carrying the derived
    `open_request_count`. */
module EquipmentRegistry {
  import opened Json
  import opened Http
  import opened Seqs
  import opened Schema
  import opened Updates

  /** The row `createEquipment` inserts: every recognised field taken from the
      body or null, and nothing else. */
  function NewEquipment(id: int, body: Body): (row: EquipmentRow)
    ensures row.id == id
    ensures forall f :: f in EquipmentFields ==> EquipmentColumn(row, f) == OrNull(body, f)
  {
    EquipmentRow(id,
      OrNull(body, "name"), OrNull(body, "serial_number"), OrNull(body, "category"),
      OrNull(body, "purchase_date"), OrNull(body, "warranty_info"), OrNull(body, "location"),
      OrNull(body, "department"), OrNull(body, "assigned_employee"),
      OrNull(body, "maintenance_team_id"), OrNull(body, "is_scrapped"))
  }

  /** Keys outside the recognised fields have no effect on the inserted row. */
  lemma NewEquipmentIgnoresOtherKeys(id: int, body: Body, other: Body)
    requires forall f :: f in EquipmentFields ==> OrNull(body, f) == OrNull(other, f)
    ensures NewEquipment(id, body) == NewEquipment(id, other)
  {
    var a, b := NewEquipment(id, body), NewEquipment(id, other);
    forall f | f in EquipmentFields ensures EquipmentColumn(a, f) == EquipmentColumn(b, f) {}
    assert EquipmentColumn(a, "name") == EquipmentColumn(b, "name");
  }

  /** `createEquipment`: inserts the row under the next serial id and returns it. */
  method CreateEquipment(db: Store, body: Body) returns (row: EquipmentRow)
    requires db.Valid()
    modifies db`equipment, db`nextEquipmentId
    ensures db.Valid()
    ensures row == NewEquipment(old(db.nextEquipmentId), body)
    ensures row.id !in old(db.equipment)
    ensures db.equipment == old(db.equipment)[row.id := row]
  {
    row := NewEquipment(db.nextEquipmentId, body);
    db.equipment := db.equipment[row.id := row];
    db.nextEquipmentId := db.nextEquipmentId + 1;
  }

  /** The join condition: the request names the equipment id. */
  predicate References(r: RequestRow, equipmentId: int) {
    AsId(r.equipmentId) == Some(equipmentId)
  }

  /** Status other than `repaired`: false for a null status, as in SQL. */
  predicate IsOpen(r: RequestRow) {
    r.status != Null && r.status != Str("repaired")
  }

  /** The requests `open_request_count` counts for an equipment id. */
  function OpenFor(equipmentId: int): RequestRow -> bool {
    (r: RequestRow) => References(r, equipmentId) && IsOpen(r)
  }

  /** `open_request_count`: the number of requests that reference the equipment
      and are open, counted over a scan of the request table. */
  ghost function OpenRequestCount(requests: map<int, RequestRow>, equipmentId: int): (n: nat)
    ensures n == |KeysWhere(requests, OpenFor(equipmentId))|
  {
    RowsFilterCount(requests, OpenFor(equipmentId));
    |Filter(Rows(requests), OpenFor(equipmentId))|
  }

  /** An equipment row as the list and get endpoints return it. */
  datatype EquipmentView = EquipmentView(row: EquipmentRow, openRequestCount: nat)

  ghost function View(requests: map<int, RequestRow>, row: EquipmentRow): EquipmentView {
    EquipmentView(row, OpenRequestCount(requests, row.id))
  }

  ghost predicate KeyedById(equipment: map<int, EquipmentRow>) {
    forall k :: k in equipment ==> equipment[k].id == k
  }

  /** `listEquipment`: every equipment row, annotated, by id descending. */
  ghost function ListEquipment(equipment: map<int, EquipmentRow>, requests: map<int, RequestRow>): (list: seq<EquipmentView>)
    requires KeyedById(equipment)
    ensures |list| == |equipment|
    ensures forall i, j :: 0 <= i < j < |list| ==> list[i].row.id > list[j].row.id
    ensures forall i :: 0 <= i < |list| ==> list[i].row.id in equipment && list[i] == View(requests, equipment[list[i].row.id])
  {
    var ids := Descending(equipment.Keys);
    var list := Views(equipment, requests, ids);
    assert forall i :: 0 <= i < |list| ==> list[i].row.id == ids[i] by {
      forall i | 0 <= i < |list| ensures list[i].row.id == ids[i] {
        assert list[i] == View(requests, equipment[ids[i]]);
      }
    }
    list
  }

  /** The annotated rows at the given keys, in that order. */
  ghost function Views(equipment: map<int, EquipmentRow>, requests: map<int, RequestRow>, ids: seq<int>): (list: seq<EquipmentView>)
    requires forall i :: 0 <= i < |ids| ==> ids[i] in equipment
    ensures |list| == |ids|
    ensures forall i :: 0 <= i < |ids| ==> list[i] == View(requests, equipment[ids[i]])
  {
    seq(|ids|, i requires 0 <= i < |ids| => View(requests, equipment[ids[i]]))
  }

  /** No equipment row is missing from the list. */
  lemma ListEquipmentComplete(equipment: map<int, EquipmentRow>, requests: map<int, RequestRow>, id: int)
    requires KeyedById(equipment) && id in equipment
    ensures View(requests, equipment[id]) in ListEquipment(equipment, requests)
  {
    var ids := Descending(equipment.Keys);
    var i := IndexIn(ids, id);
    assert ListEquipment(equipment, requests)[i] == View(requests, equipment[id]);
  }

  function IndexIn(s: seq<int>, x: int): (i: nat)
    requires x in s
    ensures i < |s| && s[i] == x
  {
    if s[0] == x then 0 else 1 + IndexIn(s[1..], x)
  }

  /** `getEquipment`: the annotated row, or 404 when the id is absent. */
  ghost function GetEquipment(equipment: map<int, EquipmentRow>, requests: map<int, RequestRow>, id: int): (r: Result<EquipmentView>)
    ensures r.Ok? <==> id in equipment
    ensures r.Ok? ==> r.value.row == equipment[id] && r.value.openRequestCount == OpenRequestCount(requests, id)
    ensures r.Err? ==> r.failure == RowNotFound
  {
    if id in equipment then Ok(EquipmentView(equipment[id], OpenRequestCount(requests, id))) else Err(RowNotFound)
  }

  /** Get returns exactly the entry the list holds for that id. */
  lemma GetMatchesList(equipment: map<int, EquipmentRow>, requests: map<int, RequestRow>, id: int)
    requires KeyedById(equipment)
    ensures GetEquipment(equipment, requests, id).Ok? ==> GetEquipment(equipment, requests, id).value in ListEquipment(equipment, requests)
    ensures forall v :: v in ListEquipment(equipment, requests) && v.row.id == id ==> GetEquipment(equipment, requests, id) == Ok(v)
  {
    if id in equipment {
      ListEquipmentComplete(equipment, requests, id);
    }
  }

  /** The update leaves the row's id, sets every recognised column the body
      carries (whatever its value), and keeps every other column. */
  lemma UpdatedEquipment(row: EquipmentRow, body: Body)
    ensures ApplyToEquipment(row, Assignments(EquipmentFields, body)).id == row.id
    ensures forall f :: f in EquipmentFields ==>
      EquipmentColumn(ApplyToEquipment(row, Assignments(EquipmentFields, body)), f)
        == if f in body then body[f] else EquipmentColumn(row, f)
  {
    forall f | f in EquipmentFields
      ensures EquipmentColumn(ApplyToEquipment(row, Assignments(EquipmentFields, body)), f)
           == if f in body then body[f] else EquipmentColumn(row, f)
    {
      EquipmentColumnAfter(row, EquipmentFields, body, f);
    }
  }

  /** `is_scrapped` is an ordinary field here: an update can set it to false again. */
  lemma UpdateCanClearScrapped(row: EquipmentRow)
    requires row.isScrapped == Bool(true)
    ensures ApplyToEquipment(row, Assignments(EquipmentFields, map["is_scrapped" := Bool(false)])).isScrapped == Bool(false)
  {
    UpdatedEquipment(row, map["is_scrapped" := Bool(false)]);
    assert EquipmentColumn(ApplyToEquipment(row, Assignments(EquipmentFields, map["is_scrapped" := Bool(false)])), "is_scrapped") == Bool(false);
  }

  /** `updateEquipment`: 400 when the body has no recognised field, 404 when the
      id is absent, otherwise the row with the supplied columns replaced. */
  method UpdateEquipment(db: Store, id: int, body: Body) returns (r: Result<EquipmentRow>)
    requires db.Valid()
    modifies db`equipment
    ensures db.Valid()
    ensures Assignments(EquipmentFields, body) == [] ==> r == Err(NoUpdates) && db.equipment == old(db.equipment)
    ensures Assignments(EquipmentFields, body) != [] && id !in old(db.equipment) ==>
      r == Err(RowNotFound) && db.equipment == old(db.equipment)
    ensures Assignments(EquipmentFields, body) != [] && id in old(db.equipment) ==>
      && r == Ok(ApplyToEquipment(old(db.equipment)[id], Assignments(EquipmentFields, body)))
      && db.equipment == old(db.equipment)[id := r.value]
  {
    var columns, params := CollectAssignments(EquipmentFields, body);
    if |columns| == 0 {
      return Err(NoUpdates);
    }
    if id !in db.equipment {
      return Err(RowNotFound);
    }
    var updated := ApplyToEquipment(db.equipment[id], Zip(columns, params));
    db.equipment := db.equipment[id := updated];
    r := Ok(updated);
  }
}
