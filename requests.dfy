/** The maintenance-request workflow (`requestsController.js`): creation with
    the team derived from the equipment, the filtered and ordered listing, get,
    and the partial update with its scrap cascade onto the equipment table. */
module RequestWorkflow {
  import opened Json
  import opened Http
  import opened Seqs
  import opened Schema
  import opened Updates

  /** `fetchEquipmentTeam`: the team of the equipment the value denotes, or null
      when no such equipment exists or its team is falsy. */
  function EquipmentTeam(equipment: map<int, EquipmentRow>, equipmentId: Val): (team: Val)
    ensures team == Null || Truthy(team)
    ensures Truthy(team) <==>
      AsId(equipmentId).Some? && AsId(equipmentId).value in equipment
      && Truthy(equipment[AsId(equipmentId).value].maintenanceTeamId)
    ensures Truthy(team) ==> team == equipment[AsId(equipmentId).value].maintenanceTeamId
  {
    match AsId(equipmentId)
    case Some(k) => if k in equipment then Or(equipment[k].maintenanceTeamId, Null) else Null
    case None => Null
  }

  /** The row `createRequest` inserts, column by column: the team comes from the
      equipment whenever `equipment_id` is truthy, a falsy status becomes `new`,
      and every other recognised field is taken from the body or null. */
  function NewRequest(equipment: map<int, EquipmentRow>, id: int, createdAt: int, body: Body): (row: RequestRow)
    ensures row.id == id && row.createdAt == createdAt
    ensures forall f :: f in RequestFields && f != "maintenance_team_id" && f != "status" ==>
      RequestColumn(row, f) == OrNull(body, f)
  {
    RequestRow(id,
      OrNull(body, "subject"), OrNull(body, "request_type"), OrNull(body, "equipment_id"),
      if TruthyAt(body, "equipment_id") then EquipmentTeam(equipment, body["equipment_id"])
      else OrNull(body, "maintenance_team_id"),
      OrNull(body, "assigned_technician"), OrNull(body, "scheduled_date"), OrNull(body, "duration_hours"),
      if TruthyAt(body, "status") then body["status"] else Str("new"),
      createdAt)
  }

  /** With a truthy `equipment_id`, the stored team is the equipment's (or null),
      whatever team the client sent. */
  lemma CreatedTeamIgnoresClient(equipment: map<int, EquipmentRow>, id: int, createdAt: int, body: Body, team: Val)
    requires TruthyAt(body, "equipment_id")
    ensures NewRequest(equipment, id, createdAt, body["maintenance_team_id" := team]).maintenanceTeamId
         == EquipmentTeam(equipment, body["equipment_id"])
    ensures NewRequest(equipment, id, createdAt, body).maintenanceTeamId
         == NewRequest(equipment, id, createdAt, body["maintenance_team_id" := team]).maintenanceTeamId
  {
    assert body["maintenance_team_id" := team]["equipment_id"] == body["equipment_id"];
  }

  /** Without a truthy `equipment_id`, the client's team (or null) is kept. */
  lemma CreatedTeamFromClient(equipment: map<int, EquipmentRow>, id: int, createdAt: int, body: Body)
    requires !TruthyAt(body, "equipment_id")
    ensures NewRequest(equipment, id, createdAt, body).maintenanceTeamId == OrNull(body, "maintenance_team_id")
  {
  }

  /** A created request is `new` exactly when the body's status is absent or falsy. */
  lemma CreatedStatus(equipment: map<int, EquipmentRow>, id: int, createdAt: int, body: Body)
    ensures TruthyAt(body, "status") ==> NewRequest(equipment, id, createdAt, body).status == body["status"]
    ensures !TruthyAt(body, "status") ==> NewRequest(equipment, id, createdAt, body).status == Str("new")
    ensures Truthy(NewRequest(equipment, id, createdAt, body).status)
  {
  }

  /** Keys outside the recognised fields have no effect on the created request. */
  lemma NewRequestIgnoresOtherKeys(equipment: map<int, EquipmentRow>, id: int, createdAt: int, body: Body, other: Body)
    requires forall f :: f in RequestFields ==> Get(body, f) == Get(other, f)
    ensures NewRequest(equipment, id, createdAt, body) == NewRequest(equipment, id, createdAt, other)
  {
    assert Get(body, "equipment_id") == Get(other, "equipment_id");
    assert Get(body, "status") == Get(other, "status");
    assert Get(body, "maintenance_team_id") == Get(other, "maintenance_team_id");
    forall f | f in RequestFields ensures OrNull(body, f) == OrNull(other, f) {
      assert Get(body, f) == Get(other, f);
    }
  }

  /** `createRequest`: copies the body into a payload, overwrites its team from
      the equipment when `equipment_id` is truthy, defaults a falsy status to
      `new`, and inserts the eight recognised fields under the next serial id,
      stamped with the clock. */
  method CreateRequest(db: Store, body: Body) returns (row: RequestRow)
    requires db.Valid()
    modifies db`requests, db`nextRequestId, db`clock
    ensures db.Valid()
    ensures row == NewRequest(db.equipment, old(db.nextRequestId), old(db.clock), body)
    ensures row.id !in old(db.requests)
    ensures db.requests == old(db.requests)[row.id := row]
    ensures forall k :: k in old(db.requests) ==> old(db.requests)[k].createdAt < row.createdAt
  {
    var payload := body;
    if TruthyAt(payload, "equipment_id") {
      var team := EquipmentTeam(db.equipment, payload["equipment_id"]);
      payload := payload["maintenance_team_id" := team];
    }
    if !TruthyAt(payload, "status") {
      payload := payload["status" := Str("new")];
    }
    row := RequestRow(db.nextRequestId,
      OrNull(payload, "subject"), OrNull(payload, "request_type"), OrNull(payload, "equipment_id"),
      OrNull(payload, "maintenance_team_id"), OrNull(payload, "assigned_technician"),
      OrNull(payload, "scheduled_date"), OrNull(payload, "duration_hours"), OrNull(payload, "status"),
      db.clock);
    db.requests := db.requests[row.id := row];
    db.nextRequestId := db.nextRequestId + 1;
    db.clock := db.clock + 1;
  }

  /** The value the scrap cascade resolves to, if any: only for a status of
      exactly `scrap`, the body's truthy `equipment_id`, else the request's
      stored one when it is truthy. */
  function ScrapTarget(requests: map<int, RequestRow>, id: int, body: Body): (target: Option<Val>)
    ensures target.Some? ==> Get(body, "status") == Some(Str("scrap")) && Truthy(target.value)
    ensures Get(body, "status") == Some(Str("scrap")) && TruthyAt(body, "equipment_id") ==>
      target == Some(body["equipment_id"])
    ensures Get(body, "status") == Some(Str("scrap")) && !TruthyAt(body, "equipment_id") ==>
      target == if id in requests && Truthy(requests[id].equipmentId) then Some(requests[id].equipmentId) else None
  {
    if Get(body, "status") != Some(Str("scrap")) then None
    else if TruthyAt(body, "equipment_id") then Some(body["equipment_id"])
    else if id in requests && Truthy(requests[id].equipmentId) then Some(requests[id].equipmentId)
    else None
  }

  /** The equipment key a resolved scrap target denotes, if that row exists. */
  function ScrapKey(equipment: map<int, EquipmentRow>, target: Option<Val>): (k: Option<int>)
    ensures k.Some? <==> target.Some? && AsId(target.value).Some? && AsId(target.value).value in equipment
    ensures k.Some? ==> k == AsId(target.value)
  {
    if target.Some? && AsId(target.value).Some? && AsId(target.value).value in equipment
    then AsId(target.value) else None
  }

  /** The cascade's write: the equipment row the resolved target denotes, if any,
      gets `is_scrapped` true. */
  function MarkScrapped(equipment: map<int, EquipmentRow>, target: Option<Val>): (after: map<int, EquipmentRow>)
    ensures after.Keys == equipment.Keys
    ensures forall k :: k in equipment ==>
      after[k] == if ScrapKey(equipment, target) == Some(k) then equipment[k].(isScrapped := Bool(true)) else equipment[k]
  {
    match ScrapKey(equipment, target)
    case Some(k) => equipment[k := equipment[k].(isScrapped := Bool(true))]
    case None => equipment
  }

  /** A status other than exactly `scrap` never touches the equipment table. */
  lemma NonScrapLeavesEquipment(equipment: map<int, EquipmentRow>, requests: map<int, RequestRow>, id: int, body: Body)
    requires Get(body, "status") != Some(Str("scrap"))
    ensures MarkScrapped(equipment, ScrapTarget(requests, id, body)) == equipment
  {
  }

  /** With status `scrap`, the equipment the body's truthy `equipment_id` names
      ends scrapped, and so does the request's stored equipment otherwise; every
      other equipment row is unchanged. */
  lemma ScrapMarksTarget(equipment: map<int, EquipmentRow>, requests: map<int, RequestRow>, id: int, body: Body, k: int)
    requires Get(body, "status") == Some(Str("scrap")) && k in equipment && k != 0
    requires || (TruthyAt(body, "equipment_id") && body["equipment_id"] == Num(k))
             || (!TruthyAt(body, "equipment_id") && id in requests && requests[id].equipmentId == Num(k))
    ensures MarkScrapped(equipment, ScrapTarget(requests, id, body))[k] == equipment[k].(isScrapped := Bool(true))
    ensures forall j :: j in equipment && j != k ==> MarkScrapped(equipment, ScrapTarget(requests, id, body))[j] == equipment[j]
  {
    assert ScrapKey(equipment, ScrapTarget(requests, id, body)) == Some(k);
  }

  /** When no id resolves, the cascade changes nothing. */
  lemma UnresolvedScrapLeavesEquipment(equipment: map<int, EquipmentRow>, requests: map<int, RequestRow>, id: int, body: Body)
    requires !TruthyAt(body, "equipment_id")
    requires id !in requests || !Truthy(requests[id].equipmentId)
    ensures MarkScrapped(equipment, ScrapTarget(requests, id, body)) == equipment
  {
  }

  /** The cascade does not depend on the request existing: an unknown request id
      with an explicit `equipment_id` still scraps that equipment. */
  lemma UnknownRequestStillScraps(equipment: map<int, EquipmentRow>, requests: map<int, RequestRow>, id: int, body: Body, k: int)
    requires id !in requests && k in equipment
    requires Get(body, "status") == Some(Str("scrap")) && Get(body, "equipment_id") == Some(Num(k)) && k != 0
    ensures MarkScrapped(equipment, ScrapTarget(requests, id, body))[k].isScrapped == Bool(true)
  {
    ScrapMarksTarget(equipment, requests, id, body, k);
  }

  /** The update leaves id and `created_at`, sets every recognised column the
      body carries (whatever its value), and keeps every other column. */
  lemma UpdatedRequest(row: RequestRow, body: Body)
    ensures ApplyToRequest(row, Assignments(RequestFields, body)).id == row.id
    ensures ApplyToRequest(row, Assignments(RequestFields, body)).createdAt == row.createdAt
    ensures forall f :: f in RequestFields ==>
      RequestColumn(ApplyToRequest(row, Assignments(RequestFields, body)), f)
        == if f in body then body[f] else RequestColumn(row, f)
  {
    forall f | f in RequestFields
      ensures RequestColumn(ApplyToRequest(row, Assignments(RequestFields, body)), f)
           == if f in body then body[f] else RequestColumn(row, f)
    {
      RequestColumnAfter(row, RequestFields, body, f);
    }
  }

  /** `updateRequest`: 400 with no change when the body has no recognised field;
      otherwise the scrap cascade runs first, on the equipment table, and then
      the request row is updated, or 404 when the id is absent. */
  method UpdateRequest(db: Store, id: int, body: Body) returns (r: Result<RequestRow>)
    requires db.Valid()
    modifies db`requests, db`equipment
    ensures db.Valid()
    ensures Assignments(RequestFields, body) == [] ==>
      r == Err(NoUpdates) && db.requests == old(db.requests) && db.equipment == old(db.equipment)
    ensures Assignments(RequestFields, body) != [] ==>
      db.equipment == MarkScrapped(old(db.equipment), ScrapTarget(old(db.requests), id, body))
    ensures Assignments(RequestFields, body) != [] && id !in old(db.requests) ==>
      r == Err(RowNotFound) && db.requests == old(db.requests)
    ensures Assignments(RequestFields, body) != [] && id in old(db.requests) ==>
      && r == Ok(ApplyToRequest(old(db.requests)[id], Assignments(RequestFields, body)))
      && db.requests == old(db.requests)[id := r.value]
  {
    var columns, params := CollectAssignments(RequestFields, body);
    if |columns| == 0 {
      return Err(NoUpdates);
    }
    CascadeScrap(db, id, body);
    if id !in db.requests {
      return Err(RowNotFound);
    }
    var updated := ApplyToRequest(db.requests[id], Zip(columns, params));
    db.requests := db.requests[id := updated];
    r := Ok(updated);
  }

  /** The scrap step of `updateRequest`: for a status of exactly `scrap`,
      resolves the equipment id from the body, else from the stored request,
      and marks that equipment scrapped when the id is truthy. */
  method CascadeScrap(db: Store, id: int, body: Body)
    requires db.Valid()
    modifies db`equipment
    ensures db.Valid()
    ensures db.equipment == MarkScrapped(old(db.equipment), ScrapTarget(db.requests, id, body))
  {
    if Get(body, "status") == Some(Str("scrap")) {
      var eqId: Val;
      if TruthyAt(body, "equipment_id") {
        eqId := body["equipment_id"];
      } else if id in db.requests {
        eqId := Or(db.requests[id].equipmentId, Null);
      } else {
        eqId := Null;
      }
      if Truthy(eqId) && AsId(eqId).Some? && AsId(eqId).value in db.equipment {
        var k := AsId(eqId).value;
        db.equipment := db.equipment[k := db.equipment[k].(isScrapped := Bool(true))];
      }
    }
  }

  /** `getRequest`: the stored row, or 404. */
  function GetRequest(requests: map<int, RequestRow>, id: int): (r: Result<RequestRow>)
    ensures r.Ok? <==> id in requests
    ensures r.Ok? ==> r.value == requests[id]
    ensures r.Err? ==> r.failure == RowNotFound
  {
    if id in requests then Ok(requests[id]) else Err(RowNotFound)
  }

  /** A listed request: the row with the names its two LEFT JOINs bring in. */
  datatype ListedRequest = ListedRequest(row: RequestRow, equipmentName: Val, technicianName: Val, avatarUrl: Val)

  /** The listing's two left joins: the name of the equipment the request names,
      and the name and avatar of its assigned technician; null where no row matches. */
  function Joined(r: RequestRow, equipment: map<int, EquipmentRow>, users: map<int, User>): (l: ListedRequest)
    ensures l.row == r
    ensures forall k :: k in equipment && AsId(r.equipmentId) == Some(k) ==> l.equipmentName == equipment[k].name
    ensures (forall k :: k in equipment ==> AsId(r.equipmentId) != Some(k)) ==> l.equipmentName == Null
    ensures forall k :: k in users && AsId(r.assignedTechnician) == Some(k) ==>
      l.technicianName == users[k].name && l.avatarUrl == users[k].avatarUrl
    ensures (forall k :: k in users ==> AsId(r.assignedTechnician) != Some(k)) ==>
      l.technicianName == Null && l.avatarUrl == Null
  {
    var e := AsId(r.equipmentId);
    var u := AsId(r.assignedTechnician);
    ListedRequest(r,
      if e.Some? && e.value in equipment then equipment[e.value].name else Null,
      if u.Some? && u.value in users then users[u.value].name else Null,
      if u.Some? && u.value in users then users[u.value].avatarUrl else Null)
  }

  /** The condition of `listRequests`: status equal to the query parameter when
      that parameter is truthy, no condition otherwise. */
  function StatusFilter(status: Option<string>): RequestRow -> bool {
    if status.Some? && status.value != "" then (r: RequestRow) => r.status == Str(status.value)
    else (r: RequestRow) => true
  }

  function CreatedAt(r: RequestRow): int {
    r.createdAt
  }

  ghost predicate KeyedRequests(requests: map<int, RequestRow>) {
    forall k :: k in requests ==> requests[k].id == k
  }

  /** `listRequests`: the selected requests, joined, newest first. */
  ghost function ListRequests(requests: map<int, RequestRow>, equipment: map<int, EquipmentRow>, users: map<int, User>,
                              status: Option<string>): (list: seq<ListedRequest>)
    requires KeyedRequests(requests)
    ensures |list| == |KeysWhere(requests, StatusFilter(status))|
    ensures forall i, j :: 0 <= i < j < |list| ==> list[i].row.createdAt >= list[j].row.createdAt
    ensures forall i :: 0 <= i < |list| ==>
      && list[i].row.id in requests && requests[list[i].row.id] == list[i].row
      && StatusFilter(status)(list[i].row)
      && list[i] == Joined(list[i].row, equipment, users)
  {
    var ordered := NewestFirst(requests, StatusFilter(status));
    SelectedRows(requests, StatusFilter(status), ordered);
    JoinAll(ordered, equipment, users)
  }

  /** The rows a filter selects, ordered by `created_at` descending. */
  ghost function NewestFirst(requests: map<int, RequestRow>, p: RequestRow -> bool): (ordered: seq<RequestRow>)
    ensures multiset(ordered) == multiset(Filter(Rows(requests), p))
    ensures forall i, j :: 0 <= i < j < |ordered| ==> ordered[i].createdAt >= ordered[j].createdAt
  {
    var ordered := SortDesc(Filter(Rows(requests), p), CreatedAt);
    NewestFirstOrder(ordered);
    ordered
  }

  /** Sorted by the `created_at` key, the stamps do not increase along the sequence. */
  lemma NewestFirstOrder(ordered: seq<RequestRow>)
    requires SortedDesc(ordered, CreatedAt)
    ensures forall i, j :: 0 <= i < j < |ordered| ==> ordered[i].createdAt >= ordered[j].createdAt
  {
    forall i, j | 0 <= i < j < |ordered| ensures ordered[i].createdAt >= ordered[j].createdAt {
      assert CreatedAt(ordered[i]) >= CreatedAt(ordered[j]);
    }
  }

  /** The two LEFT JOINs applied to every row of a result, in order. */
  function JoinAll(rows: seq<RequestRow>, equipment: map<int, EquipmentRow>, users: map<int, User>): (list: seq<ListedRequest>)
    ensures |list| == |rows|
    ensures forall i :: 0 <= i < |rows| ==> list[i] == Joined(rows[i], equipment, users) && list[i].row == rows[i]
  {
    seq(|rows|, i requires 0 <= i < |rows| => Joined(rows[i], equipment, users))
  }

  /** Any arrangement of the filtered scan holds as many rows as the filter
      selects, each of them a stored row that satisfies it. */
  lemma SelectedRows(requests: map<int, RequestRow>, p: RequestRow -> bool, ordered: seq<RequestRow>)
    requires KeyedRequests(requests)
    requires multiset(ordered) == multiset(Filter(Rows(requests), p))
    ensures |ordered| == |KeysWhere(requests, p)|
    ensures forall i :: 0 <= i < |ordered| ==> ordered[i].id in requests && requests[ordered[i].id] == ordered[i] && p(ordered[i])
  {
    var selected := Filter(Rows(requests), p);
    RowsFilterCount(requests, p);
    assert |ordered| == |multiset(ordered)| == |selected|;
    forall i | 0 <= i < |ordered| ensures ordered[i].id in requests && requests[ordered[i].id] == ordered[i] && p(ordered[i]) {
      assert ordered[i] in multiset(ordered);
      assert ordered[i] in selected;
      RowsFrom(requests, ordered[i]);
    }
  }

  /** Every selected request appears in the list. */
  lemma ListRequestsComplete(requests: map<int, RequestRow>, equipment: map<int, EquipmentRow>, users: map<int, User>,
                             status: Option<string>, k: int)
    requires KeyedRequests(requests) && k in requests && StatusFilter(status)(requests[k])
    ensures Joined(requests[k], equipment, users) in ListRequests(requests, equipment, users, status)
  {
    var ordered := NewestFirst(requests, StatusFilter(status));
    RowsHold(requests, k);
    assert requests[k] in multiset(ordered);
    var i :| 0 <= i < |ordered| && ordered[i] == requests[k];
    assert ListRequests(requests, equipment, users, status)[i] == Joined(requests[k], equipment, users);
  }

  /** Without a truthy status parameter every request is listed. */
  lemma ListAllWhenUnfiltered(requests: map<int, RequestRow>, equipment: map<int, EquipmentRow>, users: map<int, User>,
                              status: Option<string>)
    requires KeyedRequests(requests)
    requires status == None || status == Some("")
    ensures |ListRequests(requests, equipment, users, status)| == |requests|
  {
    assert KeysWhere(requests, StatusFilter(status)) == requests.Keys;
  }
}
