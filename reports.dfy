/** Report aggregation (`reportsController.js`): request counts grouped by
    maintenance team, by equipment category and by request type, as pure
    functions over the tables. */
module Reports {
  import opened Json
  import opened Seqs
  import opened Schema

  /** The four statuses the reports break a count down by. */
  predicate KnownStatus(r: RequestRow) {
    r.status == Str("new") || r.status == Str("in_progress") || r.status == Str("repaired") || r.status == Str("scrap")
  }

  /** The counters of one group: the request count and the conditional counts. */
  datatype Counts = Counts(total: nat, newCount: nat, inProgress: nat, repaired: nat, scrap: nat,
                           corrective: nat, preventive: nat)

  /** 1 when the condition holds, else 0: one row's contribution to a
      `COUNT(CASE WHEN ... THEN 1 END)`. A null column meets no condition. */
  function Indicator(holds: bool): nat {
    if holds then 1 else 0
  }

  /** The counters over the rows of one group, row by row: every row adds one to
      the request count and to each conditional count whose condition it meets. */
  function Tally(rows: seq<RequestRow>): Counts {
    if rows == [] then Counts(0, 0, 0, 0, 0, 0, 0)
    else
      var c, r := Tally(rows[..|rows| - 1]), rows[|rows| - 1];
      Counts(c.total + 1,
        c.newCount + Indicator(r.status == Str("new")),
        c.inProgress + Indicator(r.status == Str("in_progress")),
        c.repaired + Indicator(r.status == Str("repaired")),
        c.scrap + Indicator(r.status == Str("scrap")),
        c.corrective + Indicator(r.requestType == Str("corrective")),
        c.preventive + Indicator(r.requestType == Str("preventive")))
  }

  /** The request count is the number of rows; the four status counters never
      add up to more, and add up to exactly that when every status is one of the four. */
  lemma {:induction false} StatusCountsBound(rows: seq<RequestRow>)
    ensures Tally(rows).total == |rows|
    ensures var c := Tally(rows); c.newCount + c.inProgress + c.repaired + c.scrap <= c.total
    ensures (forall i :: 0 <= i < |rows| ==> KnownStatus(rows[i])) ==>
      var c := Tally(rows); c.newCount + c.inProgress + c.repaired + c.scrap == c.total
  {
    if rows != [] {
      var init := rows[..|rows| - 1];
      StatusCountsBound(init);
      if forall i :: 0 <= i < |rows| ==> KnownStatus(rows[i]) {
        assert KnownStatus(rows[|rows| - 1]);
        assert forall i :: 0 <= i < |init| ==> KnownStatus(init[i]) by {
          forall i | 0 <= i < |init| ensures KnownStatus(init[i]) {
            assert init[i] == rows[i];
          }
        }
      }
    }
  }

  /** The corrective and preventive counters never add up to more than the rows. */
  lemma {:induction false} TypeCountsBound(rows: seq<RequestRow>)
    ensures var c := Tally(rows); c.corrective + c.preventive <= c.total
  {
    if rows != [] {
      TypeCountsBound(rows[..|rows| - 1]);
    }
  }

  /** The condition of a status column's `CASE WHEN status = ...`. */
  function StatusIs(status: string): RequestRow -> bool {
    (r: RequestRow) => r.status == Str(status)
  }

  /** The condition of a type column's `CASE WHEN request_type = ...`. */
  function TypeIs(requestType: string): RequestRow -> bool {
    (r: RequestRow) => r.requestType == Str(requestType)
  }

  /** Each conditional counter is the number of rows meeting its condition. */
  lemma {:induction false} TallyColumns(rows: seq<RequestRow>)
    ensures Tally(rows).newCount == |Filter(rows, StatusIs("new"))|
    ensures Tally(rows).inProgress == |Filter(rows, StatusIs("in_progress"))|
    ensures Tally(rows).repaired == |Filter(rows, StatusIs("repaired"))|
    ensures Tally(rows).scrap == |Filter(rows, StatusIs("scrap"))|
    ensures Tally(rows).corrective == |Filter(rows, TypeIs("corrective"))|
    ensures Tally(rows).preventive == |Filter(rows, TypeIs("preventive"))|
  {
    if rows != [] {
      var init, last := rows[..|rows| - 1], rows[|rows| - 1];
      assert rows == init + [last];
      TallyColumns(init);
      FilterSnoc(init, last, StatusIs("new"));
      FilterSnoc(init, last, StatusIs("in_progress"));
      FilterSnoc(init, last, StatusIs("repaired"));
      FilterSnoc(init, last, StatusIs("scrap"));
      FilterSnoc(init, last, TypeIs("corrective"));
      FilterSnoc(init, last, TypeIs("preventive"));
    }
  }

  /** Every request of the group has one of the four statuses. */
  ghost predicate GroupKnown(requests: map<int, RequestRow>, inGroup: RequestRow -> bool) {
    forall k :: k in requests && inGroup(requests[k]) ==> KnownStatus(requests[k])
  }

  /** The counters of a group, over a scan of the request table filtered by the
      join condition: the total is the number of requests the condition selects. */
  ghost function GroupCounts(requests: map<int, RequestRow>, inGroup: RequestRow -> bool): (c: Counts)
    ensures c.total == |KeysWhere(requests, inGroup)|
    ensures c.newCount == |KeysWhere(requests, Both(inGroup, StatusIs("new")))|
    ensures c.inProgress == |KeysWhere(requests, Both(inGroup, StatusIs("in_progress")))|
    ensures c.repaired == |KeysWhere(requests, Both(inGroup, StatusIs("repaired")))|
    ensures c.scrap == |KeysWhere(requests, Both(inGroup, StatusIs("scrap")))|
    ensures c.corrective == |KeysWhere(requests, Both(inGroup, TypeIs("corrective")))|
    ensures c.preventive == |KeysWhere(requests, Both(inGroup, TypeIs("preventive")))|
    ensures c.newCount + c.inProgress + c.repaired + c.scrap <= c.total
    ensures GroupKnown(requests, inGroup) ==> c.newCount + c.inProgress + c.repaired + c.scrap == c.total
    ensures c.corrective + c.preventive <= c.total
  {
    var rows := Filter(Rows(requests), inGroup);
    RowsFilterCount(requests, inGroup);
    StatusCountsBound(rows);
    TypeCountsBound(rows);
    GroupRowsKnown(requests, inGroup);
    TallyColumns(rows);
    ScanCount(requests, inGroup, StatusIs("new"));
    ScanCount(requests, inGroup, StatusIs("in_progress"));
    ScanCount(requests, inGroup, StatusIs("repaired"));
    ScanCount(requests, inGroup, StatusIs("scrap"));
    ScanCount(requests, inGroup, TypeIs("corrective"));
    ScanCount(requests, inGroup, TypeIs("preventive"));
    Tally(rows)
  }

  /** When every request of the group has a known status, so does every row of its scan. */
  lemma GroupRowsKnown(requests: map<int, RequestRow>, inGroup: RequestRow -> bool)
    ensures GroupKnown(requests, inGroup) ==>
      var rows := Filter(Rows(requests), inGroup); forall i :: 0 <= i < |rows| ==> KnownStatus(rows[i])
  {
    if GroupKnown(requests, inGroup) {
      var rows := Filter(Rows(requests), inGroup);
      forall i | 0 <= i < |rows| ensures KnownStatus(rows[i]) {
        FilteredRowFrom(requests, inGroup, rows[i]);
      }
    }
  }

  /** A group no request falls into counts zero everywhere. */
  lemma EmptyGroupZero(requests: map<int, RequestRow>, inGroup: RequestRow -> bool)
    requires forall k :: k in requests ==> !inGroup(requests[k])
    ensures GroupCounts(requests, inGroup) == Counts(0, 0, 0, 0, 0, 0, 0)
  {
    forall k ensures k !in KeysWhere(requests, inGroup) {}
    assert KeysWhere(requests, inGroup) == {};
  }

  // ---- by team ----

  /** The join condition of the by-team report: the request names the team. */
  function OnTeam(teamId: int): RequestRow -> bool {
    (r: RequestRow) => AsId(r.maintenanceTeamId) == Some(teamId)
  }

  datatype TeamRow = TeamRow(teamName: string, requestCount: nat, newCount: nat, inProgressCount: nat,
                             repairedCount: nat, scrapCount: nat)

  /** One team's row of the by-team report. */
  ghost function TeamStats(team: Team, requests: map<int, RequestRow>): (row: TeamRow)
    ensures row.teamName == team.name
    ensures row.requestCount == |KeysWhere(requests, OnTeam(team.id))|
    ensures row.newCount == |KeysWhere(requests, Both(OnTeam(team.id), StatusIs("new")))|
    ensures row.inProgressCount == |KeysWhere(requests, Both(OnTeam(team.id), StatusIs("in_progress")))|
    ensures row.repairedCount == |KeysWhere(requests, Both(OnTeam(team.id), StatusIs("repaired")))|
    ensures row.scrapCount == |KeysWhere(requests, Both(OnTeam(team.id), StatusIs("scrap")))|
    ensures row.newCount + row.inProgressCount + row.repairedCount + row.scrapCount <= row.requestCount
    ensures GroupKnown(requests, OnTeam(team.id)) ==>
      row.newCount + row.inProgressCount + row.repairedCount + row.scrapCount == row.requestCount
  {
    var c := GroupCounts(requests, OnTeam(team.id));
    TeamRow(team.name, c.total, c.newCount, c.inProgress, c.repaired, c.scrap)
  }

  /** A team no request names still has its row, with every count zero. */
  lemma IdleTeamZero(team: Team, requests: map<int, RequestRow>)
    requires forall k :: k in requests ==> AsId(requests[k].maintenanceTeamId) != Some(team.id)
    ensures TeamStats(team, requests) == TeamRow(team.name, 0, 0, 0, 0, 0)
  {
    EmptyGroupZero(requests, OnTeam(team.id));
  }

  /** A team whose only request is scrapped reports one request, counted as scrap. */
  lemma OneScrappedRequest(team: Team, k: int, r: RequestRow)
    requires AsId(r.maintenanceTeamId) == Some(team.id) && r.status == Str("scrap")
    ensures TeamStats(team, map[k := r]) == TeamRow(team.name, 1, 0, 0, 0, 1)
  {
    var requests := map[k := r];
    var onTeam := OnTeam(team.id);
    assert KeysWhere(requests, onTeam) == {k};
    assert KeysWhere(requests, Both(onTeam, StatusIs("scrap"))) == {k};
    assert KeysWhere(requests, Both(onTeam, StatusIs("new"))) == {};
    assert KeysWhere(requests, Both(onTeam, StatusIs("in_progress"))) == {};
    assert KeysWhere(requests, Both(onTeam, StatusIs("repaired"))) == {};
  }

  function TeamRequestCount(row: TeamRow): int {
    row.requestCount
  }

  ghost function TeamRows(teams: map<int, Team>, requests: map<int, RequestRow>): (rows: seq<TeamRow>)
    ensures |rows| == |teams|
  {
    var ts := Rows(teams);
    seq(|ts|, i requires 0 <= i < |ts| => TeamStats(ts[i], requests))
  }

  /** `getRequestsByTeam`: one row per team, by request count descending. */
  ghost function ByTeam(teams: map<int, Team>, requests: map<int, RequestRow>): (report: seq<TeamRow>)
    ensures |report| == |teams|
    ensures forall i, j :: 0 <= i < j < |report| ==> report[i].requestCount >= report[j].requestCount
    ensures forall row :: row in report <==> row in TeamRows(teams, requests)
  {
    var report := SortDesc(TeamRows(teams, requests), TeamRequestCount);
    SameElements(report, TeamRows(teams, requests));
    assert forall i, j :: 0 <= i < j < |report| ==> report[i].requestCount >= report[j].requestCount by {
      forall i, j | 0 <= i < j < |report| ensures report[i].requestCount >= report[j].requestCount {
        assert TeamRequestCount(report[i]) >= TeamRequestCount(report[j]);
      }
    }
    report
  }

  /** Every team has its row in the by-team report. */
  lemma ByTeamComplete(teams: map<int, Team>, requests: map<int, RequestRow>, k: int)
    requires k in teams
    ensures TeamStats(teams[k], requests) in ByTeam(teams, requests)
  {
    var ts := Rows(teams);
    RowsHold(teams, k);
    var i :| 0 <= i < |ts| && ts[i] == teams[k];
    assert TeamRows(teams, requests)[i] == TeamStats(teams[k], requests);
  }

  /** Every row of the by-team report is some team's. */
  lemma ByTeamSound(teams: map<int, Team>, requests: map<int, RequestRow>, row: TeamRow)
    requires row in ByTeam(teams, requests)
    ensures exists k :: k in teams && row == TeamStats(teams[k], requests)
  {
    var ts := Rows(teams);
    var i :| 0 <= i < |ts| && TeamRows(teams, requests)[i] == row;
    RowsFrom(teams, ts[i]);
  }

  // ---- by category ----

  /** The join condition of the by-category report: the request names an
      equipment row of that category. */
  function InCategory(equipment: map<int, EquipmentRow>, category: Val): RequestRow -> bool {
    (r: RequestRow) => AsId(r.equipmentId).Some? && AsId(r.equipmentId).value in equipment
      && equipment[AsId(r.equipmentId).value].category == category
  }

  /** The groups of the by-category report: the non-null categories of the equipment. */
  ghost function CategorySet(equipment: map<int, EquipmentRow>): (cs: set<Val>)
    ensures Null !in cs
    ensures forall k :: k in equipment && equipment[k].category != Null ==> equipment[k].category in cs
  {
    set k | k in equipment && equipment[k].category != Null :: equipment[k].category
  }

  /** Every group is the category of some equipment row. */
  lemma CategoryFromEquipment(equipment: map<int, EquipmentRow>, c: Val)
    requires c in CategorySet(equipment)
    ensures exists k :: k in equipment && equipment[k].category == c
  {
  }

  datatype CategoryRow = CategoryRow(category: Val, requestCount: nat, newCount: nat, inProgressCount: nat,
                                     repairedCount: nat, scrapCount: nat, correctiveCount: nat, preventiveCount: nat)

  /** One category's row of the by-category report. */
  ghost function CategoryStats(equipment: map<int, EquipmentRow>, requests: map<int, RequestRow>, category: Val): (row: CategoryRow)
    ensures row.category == category
    ensures row.requestCount == |KeysWhere(requests, InCategory(equipment, category))|
    ensures row.newCount == |KeysWhere(requests, Both(InCategory(equipment, category), StatusIs("new")))|
    ensures row.inProgressCount == |KeysWhere(requests, Both(InCategory(equipment, category), StatusIs("in_progress")))|
    ensures row.repairedCount == |KeysWhere(requests, Both(InCategory(equipment, category), StatusIs("repaired")))|
    ensures row.scrapCount == |KeysWhere(requests, Both(InCategory(equipment, category), StatusIs("scrap")))|
    ensures row.correctiveCount == |KeysWhere(requests, Both(InCategory(equipment, category), TypeIs("corrective")))|
    ensures row.preventiveCount == |KeysWhere(requests, Both(InCategory(equipment, category), TypeIs("preventive")))|
    ensures row.newCount + row.inProgressCount + row.repairedCount + row.scrapCount <= row.requestCount
    ensures row.correctiveCount + row.preventiveCount <= row.requestCount
  {
    var c := GroupCounts(requests, InCategory(equipment, category));
    CategoryRow(category, c.total, c.newCount, c.inProgress, c.repaired, c.scrap, c.corrective, c.preventive)
  }

  function CategoryRequestCount(row: CategoryRow): int {
    row.requestCount
  }

  ghost function CategoryRows(equipment: map<int, EquipmentRow>, requests: map<int, RequestRow>): (rows: seq<CategoryRow>)
    ensures |rows| == |CategorySet(equipment)|
    ensures forall i :: 0 <= i < |rows| ==>
      rows[i].category in CategorySet(equipment) && rows[i] == CategoryStats(equipment, requests, rows[i].category)
  {
    var cs := Enumerate(CategorySet(equipment));
    seq(|cs|, i requires 0 <= i < |cs| => CategoryStats(equipment, requests, cs[i]))
  }

  /** `getRequestsByCategory`: one row per non-null category, by request count descending. */
  ghost function ByCategory(equipment: map<int, EquipmentRow>, requests: map<int, RequestRow>): (report: seq<CategoryRow>)
    ensures |report| == |CategorySet(equipment)|
    ensures forall i, j :: 0 <= i < j < |report| ==> report[i].requestCount >= report[j].requestCount
    ensures forall row :: row in report <==> row in CategoryRows(equipment, requests)
  {
    var rows := CategoryRows(equipment, requests);
    var report := SortDesc(rows, CategoryRequestCount);
    SameElements(report, rows);
    assert forall i, j :: 0 <= i < j < |report| ==> report[i].requestCount >= report[j].requestCount by {
      forall i, j | 0 <= i < j < |report| ensures report[i].requestCount >= report[j].requestCount {
        assert CategoryRequestCount(report[i]) >= CategoryRequestCount(report[j]);
      }
    }
    report
  }

  /** Every row of the by-category report is the row of a non-null category. */
  lemma ByCategorySound(equipment: map<int, EquipmentRow>, requests: map<int, RequestRow>, row: CategoryRow)
    requires row in ByCategory(equipment, requests)
    ensures row.category != Null && row.category in CategorySet(equipment)
    ensures row == CategoryStats(equipment, requests, row.category)
  {
    var rows := CategoryRows(equipment, requests);
    var i :| 0 <= i < |rows| && rows[i] == row;
  }

  /** Every non-null category of the equipment has its row, so no row is the
      `'Uncategorized'` fallback of a null category. */
  lemma ByCategoryComplete(equipment: map<int, EquipmentRow>, requests: map<int, RequestRow>, k: int)
    requires k in equipment && equipment[k].category != Null
    ensures CategoryStats(equipment, requests, equipment[k].category) in ByCategory(equipment, requests)
  {
    var c := equipment[k].category;
    var cs := Enumerate(CategorySet(equipment));
    assert c in cs;
    var i :| 0 <= i < |cs| && cs[i] == c;
    var rows := CategoryRows(equipment, requests);
    assert rows[i] == CategoryStats(equipment, requests, c);
    assert rows[i] in rows;
  }

  /** A category whose equipment has no requests counts zero everywhere. */
  lemma IdleCategoryZero(equipment: map<int, EquipmentRow>, requests: map<int, RequestRow>, category: Val)
    requires forall j :: j in requests ==> !InCategory(equipment, category)(requests[j])
    ensures CategoryStats(equipment, requests, category) == CategoryRow(category, 0, 0, 0, 0, 0, 0, 0)
  {
    EmptyGroupZero(requests, InCategory(equipment, category));
  }

  // ---- by type ----

  /** Membership of the group of one request type; null is a group of its own. */
  function HasType(requestType: Val): RequestRow -> bool {
    (r: RequestRow) => r.requestType == requestType
  }

  /** The groups of the by-type report: every request type that occurs, null included. */
  ghost function TypeSet(requests: map<int, RequestRow>): (ts: set<Val>)
    ensures forall k :: k in requests ==> requests[k].requestType in ts
  {
    set k | k in requests :: requests[k].requestType
  }

  datatype TypeRow = TypeRow(requestType: Val, count: nat, newCount: nat, inProgressCount: nat, repairedCount: nat)

  /** One type's row: the count and three status counts; there is no scrap column. */
  ghost function TypeStats(requests: map<int, RequestRow>, requestType: Val): (row: TypeRow)
    ensures row.requestType == requestType
  {
    var c := GroupCounts(requests, HasType(requestType));
    TypeRow(requestType, c.total, c.newCount, c.inProgress, c.repaired)
  }

  /** A type's row counts the requests of that type, each status column the
      requests of that type with that status, and the three never add up to more. */
  lemma TypeStatsCounts(requests: map<int, RequestRow>, requestType: Val)
    ensures var row := TypeStats(requests, requestType);
      && row.count == |KeysWhere(requests, HasType(requestType))|
      && row.newCount == |KeysWhere(requests, Both(HasType(requestType), StatusIs("new")))|
      && row.inProgressCount == |KeysWhere(requests, Both(HasType(requestType), StatusIs("in_progress")))|
      && row.repairedCount == |KeysWhere(requests, Both(HasType(requestType), StatusIs("repaired")))|
      && row.newCount + row.inProgressCount + row.repairedCount <= row.count
  {
  }

  /** `getRequestsByType`: one row per distinct request type among the requests.
      The source sets no order; the model lists the groups in some order. */
  ghost function ByType(requests: map<int, RequestRow>): (report: seq<TypeRow>)
    ensures |report| == |TypeSet(requests)|
    ensures forall i :: 0 <= i < |report| ==>
      report[i].requestType in TypeSet(requests) && report[i] == TypeStats(requests, report[i].requestType)
  {
    var ts := Enumerate(TypeSet(requests));
    seq(|ts|, i requires 0 <= i < |ts| => TypeStats(requests, ts[i]))
  }

  /** The rows of the by-type report follow the enumeration of the types. */
  lemma ByTypeAt(requests: map<int, RequestRow>, ts: seq<Val>, i: int)
    requires ts == Enumerate(TypeSet(requests)) && 0 <= i < |ts|
    ensures i < |ByType(requests)| && ByType(requests)[i] == TypeStats(requests, ts[i])
  {
  }

  /** No two rows of the by-type report share a type. */
  lemma ByTypeDistinct(requests: map<int, RequestRow>, i: int, j: int)
    requires 0 <= i < j < |ByType(requests)|
    ensures ByType(requests)[i].requestType != ByType(requests)[j].requestType
  {
    var ts := Enumerate(TypeSet(requests));
    ByTypeAt(requests, ts, i);
    ByTypeAt(requests, ts, j);
  }

  /** Every request is counted in the row of its own type. */
  lemma ByTypeComplete(requests: map<int, RequestRow>, k: int)
    requires k in requests
    ensures TypeStats(requests, requests[k].requestType) in ByType(requests)
  {
    var t := requests[k].requestType;
    var ts := Enumerate(TypeSet(requests));
    assert t in ts;
    var j :| 0 <= j < |ts| && ts[j] == t;
    ByTypeAt(requests, ts, j);
  }

  /** Every group of the by-type report is the type of some request. */
  lemma TypeHeld(requests: map<int, RequestRow>, t: Val)
    requires t in TypeSet(requests)
    ensures exists k :: k in requests && requests[k].requestType == t
  {
  }

  /** The row of a type some request has counts at least that request. */
  lemma TypeRowNonEmpty(requests: map<int, RequestRow>, k: int)
    requires k in requests
    ensures TypeStats(requests, requests[k].requestType).count > 0
  {
    var t := requests[k].requestType;
    TypeStatsCounts(requests, t);
    assert k in KeysWhere(requests, HasType(t));
  }

  /** Every row's type is that of some request, so no row counts zero. */
  lemma ByTypeNonEmpty(requests: map<int, RequestRow>, i: int)
    requires 0 <= i < |ByType(requests)|
    ensures ByType(requests)[i].count > 0
  {
    var t := ByType(requests)[i].requestType;
    TypeHeld(requests, t);
    var k :| k in requests && requests[k].requestType == t;
    TypeRowNonEmpty(requests, k);
  }
}
