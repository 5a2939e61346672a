/** The tables of the backend's database, held in memory: one record datatype per
    row kind, the recognised field lists of the two controllers, and the `Store`
    class whose map fields stand for the tables. */
module Schema {
  import opened Json

  /** A row of `equipment`. */
  datatype EquipmentRow = EquipmentRow(
    id: int,
    name: Val,
    serialNumber: Val,
    category: Val,
    purchaseDate: Val,
    warrantyInfo: Val,
    location: Val,
    department: Val,
    assignedEmployee: Val,
    maintenanceTeamId: Val,
    isScrapped: Val)

  /** A row of `maintenance_requests`. `createdAt` is the insertion stamp the
      database assigns; it is not one of the recognised fields. */
  datatype RequestRow = RequestRow(
    id: int,
    subject: Val,
    requestType: Val,
    equipmentId: Val,
    maintenanceTeamId: Val,
    assignedTechnician: Val,
    scheduledDate: Val,
    durationHours: Val,
    status: Val,
    createdAt: int)

  /** A row of `users`. */
  datatype User = User(id: int, name: Val, email: string, role: string, avatarUrl: Val)

  /** A row of `maintenance_teams`. */
  datatype Team = Team(id: int, name: string)

  /** `baseFields` of the equipment controller. */
  const EquipmentFields: seq<string> := [
    "name", "serial_number", "category", "purchase_date", "warranty_info",
    "location", "department", "assigned_employee", "maintenance_team_id", "is_scrapped"]

  /** `baseFields` of the requests controller. */
  const RequestFields: seq<string> := [
    "subject", "request_type", "equipment_id", "maintenance_team_id",
    "assigned_technician", "scheduled_date", "duration_hours", "status"]

  /** The value of a recognised column of an equipment row. */
  function EquipmentColumn(e: EquipmentRow, f: string): Val {
    if f == "name" then e.name
    else if f == "serial_number" then e.serialNumber
    else if f == "category" then e.category
    else if f == "purchase_date" then e.purchaseDate
    else if f == "warranty_info" then e.warrantyInfo
    else if f == "location" then e.location
    else if f == "department" then e.department
    else if f == "assigned_employee" then e.assignedEmployee
    else if f == "maintenance_team_id" then e.maintenanceTeamId
    else if f == "is_scrapped" then e.isScrapped
    else Null
  }

  /** `SET f = v` on an equipment row; a name that is not a recognised column changes nothing. */
  function SetEquipmentColumn(e: EquipmentRow, f: string, v: Val): (r: EquipmentRow)
    ensures r.id == e.id
    ensures forall g :: g in EquipmentFields ==>
      EquipmentColumn(r, g) == if g == f then v else EquipmentColumn(e, g)
  {
    if f == "name" then e.(name := v)
    else if f == "serial_number" then e.(serialNumber := v)
    else if f == "category" then e.(category := v)
    else if f == "purchase_date" then e.(purchaseDate := v)
    else if f == "warranty_info" then e.(warrantyInfo := v)
    else if f == "location" then e.(location := v)
    else if f == "department" then e.(department := v)
    else if f == "assigned_employee" then e.(assignedEmployee := v)
    else if f == "maintenance_team_id" then e.(maintenanceTeamId := v)
    else if f == "is_scrapped" then e.(isScrapped := v)
    else e
  }

  /** The value of a recognised column of a request row. */
  function RequestColumn(r: RequestRow, f: string): Val {
    if f == "subject" then r.subject
    else if f == "request_type" then r.requestType
    else if f == "equipment_id" then r.equipmentId
    else if f == "maintenance_team_id" then r.maintenanceTeamId
    else if f == "assigned_technician" then r.assignedTechnician
    else if f == "scheduled_date" then r.scheduledDate
    else if f == "duration_hours" then r.durationHours
    else if f == "status" then r.status
    else Null
  }

  /** `SET f = v` on a request row; a name that is not a recognised column changes nothing. */
  function SetRequestColumn(r: RequestRow, f: string, v: Val): (r': RequestRow)
    ensures r'.id == r.id && r'.createdAt == r.createdAt
    ensures forall g :: g in RequestFields ==>
      RequestColumn(r', g) == if g == f then v else RequestColumn(r, g)
  {
    if f == "subject" then r.(subject := v)
    else if f == "request_type" then r.(requestType := v)
    else if f == "equipment_id" then r.(equipmentId := v)
    else if f == "maintenance_team_id" then r.(maintenanceTeamId := v)
    else if f == "assigned_technician" then r.(assignedTechnician := v)
    else if f == "scheduled_date" then r.(scheduledDate := v)
    else if f == "duration_hours" then r.(durationHours := v)
    else if f == "status" then r.(status := v)
    else r
  }

  /** Serial ids: every key is below the next id to hand out, and is the row's own id. */
  ghost predicate ValidEquipment(equipment: map<int, EquipmentRow>, nextId: int) {
    && 1 <= nextId
    && forall k :: k in equipment ==> 1 <= k < nextId && equipment[k].id == k
  }

  /** Serial ids as for equipment; every stamp is below the clock. */
  ghost predicate ValidRequests(requests: map<int, RequestRow>, nextId: int, clock: int) {
    && 1 <= nextId
    && forall k :: k in requests ==> 1 <= k < nextId && requests[k].id == k && requests[k].createdAt < clock
  }

  /** Serial ids, and `email` is unique. */
  ghost predicate ValidUsers(users: map<int, User>, nextId: int) {
    && 1 <= nextId
    && (forall k :: k in users ==> 1 <= k < nextId && users[k].id == k)
    && (forall j, k :: j in users && k in users && users[j].email == users[k].email ==> j == k)
  }

  /** The database: one map per table from id to row, the next value of each
      serial id sequence, and a clock that stamps `created_at`. */
  class Store {
    var equipment: map<int, EquipmentRow>
    var requests: map<int, RequestRow>
    var users: map<int, User>
    var teams: map<int, Team>
    var nextEquipmentId: int
    var nextRequestId: int
    var nextUserId: int
    var clock: int

    ghost predicate Valid()
      reads this
    {
      && ValidEquipment(equipment, nextEquipmentId)
      && ValidRequests(requests, nextRequestId, clock)
      && ValidUsers(users, nextUserId)
      && (forall k :: k in teams ==> teams[k].id == k)
    }

    /** An empty database whose static team table is `teams`. */
    constructor (teams: map<int, Team>)
      requires forall k :: k in teams ==> teams[k].id == k
      ensures Valid()
      ensures this.teams == teams
      ensures equipment == map[] && requests == map[] && users == map[]
    {
      this.teams := teams;
      equipment, requests, users := map[], map[], map[];
      nextEquipmentId, nextRequestId, nextUserId := 1, 1, 1;
      clock := 0;
    }
  }
}
