/** The stored entities the leave-management core works on: users, leave types, leave
    applications and leave balances. Dates are day numbers, instants are integer timestamps and
    day counts are exact reals (a half day is 0.5). */
module Domain {
  import opened Common

  /** A user account. `role` is one of 'employee', 'manager', 'hr', 'admin'; `managerId` is the
      reference to the user's line manager, if any. */
  datatype User = User(
    id: nat,
    role: string,
    managerId: Option<nat>,
    isActive: bool,
    firstName: string,
    lastName: string,
    department: string)

  /** `['manager', 'hr', 'admin'].includes(role)`: the roles that may review leave. */
  predicate IsReviewerRole(role: string) {
    role == "manager" || role == "hr" || role == "admin"
  }

  /** JavaScript truthiness of an optional numeric id: absent, null and 0 are all false. */
  predicate IdPresent(id: Option<nat>) {
    id.Some? && id.value != 0
  }

  /** JavaScript truthiness of an optional string: absent, null and '' are all false. */
  predicate TextPresent(s: Option<string>) {
    s.Some? && s.value != ""
  }

  /** No two users share an id (the primary key). */
  predicate UniqueUserIds(users: seq<User>) {
    forall i, j :: 0 <= i < j < |users| ==> users[i].id != users[j].id
  }

  /** No two leave types share an id (the primary key). */
  predicate UniqueTypeIds(types: seq<LeaveType>) {
    forall i, j :: 0 <= i < j < |types| ==> types[i].id != types[j].id
  }

  /** The first user with the given id (`User.findByPk`). */
  function FindUser(users: seq<User>, id: nat): (r: Option<User>)
    ensures r.Some? ==> r.value in users && r.value.id == id
    ensures r.None? ==> forall u :: u in users ==> u.id != id
  {
    if users == [] then None
    else if users[0].id == id then Some(users[0])
    else FindUser(users[1..], id)
  }

  /** `User.findAll({ where: { role: { [Op.in]: ['manager', 'hr', 'admin'] }, isActive: true } })`. */
  function ActiveReviewers(users: seq<User>): (r: seq<User>)
    ensures forall u :: u in r ==> u in users && u.isActive && IsReviewerRole(u.role)
    ensures forall i :: 0 <= i < |users| && users[i].isActive && IsReviewerRole(users[i].role) ==> users[i] in r
    ensures Subsequence(r, users)
  {
    Filter(users, (u: User) => u.isActive && IsReviewerRole(u.role))
  }

  /** A leave type: its name and the days it grants per year. */
  datatype LeaveType = LeaveType(id: nat, name: string, defaultDays: int, isActive: bool)

  /** The status of a leave application. */
  datatype LeaveStatus = Pending | Approved | Rejected | Cancelled

  /** The free-text parts of an application that no rule inspects. */
  datatype LeaveDetails = LeaveDetails(
    reason: string,
    halfDayType: Option<string>,
    emergencyContact: Option<string>,
    handoverNotes: Option<string>,
    attachmentPath: Option<string>)

  /** A stored leave application. */
  datatype Leave = Leave(
    id: nat,
    userId: nat,
    leaveTypeId: nat,
    startDate: int,
    endDate: int,
    numberOfDays: real,
    isHalfDay: bool,
    details: LeaveDetails,
    status: LeaveStatus,
    approvedBy: Option<nat>,
    approvedAt: Option<int>,
    rejectionReason: Option<string>,
    managerNotes: Option<string>,
    createdAt: int)

  /** One user's allotment of one leave type in one year. */
  datatype BalanceRow = BalanceRow(
    id: nat,
    userId: nat,
    leaveTypeId: nat,
    year: int,
    totalDays: real,
    usedDays: real,
    remainingDays: real,
    carriedOverDays: real,
    maxCarryOver: real,
    isActive: bool)

  /** The bookkeeping rule every balance is meant to keep. */
  predicate BalanceConsistent(b: BalanceRow) {
    b.remainingDays == b.totalDays - b.usedDays + b.carriedOverDays
  }

  /** `LeaveBalance.findOne({ where: { userId, leaveTypeId, year } })`: the first matching row. */
  function FindBalance(rows: seq<BalanceRow>, userId: nat, leaveTypeId: nat, year: int): (r: Option<BalanceRow>)
    ensures r.Some? ==> r.value in rows && r.value.userId == userId && r.value.leaveTypeId == leaveTypeId && r.value.year == year
    ensures r.None? ==> forall b :: b in rows ==> !(b.userId == userId && b.leaveTypeId == leaveTypeId && b.year == year)
  {
    if rows == [] then None
    else if rows[0].userId == userId && rows[0].leaveTypeId == leaveTypeId && rows[0].year == year then Some(rows[0])
    else FindBalance(rows[1..], userId, leaveTypeId, year)
  }
}
