/** The leave-application routes: submission (a chain of checks that ends in an insert), the
    permission rule for reading one application, cancellation by the applicant, the reviewers'
    queue of pending applications, and approval or rejection. The applications live in a
    `LeaveStore`; each route's decision is a pure function of the stored rows, and the store's
    methods apply that decision. */
module LeaveRoutes {
  import opened Common
  import opened Domain
  import Sorting
  import Paging
  import NotificationHelpers

  /** The error responses of these routes. */
  datatype Error =
    | ValidationFailed
    | StartInPast
    | EndBeforeStart
    | InsufficientBalance
    | OverlappingLeave
    | RecentDuplicate(existing: nat)
    | ExistingDuplicate(existing: nat)
    | LeaveNotFound
    | AccessDenied
    | CannotCancel
    | InvalidAction

  /** The HTTP status sent with each error. */
  function HttpStatus(e: Error): (code: int)
    ensures code == 409 <==> e.RecentDuplicate? || e.ExistingDuplicate?
    ensures code == 404 <==> e == LeaveNotFound
    ensures code == 403 <==> e == AccessDenied
    ensures code in {400, 403, 404, 409}
  {
    match e
    case RecentDuplicate(_) => 409
    case ExistingDuplicate(_) => 409
    case LeaveNotFound => 404
    case AccessDenied => 403
    case _ => 400
  }

  // ---------------------------------------------------------------------------------------------
  // Submission

  /** The body of a submission. Dates are day numbers. `isHalfDay` is whether the submitted
      value is truthy, which is what the route tests: a form field "false" or "0" is truthy. */
  datatype Application = Application(
    leaveTypeId: nat,
    startDate: int,
    endDate: int,
    isHalfDay: bool,
    details: LeaveDetails)

  /** The body rules: a reason of 10 to 500 characters, a half-day type of 'morning' or
      'afternoon' when given, an emergency contact of 5 to 100 characters when given and
      handover notes of at most 1000 characters when given. */
  predicate WellFormed(a: Application) {
    && 10 <= |a.details.reason| <= 500
    && (a.details.halfDayType.Some? ==> a.details.halfDayType.value == "morning" || a.details.halfDayType.value == "afternoon")
    && (a.details.emergencyContact.Some? ==> 5 <= |a.details.emergencyContact.value| <= 100)
    && (a.details.handoverNotes.Some? ==> |a.details.handoverNotes.value| <= 1000)
  }

  /** The days an application from `start` to `end` takes: the inclusive day count, less half a
      day for a half-day application. */
  function NumberOfDays(start: int, end: int, isHalfDay: bool): (d: real)
    ensures start <= end ==> d >= 0.5
    ensures isHalfDay ==> d + 0.5 == NumberOfDays(start, end, false)
  {
    (end - start + 1) as real - (if isHalfDay then 0.5 else 0.0)
  }

  /** The calendar days from `start` to `end`, counted one by one. */
  function DaysIn(start: int, end: int): nat
    decreases end - start
  {
    if end < start then 0 else 1 + DaysIn(start + 1, end)
  }

  /** The day count is the number of calendar days in the range, half a day less for a half-day
      application; so it is at least half a day. */
  lemma {:induction false} NumberOfDaysCountsCalendarDays(start: int, end: int, isHalfDay: bool)
    requires start <= end
    decreases end - start
    ensures NumberOfDays(start, end, isHalfDay) == DaysIn(start, end) as real - (if isHalfDay then 0.5 else 0.0)
    ensures NumberOfDays(start, end, isHalfDay) >= 0.5
  {
    if start < end {
      NumberOfDaysCountsCalendarDays(start + 1, end, isHalfDay);
    }
  }

  /** The three-way overlap condition of the query: the stored leave starts inside the range,
      ends inside it, or covers it. */
  predicate OverlapClause(l: Leave, start: int, end: int) {
    || (start <= l.startDate <= end)
    || (start <= l.endDate <= end)
    || (l.startDate <= start && l.endDate >= end)
  }

  /** A leave that stops a new application of `userId`: theirs, pending or approved, and matching
      the overlap condition. */
  predicate Blocks(l: Leave, userId: nat, start: int, end: int) {
    l.userId == userId && (l.status == Pending || l.status == Approved) && OverlapClause(l, start, end)
  }

  predicate InRange(d: int, lo: int, hi: int) {
    lo <= d <= hi
  }

  /** Some day lies in both ranges. */
  ghost predicate RangesIntersect(s1: int, e1: int, s2: int, e2: int) {
    exists d :: InRange(d, s1, e1) && InRange(d, s2, e2)
  }

  /** For well-ordered ranges the overlap condition holds exactly when the two ranges share a day,
      which is exactly when neither ends before the other starts. */
  lemma OverlapClauseIffIntersect(l: Leave, start: int, end: int)
    requires l.startDate <= l.endDate && start <= end
    ensures OverlapClause(l, start, end) <==> RangesIntersect(l.startDate, l.endDate, start, end)
    ensures OverlapClause(l, start, end) <==> !(l.endDate < start || end < l.startDate)
  {
    if OverlapClause(l, start, end) {
      var d := if l.startDate >= start then l.startDate else start;
      assert InRange(d, l.startDate, l.endDate) && InRange(d, start, end);
    }
    if RangesIntersect(l.startDate, l.endDate, start, end) {
      var d :| InRange(d, l.startDate, l.endDate) && InRange(d, start, end);
      assert OverlapClause(l, start, end);
    }
  }

  /** The key of the duplicate guard: a pending application of the same user and type for the
      same dates and the same number of days. */
  predicate SameKey(l: Leave, userId: nat, a: Application, days: real) {
    && l.userId == userId && l.leaveTypeId == a.leaveTypeId
    && l.startDate == a.startDate && l.endDate == a.endDate
    && l.numberOfDays == days && l.status == Pending
  }

  /** The balance the submission looks at: the row for this user, type and year, or, when there
      is none, the row found after the year's balances have been initialised (`afterInit` is the
      balance table as that initialisation leaves it). */
  function BalanceFor(before: seq<BalanceRow>, afterInit: seq<BalanceRow>, userId: nat, leaveTypeId: nat, year: int): (r: Option<BalanceRow>)
    ensures r.Some? ==> r.value.userId == userId && r.value.leaveTypeId == leaveTypeId && r.value.year == year
    ensures r.Some? ==> r.value in before || r.value in afterInit
  {
    match FindBalance(before, userId, leaveTypeId, year)
    case Some(b) => Some(b)
    case None => FindBalance(afterInit, userId, leaveTypeId, year)
  }

  /** The checks of a submission, in the order the route makes them; on success, the number of
      days the new application takes. `today` is the current day, `now` the current instant and
      `window` the span within which an identical pending application counts as a recent
      duplicate. */
  function CheckSubmission(leaves: seq<Leave>, userId: nat, a: Application, today: int, now: int, window: int,
                           before: seq<BalanceRow>, afterInit: seq<BalanceRow>, year: int): (r: Result<real, Error>)
    ensures !WellFormed(a) ==> r == Err(ValidationFailed)
    ensures WellFormed(a) && a.startDate < today ==> r == Err(StartInPast)
    ensures WellFormed(a) && a.startDate >= today && a.endDate < a.startDate ==> r == Err(EndBeforeStart)
    ensures r.Err? && r.error.RecentDuplicate? ==>
      exists i :: 0 <= i < |leaves| && leaves[i].id == r.error.existing
        && SameKey(leaves[i], userId, a, NumberOfDays(a.startDate, a.endDate, a.isHalfDay)) && leaves[i].createdAt >= now - window
    ensures r.Err? && r.error.ExistingDuplicate? ==>
      exists i :: 0 <= i < |leaves| && leaves[i].id == r.error.existing
        && SameKey(leaves[i], userId, a, NumberOfDays(a.startDate, a.endDate, a.isHalfDay))
    ensures var days := NumberOfDays(a.startDate, a.endDate, a.isHalfDay);
      var balance := BalanceFor(before, afterInit, userId, a.leaveTypeId, year);
      r == Err(InsufficientBalance) <==>
        WellFormed(a) && today <= a.startDate <= a.endDate && (balance.None? || balance.value.remainingDays < days)
    ensures var days := NumberOfDays(a.startDate, a.endDate, a.isHalfDay);
      var balance := BalanceFor(before, afterInit, userId, a.leaveTypeId, year);
      r == Err(OverlappingLeave) <==>
        && WellFormed(a) && today <= a.startDate <= a.endDate && balance.Some? && balance.value.remainingDays >= days
        && exists i :: 0 <= i < |leaves| && Blocks(leaves[i], userId, a.startDate, a.endDate)
    ensures r.Ok? <==>
      && WellFormed(a) && today <= a.startDate <= a.endDate
      && BalanceFor(before, afterInit, userId, a.leaveTypeId, year).Some?
      && BalanceFor(before, afterInit, userId, a.leaveTypeId, year).value.remainingDays >= NumberOfDays(a.startDate, a.endDate, a.isHalfDay)
      && (forall i :: 0 <= i < |leaves| ==> !Blocks(leaves[i], userId, a.startDate, a.endDate))
      && (forall i :: 0 <= i < |leaves| ==> !SameKey(leaves[i], userId, a, NumberOfDays(a.startDate, a.endDate, a.isHalfDay)))
    ensures r.Ok? ==> r.value == NumberOfDays(a.startDate, a.endDate, a.isHalfDay)
  {
    if !WellFormed(a) then Err(ValidationFailed)
    else if a.startDate < today then Err(StartInPast)
    else if a.endDate < a.startDate then Err(EndBeforeStart)
    else
      var days := NumberOfDays(a.startDate, a.endDate, a.isHalfDay);
      var balance := BalanceFor(before, afterInit, userId, a.leaveTypeId, year);
      if balance.None? || balance.value.remainingDays < days then Err(InsufficientBalance)
      else if Find(leaves, (l: Leave) => Blocks(l, userId, a.startDate, a.endDate)).Some? then Err(OverlappingLeave)
      else match Find(leaves, (l: Leave) => SameKey(l, userId, a, days) && l.createdAt >= now - window)
        case Some(d) => Err(RecentDuplicate(d.id))
        case None =>
          match Find(leaves, (l: Leave) => SameKey(l, userId, a, days))
          case Some(d) => Err(ExistingDuplicate(d.id))
          case None => Ok(days)
  }

  /** A stored pending application with the same key as a new one always matches the overlap
      condition, so when requests are handled one after another the duplicate answers can never
      be given: the overlap check has already refused the application. */
  lemma DuplicateAnswersNeedConcurrency(leaves: seq<Leave>, userId: nat, a: Application, today: int, now: int, window: int,
                                        before: seq<BalanceRow>, afterInit: seq<BalanceRow>, year: int)
    ensures var r := CheckSubmission(leaves, userId, a, today, now, window, before, afterInit, year);
      r.Err? ==> HttpStatus(r.error) == 400
  {
  }

  /** Submitting the same dates again while the first application is still pending or approved
      is refused, whatever the type or the half-day flag. */
  lemma RepeatIsRefused(leaves: seq<Leave>, userId: nat, a: Application, today: int, now: int, window: int,
                        before: seq<BalanceRow>, afterInit: seq<BalanceRow>, year: int, i: nat)
    requires i < |leaves| && leaves[i].userId == userId && (leaves[i].status == Pending || leaves[i].status == Approved)
    requires leaves[i].startDate == a.startDate && leaves[i].endDate == a.endDate
    ensures CheckSubmission(leaves, userId, a, today, now, window, before, afterInit, year).Err?
  {
    if a.startDate <= a.endDate {
      assert Blocks(leaves[i], userId, a.startDate, a.endDate);
    }
  }

  /** An accepted application shares no day with any pending or approved application of the same
      user, as long as the stored applications are well ordered, and the balance covers it. */
  lemma AcceptedApplicationIsClear(leaves: seq<Leave>, userId: nat, a: Application, today: int, now: int, window: int,
                                   before: seq<BalanceRow>, afterInit: seq<BalanceRow>, year: int)
    requires forall i :: 0 <= i < |leaves| ==> leaves[i].startDate <= leaves[i].endDate
    requires CheckSubmission(leaves, userId, a, today, now, window, before, afterInit, year).Ok?
    ensures forall i :: (0 <= i < |leaves| && leaves[i].userId == userId && (leaves[i].status == Pending || leaves[i].status == Approved)
                         ==> !RangesIntersect(leaves[i].startDate, leaves[i].endDate, a.startDate, a.endDate))
    ensures exists b :: ((b in before || b in afterInit) && b.userId == userId && b.leaveTypeId == a.leaveTypeId && b.year == year
                         && b.remainingDays >= NumberOfDays(a.startDate, a.endDate, a.isHalfDay))
  {
    forall i | 0 <= i < |leaves| && leaves[i].userId == userId && (leaves[i].status == Pending || leaves[i].status == Approved)
      ensures !RangesIntersect(leaves[i].startDate, leaves[i].endDate, a.startDate, a.endDate)
    {
      OverlapClauseIffIntersect(leaves[i], a.startDate, a.endDate);
    }
    var b := BalanceFor(before, afterInit, userId, a.leaveTypeId, year).value;
    assert b in before || b in afterInit;
  }

  /** The row an accepted application is stored as. */
  function NewLeave(id: nat, userId: nat, a: Application, days: real, now: int): (l: Leave)
    ensures l.id == id && l.userId == userId && l.leaveTypeId == a.leaveTypeId
    ensures l.startDate == a.startDate && l.endDate == a.endDate && l.numberOfDays == days
    ensures l.status == Pending && l.approvedBy.None? && l.createdAt == now
  {
    Leave(id, userId, a.leaveTypeId, a.startDate, a.endDate, days, a.isHalfDay, a.details,
      Pending, None, None, None, None, now)
  }

  // ---------------------------------------------------------------------------------------------
  // Reading, cancelling and reviewing one application

  /** `findByPk`: ids are assigned 1, 2, 3, ... in insertion order and applications are never
      deleted, so the application with id `id` is the one at position `id - 1`. */
  function FindLeave(leaves: seq<Leave>, id: nat): Option<Leave>
  {
    if 1 <= id <= |leaves| then Some(leaves[id - 1]) else None
  }

  /** Who may read an application: its owner, any manager, HR or admin user, or its approver. */
  predicate CanView(l: Leave, caller: User) {
    l.userId == caller.id || IsReviewerRole(caller.role) || l.approvedBy == Some(caller.id)
  }

  /** GET `/:id`. */
  function ViewLeave(leaves: seq<Leave>, id: nat, caller: User): (r: Result<Leave, Error>)
    ensures r == Err(LeaveNotFound) <==> FindLeave(leaves, id).None?
    ensures r == Err(AccessDenied) <==> FindLeave(leaves, id).Some? && !CanView(FindLeave(leaves, id).value, caller)
    ensures r.Ok? <==> FindLeave(leaves, id).Some? && CanView(FindLeave(leaves, id).value, caller)
    ensures r.Ok? ==> r.value == FindLeave(leaves, id).value
  {
    match FindLeave(leaves, id)
    case None => Err(LeaveNotFound)
    case Some(l) => if CanView(l, caller) then Ok(l) else Err(AccessDenied)
  }

  /** PUT `/:id/cancel`: the cancelled application. */
  function CancelOutcome(leaves: seq<Leave>, id: nat, callerId: nat): (r: Result<Leave, Error>)
    ensures r == Err(LeaveNotFound) <==> FindLeave(leaves, id).None?
    ensures r == Err(AccessDenied) <==> FindLeave(leaves, id).Some? && FindLeave(leaves, id).value.userId != callerId
    ensures r == Err(CannotCancel) <==>
      FindLeave(leaves, id).Some? && FindLeave(leaves, id).value.userId == callerId && FindLeave(leaves, id).value.status != Pending
    ensures r.Ok? <==>
      FindLeave(leaves, id).Some? && FindLeave(leaves, id).value.userId == callerId && FindLeave(leaves, id).value.status == Pending
    ensures r.Ok? ==> r.value == FindLeave(leaves, id).value.(status := Cancelled)
  {
    match FindLeave(leaves, id)
    case None => Err(LeaveNotFound)
    case Some(l) =>
      if l.userId != callerId then Err(AccessDenied)
      else if l.status != Pending then Err(CannotCancel)
      else Ok(l.(status := Cancelled))
  }

  /** The review body rules: the action is 'approve' or 'reject', and a rejection reason, when
      given, has 5 to 500 characters. */
  predicate ReviewBodyValid(action: string, rejectionReason: Option<string>) {
    (action == "approve" || action == "reject")
    && (rejectionReason.Some? ==> 5 <= |rejectionReason.value| <= 500)
  }

  /** The line manager recorded for the applicant, if the applicant exists and has one. */
  function ManagerOf(users: seq<User>, userId: nat): (m: Option<nat>)
    ensures m.Some? ==> exists u :: u in users && u.id == userId && u.managerId == m
    ensures (forall u :: u in users ==> u.id != userId) ==> m.None?
  {
    match FindUser(users, userId)
    case None => None
    case Some(u) => u.managerId
  }

  /** PUT `/:id/approve`, for a caller the reviewer middleware has let through: the reviewed
      application. */
  function ReviewOutcome(leaves: seq<Leave>, users: seq<User>, id: nat, reviewer: User, action: string,
                         rejectionReason: Option<string>, managerNotes: Option<string>, now: int): (r: Result<Leave, Error>)
    requires IsReviewerRole(reviewer.role)
    ensures r == Err(ValidationFailed) <==> !ReviewBodyValid(action, rejectionReason)
    ensures ReviewBodyValid(action, rejectionReason) ==> (r == Err(LeaveNotFound) <==> FindLeave(leaves, id).None?)
    ensures ReviewBodyValid(action, rejectionReason) && FindLeave(leaves, id).Some? ==>
      (r == Err(InvalidAction) <==> FindLeave(leaves, id).value.status != Pending)
    ensures ReviewBodyValid(action, rejectionReason) && FindLeave(leaves, id).Some? && FindLeave(leaves, id).value.status == Pending ==>
      (r == Err(AccessDenied) <==> reviewer.role == "manager" && ManagerOf(users, FindLeave(leaves, id).value.userId) != Some(reviewer.id))
    ensures r.Ok? ==>
      var l := FindLeave(leaves, id).value;
      && FindLeave(leaves, id).Some? && l.status == Pending
      && r.value.status == (if action == "approve" then Approved else Rejected)
      && r.value.approvedBy == Some(reviewer.id) && r.value.approvedAt == Some(now)
      && r.value.rejectionReason == (if action == "approve" then l.rejectionReason else rejectionReason)
      && r.value.managerNotes == (if TextPresent(managerNotes) then managerNotes else l.managerNotes)
      && r.value.(status := l.status, approvedBy := l.approvedBy, approvedAt := l.approvedAt,
                  rejectionReason := l.rejectionReason, managerNotes := l.managerNotes) == l
  {
    if !ReviewBodyValid(action, rejectionReason) then Err(ValidationFailed)
    else match FindLeave(leaves, id)
      case None => Err(LeaveNotFound)
      case Some(l) =>
        if l.status != Pending then Err(InvalidAction)
        else if reviewer.role == "manager" && ManagerOf(users, l.userId) != Some(reviewer.id) then Err(AccessDenied)
        else
          var decided := l.(approvedBy := Some(reviewer.id), approvedAt := Some(now),
                            managerNotes := if TextPresent(managerNotes) then managerNotes else l.managerNotes);
          if action == "approve" then Ok(decided.(status := Approved))
          else Ok(decided.(status := Rejected, rejectionReason := rejectionReason))
  }

  /** The notice the review route sends the applicant: 'Leave Approved' or 'Leave Rejected',
      naming the leave type. */
  function DecisionNotice(l: Leave, action: string, leaveTypeName: string): (d: NotificationHelpers.Draft)
    ensures d.userId == l.userId && NotificationHelpers.AboutLeave(d, l)
  {
    var approved := action == "approve";
    NotificationHelpers.Draft(l.userId, if approved then "Leave Approved" else "Leave Rejected",
      NotificationHelpers.DecisionOn(approved, leaveTypeName),
      if approved then NotificationHelpers.Success else NotificationHelpers.Error,
      if approved then NotificationHelpers.LeaveApproval else NotificationHelpers.LeaveRejection,
      None, Some(l.id), Some("leave"))
  }

  /** The review route's own notice agrees with the shared approval-notice helper on everything
      but the wording: the same recipient, type, category and related application. */
  lemma DecisionNoticeAgreesWithHelper(l: Leave, action: string, leaveTypeName: string, approverName: string)
    ensures var mine := DecisionNotice(l, action, leaveTypeName);
      var shared := NotificationHelpers.ApprovalNotice(l, approverName, action);
      && mine.userId == shared.userId && mine.noticeType == shared.noticeType && mine.category == shared.category
      && mine.title == shared.title && mine.relatedId == shared.relatedId && mine.relatedType == shared.relatedType
      && mine.recipientRole == shared.recipientRole
  {
  }

  // ---------------------------------------------------------------------------------------------
  // The reviewers' queue

  /** The ids of the users whose line manager is `managerId`. */
  function TeamOf(users: seq<User>, managerId: nat): (team: set<nat>)
    ensures forall u :: u in users && u.managerId == Some(managerId) ==> u.id in team
    ensures forall id :: id in team ==> exists u :: u in users && u.id == id && u.managerId == Some(managerId)
  {
    set u | u in users && u.managerId == Some(managerId) :: u.id
  }

  /** A pending application a reviewer sees: any, for HR and admin; a team member's, for a
      manager. */
  predicate InQueueOf(l: Leave, users: seq<User>, reviewer: User) {
    l.status == Pending && (reviewer.role == "manager" ==> l.userId in TeamOf(users, reviewer.id))
  }

  /** The whole queue, oldest first. */
  function ApprovalQueue(leaves: seq<Leave>, users: seq<User>, reviewer: User): (r: seq<Leave>)
    ensures forall l :: l in r <==> l in leaves && InQueueOf(l, users, reviewer)
    ensures forall l :: multiset(r)[l] == if InQueueOf(l, users, reviewer) then multiset(leaves)[l] else 0
    ensures forall i, j :: 0 <= i < j < |r| ==> r[i].createdAt <= r[j].createdAt
  {
    var inQueue := (l: Leave) => InQueueOf(l, users, reviewer);
    var queued := Filter(leaves, inQueue);
    FilterMultiplicity(leaves, inQueue);
    var key := (l: Leave) => -l.createdAt;
    var r := Sorting.SortDesc(queued, key);
    Sorting.SortDescKeepsElements(queued, key);
    assert forall i :: 0 <= i < |leaves| && InQueueOf(leaves[i], users, reviewer) ==> leaves[i] in queued;
    r
  }

  /** The response of GET `/pending/approvals`. */
  datatype ApprovalPage = ApprovalPage(leaves: seq<Leave>, currentPage: nat, totalPages: nat, totalItems: nat, itemsPerPage: nat)

  /** GET `/pending/approvals` for page `page` of `limit` rows. */
  function PendingApprovals(leaves: seq<Leave>, users: seq<User>, reviewer: User, page: nat, limit: nat): (r: ApprovalPage)
    requires IsReviewerRole(reviewer.role)
    requires page >= 1 && 1 <= limit <= 50
    ensures r.leaves == Paging.PageOf(ApprovalQueue(leaves, users, reviewer), page, limit)
    ensures r.totalItems == |ApprovalQueue(leaves, users, reviewer)|
    ensures r.totalPages == Paging.TotalPages(r.totalItems, limit)
    ensures r.currentPage == page && r.itemsPerPage == limit && |r.leaves| <= limit
    ensures forall l :: l in r.leaves ==> l in leaves && InQueueOf(l, users, reviewer)
    ensures forall i, j :: 0 <= i < j < |r.leaves| ==> r.leaves[i].createdAt <= r.leaves[j].createdAt
  {
    var queue := ApprovalQueue(leaves, users, reviewer);
    var rows := Paging.PageOf(queue, page, limit);
    assert forall k :: 0 <= k < |rows| ==> rows[k] in queue;
    ApprovalPage(rows, page, Paging.TotalPages(|queue|, limit), |queue|, limit)
  }

  /** Every application in a reviewer's queue is on one of the queue's pages. */
  lemma QueuedLeaveIsOnAPage(leaves: seq<Leave>, users: seq<User>, reviewer: User, limit: nat, l: Leave)
    requires IsReviewerRole(reviewer.role) && 1 <= limit <= 50
    requires l in leaves && InQueueOf(l, users, reviewer)
    ensures exists p :: (1 <= p <= PendingApprovals(leaves, users, reviewer, 1, limit).totalPages
                         && l in PendingApprovals(leaves, users, reviewer, p, limit).leaves)
  {
    var queue := ApprovalQueue(leaves, users, reviewer);
    var p := Paging.PageOfElement(queue, limit, l);
    assert PendingApprovals(leaves, users, reviewer, p, limit).leaves == Paging.PageOf(queue, p, limit);
  }

  /** Whatever a reviewer's queue shows, that reviewer may decide: with unique user ids, a team
      member's recorded manager is the manager whose team it is. */
  lemma QueuedLeaveIsReviewable(leaves: seq<Leave>, users: seq<User>, reviewer: User, l: Leave, action: string,
                                rejectionReason: Option<string>, managerNotes: Option<string>, now: int)
    requires IsReviewerRole(reviewer.role) && UniqueUserIds(users)
    requires forall i :: 0 <= i < |leaves| ==> leaves[i].id == i + 1
    requires l in ApprovalQueue(leaves, users, reviewer)
    requires ReviewBodyValid(action, rejectionReason)
    ensures ReviewOutcome(leaves, users, l.id, reviewer, action, rejectionReason, managerNotes, now).Ok?
  {
    var i :| 0 <= i < |leaves| && leaves[i] == l;
    assert FindLeave(leaves, l.id) == Some(l);
    if reviewer.role == "manager" {
      var u :| u in users && u.managerId == Some(reviewer.id) && u.id == l.userId;
      FindUniqueUser(users, u);
    }
  }

  lemma {:induction false} FindUniqueUser(users: seq<User>, u: User)
    requires UniqueUserIds(users) && u in users
    ensures FindUser(users, u.id) == Some(u)
  {
    if users[0] != u {
      assert u in users[1..];
      assert UniqueUserIds(users[1..]) by {
        forall i, j | 0 <= i < j < |users[1..]| ensures users[1..][i].id != users[1..][j].id {
          assert users[1..][i] == users[i + 1] && users[1..][j] == users[j + 1];
        }
      }
      var k :| 0 <= k < |users| && users[k] == u;
      assert users[0].id != u.id;
      FindUniqueUser(users[1..], u);
    }
  }

  // ---------------------------------------------------------------------------------------------
  // The store

  /** Applications that block new ones: pending or approved. */
  predicate Active(l: Leave) {
    l.status == Pending || l.status == Approved
  }

  /** What every sequence of submissions, cancellations and reviews keeps true: ids are positions,
      every application is well ordered, and no two active applications of one user share a day. */
  predicate StoreInvariant(leaves: seq<Leave>) {
    && (forall i :: 0 <= i < |leaves| ==> leaves[i].id == i + 1 && leaves[i].startDate <= leaves[i].endDate)
    && (forall i, j :: 0 <= i < j < |leaves| && Active(leaves[i]) && Active(leaves[j]) && leaves[i].userId == leaves[j].userId
          ==> leaves[i].endDate < leaves[j].startDate || leaves[j].endDate < leaves[i].startDate)
  }

  /** The guarantee the duplicate guard is there for: at most one pending application per user,
      type, dates and day count. */
  lemma OnePendingPerKey(leaves: seq<Leave>, i: nat, j: nat)
    requires StoreInvariant(leaves)
    requires i < j < |leaves| && leaves[i].status == Pending && leaves[j].status == Pending
    requires leaves[i].userId == leaves[j].userId
    ensures !(leaves[i].startDate == leaves[j].startDate && leaves[i].endDate == leaves[j].endDate)
  {
    assert Active(leaves[i]) && Active(leaves[j]);
  }

  /** A status only ever moves away from pending. */
  predicate StatusStep(before: LeaveStatus, after: LeaveStatus) {
    before == after || before == Pending
  }

  /** The stored leave applications. */
  class LeaveStore {
    var leaves: seq<Leave>

    ghost predicate Valid()
      reads this
    {
      StoreInvariant(leaves)
    }

    constructor ()
      ensures Valid() && leaves == []
    {
      leaves := [];
    }

    /** POST `/`: stores the application when every check passes, otherwise stores nothing; a stored
        application comes with the submission notices of `createLeaveSubmissionNotifications` for
        it, `submitter` being the caller and `users` the user table. */
    method Submit(submitter: User, submitterName: string, users: seq<User>, a: Application, today: int, now: int,
                  window: int, before: seq<BalanceRow>, afterInit: seq<BalanceRow>, year: int)
      returns (r: Result<Leave, Error>, notices: seq<NotificationHelpers.Draft>)
      requires Valid()
      modifies this
      ensures Valid()
      ensures var c := CheckSubmission(old(leaves), submitter.id, a, today, now, window, before, afterInit, year);
        && (c.Ok? ==> r == Ok(NewLeave(|old(leaves)| + 1, submitter.id, a, c.value, now)) && leaves == old(leaves) + [r.value])
        && (c.Err? ==> r == Err(c.error) && leaves == old(leaves))
      ensures r.Err? ==> notices == []
      ensures r.Ok? ==>
        && |notices| >= 1 && notices[0].userId == submitter.id && notices[0].recipientRole == Some("employee")
        && (IdPresent(submitter.managerId) ==> |notices| == 2 && notices[1].userId == submitter.managerId.value)
        && (!IdPresent(submitter.managerId) ==> |notices| == 1 + |ActiveReviewers(users)|)
        && (forall d :: d in notices[1..] ==> d.recipientRole == Some("manager") && d.category == NotificationHelpers.LeaveRequest)
        && (forall d :: d in notices ==> NotificationHelpers.AboutLeave(d, r.value))
    {
      var userId := submitter.id;
      var c := CheckSubmission(leaves, userId, a, today, now, window, before, afterInit, year);
      if c.Err? {
        return Err(c.error), [];
      }
      var l := NewLeave(|leaves| + 1, userId, a, c.value, now);
      forall i | 0 <= i < |leaves| && Active(leaves[i]) && leaves[i].userId == userId
        ensures leaves[i].endDate < l.startDate || l.endDate < leaves[i].startDate
      {
        assert !Blocks(leaves[i], userId, a.startDate, a.endDate);
        OverlapClauseIffIntersect(leaves[i], a.startDate, a.endDate);
      }
      leaves := leaves + [l];
      r := Ok(l);
      notices := NotificationHelpers.CreateLeaveSubmissionNotifications(l, submitter, submitterName, users);
    }

    /** PUT `/:id/cancel`: applies the decision of `CancelOutcome`; only that application's status
        changes. */
    method Cancel(id: nat, callerId: nat) returns (r: Result<Leave, Error>)
      requires Valid()
      modifies this
      ensures Valid()
      ensures r == CancelOutcome(old(leaves), id, callerId)
      ensures r.Ok? ==> leaves == old(leaves)[id - 1 := r.value]
      ensures r.Err? ==> leaves == old(leaves)
      ensures |leaves| == |old(leaves)| && forall i :: 0 <= i < |leaves| ==> StatusStep(old(leaves)[i].status, leaves[i].status)
    {
      r := CancelOutcome(leaves, id, callerId);
      if r.Ok? {
        leaves := leaves[id - 1 := r.value];
      }
    }

    /** PUT `/:id/approve`: applies the decision of `ReviewOutcome` and, when the application was
        decided, returns the notice for the applicant. */
    method Review(users: seq<User>, id: nat, reviewer: User, action: string, rejectionReason: Option<string>,
                  managerNotes: Option<string>, now: int, leaveTypeName: string)
      returns (r: Result<Leave, Error>, notice: Option<NotificationHelpers.Draft>)
      requires Valid() && IsReviewerRole(reviewer.role)
      modifies this
      ensures Valid()
      ensures r == ReviewOutcome(old(leaves), users, id, reviewer, action, rejectionReason, managerNotes, now)
      ensures r.Ok? ==> leaves == old(leaves)[id - 1 := r.value] && notice == Some(DecisionNotice(r.value, action, leaveTypeName))
      ensures r.Err? ==> leaves == old(leaves) && notice.None?
      ensures |leaves| == |old(leaves)| && forall i :: 0 <= i < |leaves| ==> StatusStep(old(leaves)[i].status, leaves[i].status)
    {
      r := ReviewOutcome(leaves, users, id, reviewer, action, rejectionReason, managerNotes, now);
      notice := None;
      if r.Ok? {
        leaves := leaves[id - 1 := r.value];
        notice := Some(DecisionNotice(r.value, action, leaveTypeName));
      }
    }
  }
}
