/** The notification records the server builds: the submission fan-out (the submitter plus their
    manager, or every active reviewer), the manager alert, the approval/rejection notice and the
    system and reminder notices. Storing them and pushing them to connected clients happens in
    the notification table (NotificationRoutes.NotificationTable). */
module NotificationHelpers {
  import opened Common
  import opened Domain

  /** The `type` column. */
  datatype NoticeType = Info | Success | Warning | Error

  /** The `category` column. */
  datatype Category = LeaveRequest | LeaveApproval | LeaveRejection | System | Reminder

  /** A message text, as the template it is rendered from and the values put into it. */
  datatype Message =
    | SubmissionReceived(days: real)
    | NewLeaveRequest(requester: string, days: real, fullStop: bool)
    | DecisionBy(approved: bool, approver: string)
    | DecisionOn(approved: bool, leaveTypeName: string)
    | Plain(text: string)

  /** The data a notification row is created from. */
  datatype Draft = Draft(
    userId: nat,
    title: string,
    message: Message,
    noticeType: NoticeType,
    category: Category,
    recipientRole: Option<string>,
    relatedId: Option<nat>,
    relatedType: Option<string>)

  /** Tied to a leave application. */
  predicate AboutLeave(d: Draft, leave: Leave) {
    d.relatedId == Some(leave.id) && d.relatedType == Some("leave")
  }

  /** The 'New Leave Request' alert addressed to one reviewer. */
  function ReviewerAlert(leave: Leave, requester: string, recipient: nat, fullStop: bool): (d: Draft)
    ensures d.userId == recipient && AboutLeave(d, leave)
    ensures d.recipientRole == Some("manager") && d.category == LeaveRequest && d.noticeType == Info
  {
    Draft(recipient, "New Leave Request", NewLeaveRequest(requester, leave.numberOfDays, fullStop),
      Info, LeaveRequest, Some("manager"), Some(leave.id), Some("leave"))
  }

  /** `sendLeaveRequestNotification`: one alert per active manager, HR or admin user, in the
      order the users are listed. */
  function LeaveRequestNotifications(leave: Leave, requester: string, users: seq<User>): (r: seq<Draft>)
    ensures |r| == |ActiveReviewers(users)|
    ensures forall k :: 0 <= k < |r| ==> r[k].userId == ActiveReviewers(users)[k].id
    ensures forall d :: d in r ==> d.recipientRole == Some("manager") && d.category == LeaveRequest && AboutLeave(d, leave)
  {
    var reviewers := ActiveReviewers(users);
    seq(|reviewers|, k requires 0 <= k < |reviewers| => ReviewerAlert(leave, requester, reviewers[k].id, false))
  }

  /** The 'Leave Submitted' confirmation addressed to the applicant. */
  function Confirmation(leave: Leave, submitterId: nat): (d: Draft)
    ensures d.userId == submitterId && d.recipientRole == Some("employee") && AboutLeave(d, leave)
    ensures d.category == System && d.noticeType == Info
  {
    Draft(submitterId, "Leave Submitted", SubmissionReceived(leave.numberOfDays),
      Info, System, Some("employee"), Some(leave.id), Some("leave"))
  }

  /** The `forEach` of the fallback path: one alert per reviewer, in order. */
  method AlertEach(leave: Leave, submitterName: string, reviewers: seq<User>) returns (alerts: seq<Draft>)
    ensures |alerts| == |reviewers|
    ensures forall k :: 0 <= k < |reviewers| ==> alerts[k].userId == reviewers[k].id
    ensures forall d :: d in alerts ==> d.recipientRole == Some("manager") && d.category == LeaveRequest && AboutLeave(d, leave)
  {
    alerts := [];
    var i := 0;
    while i < |reviewers|
      invariant 0 <= i <= |reviewers|
      invariant |alerts| == i
      invariant forall k :: 0 <= k < i ==> alerts[k].userId == reviewers[k].id
      invariant forall d :: d in alerts ==> d.recipientRole == Some("manager") && d.category == LeaveRequest && AboutLeave(d, leave)
    {
      alerts := alerts + [ReviewerAlert(leave, submitterName, reviewers[i].id, true)];
      i := i + 1;
    }
  }

  /** `createLeaveSubmissionNotifications`: a confirmation for the submitter, then an alert for the
      submitter's manager when they have one, otherwise one alert per active reviewer. */
  method CreateLeaveSubmissionNotifications(leave: Leave, submitter: User, submitterName: string, users: seq<User>)
    returns (notices: seq<Draft>)
    ensures |notices| >= 1
    ensures notices[0].userId == submitter.id && notices[0].recipientRole == Some("employee")
    ensures notices[0].category == System && notices[0].noticeType == Info
    ensures IdPresent(submitter.managerId) ==> |notices| == 2 && notices[1].userId == submitter.managerId.value
    ensures !IdPresent(submitter.managerId) ==>
      && |notices[1..]| == |ActiveReviewers(users)|
      && forall k :: 0 <= k < |ActiveReviewers(users)| ==> notices[1..][k].userId == ActiveReviewers(users)[k].id
    ensures forall d :: d in notices[1..] ==> d.recipientRole == Some("manager") && d.category == LeaveRequest
    ensures forall d :: d in notices ==> AboutLeave(d, leave)
  {
    var confirmation := Confirmation(leave, submitter.id);
    var alerts: seq<Draft> := [];
    if IdPresent(submitter.managerId) {
      alerts := [ReviewerAlert(leave, submitterName, submitter.managerId.value, true)];
    } else {
      alerts := AlertEach(leave, submitterName, ActiveReviewers(users));
    }
    notices := [confirmation] + alerts;
    assert notices[1..] == alerts;
  }

  /** `sendLeaveApprovalNotification`: addressed to the applicant; 'approve' gives a success notice in
      the approval category, any other action an error notice in the rejection category. */
  function ApprovalNotice(leave: Leave, approverName: string, action: string): (d: Draft)
    ensures d.userId == leave.userId && AboutLeave(d, leave)
    ensures d.noticeType == Success <==> action == "approve"
    ensures d.noticeType == (if action == "approve" then Success else Error)
    ensures d.category == (if action == "approve" then LeaveApproval else LeaveRejection)
    ensures d.recipientRole.None?
  {
    var approved := action == "approve";
    Draft(leave.userId, if approved then "Leave Approved" else "Leave Rejected", DecisionBy(approved, approverName),
      if approved then Success else Error, if approved then LeaveApproval else LeaveRejection,
      None, Some(leave.id), Some("leave"))
  }

  /** `sendSystemNotification`: category 'system', type 'info' unless another is given. */
  function SystemNotice(userId: nat, title: string, message: string, noticeType: NoticeType := Info): (d: Draft)
    ensures d.userId == userId && d.title == title && d.message == Plain(message)
    ensures d.category == System && d.noticeType == noticeType
    ensures d.recipientRole.None? && d.relatedId.None?
  {
    Draft(userId, title, Plain(message), noticeType, System, None, None, None)
  }

  /** `sendReminderNotification`: type 'warning', category 'reminder'. */
  function ReminderNotice(userId: nat, title: string, message: string): (d: Draft)
    ensures d.userId == userId && d.title == title && d.message == Plain(message)
    ensures d.noticeType == Warning && d.category == Reminder
    ensures d.recipientRole.None? && d.relatedId.None?
  {
    Draft(userId, title, Plain(message), Warning, Reminder, None, None, None)
  }
}
