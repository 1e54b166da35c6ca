/** The stand-alone review page for one leave: which reviewers are offered the Approve and
    Reject actions, the rejection reason it accepts, and the body of the PUT it sends to
    `/api/leaves/:id/approve`, together with what the server then does with that body. */
module LeaveReview {
  import opened Common
  import opened Domain
  import opened Text
  import ApiClient
  import LeaveRoutes

  /** What `setupActions` learns from GET `/auth/me`: the request failed outright (a network
      error or an unreadable body), the answer was not OK, or it carried a user whose role may
      be missing. */
  datatype MeAnswer = Failed | NotOk | Answered(role: Option<string>)

  /** The actions are offered only to a manager, HR or admin, and only on a pending leave. */
  predicate ActionsShown(me: MeAnswer, status: LeaveStatus)
  {
    me.Answered? && me.role.Some? && IsReviewerRole(me.role.value) && status == Pending
  }

  /** The page's display state that `setupActions` changes: the action panel and the form's own
      action buttons (the latter may be missing from the page). */
  class ReviewPage {
    var actionsVisible: bool
    var formActionsVisible: bool
    const hasFormActions: bool

    constructor (actionsVisible: bool, formActionsVisible: bool, hasFormActions: bool)
      ensures this.actionsVisible == actionsVisible && this.formActionsVisible == formActionsVisible
      ensures this.hasFormActions == hasFormActions
    {
      this.actionsVisible := actionsVisible;
      this.formActionsVisible := formActionsVisible;
      this.hasFormActions := hasFormActions;
    }

    /** `setupActions`: the panel shows exactly when `ActionsShown` holds, and so do the form
        buttons when the page has them; a failed request hides the panel and leaves the form
        buttons as they were. */
    method SetupActions(me: MeAnswer, status: LeaveStatus)
      modifies this
      ensures actionsVisible == ActionsShown(me, status)
      ensures actionsVisible ==> me.Answered? && me.role.Some? && IsReviewerRole(me.role.value)
      ensures hasFormActions && !me.Failed? ==> formActionsVisible == ActionsShown(me, status)
      ensures !hasFormActions || me.Failed? ==> formActionsVisible == old(formActionsVisible)
    {
      match me
      case Failed =>
        actionsVisible := false;
      case NotOk =>
        actionsVisible := false;
        if hasFormActions {
          formActionsVisible := false;
        }
      case Answered(role) =>
        var shown := role.Some? && IsReviewerRole(role.value) && status == Pending;
        actionsVisible := shown;
        if hasFormActions {
          formActionsVisible := shown;
        }
    }
  }

  /** The Reject handlers: the answer to the prompt is sent, trimmed, only when its trimmed form
      has a `length` of at least five, counted in UTF-16 code units; a cancelled prompt or a
      shorter answer sends nothing. */
  function RejectionToSend(answer: Option<string>): (reason: Option<string>)
    ensures reason.Some? <==> answer.Some? && Utf16Length(Trim(answer.value)) >= 5
    ensures reason.Some? ==> reason.value == Trim(answer.value)
    ensures reason.Some? ==> Utf16Length(reason.value) >= 5 && |reason.value| >= 3
    ensures reason.Some? ==> !IsSpace(reason.value[0]) && !IsSpace(reason.value[|reason.value| - 1])
  {
    if answer.None? || answer.value == "" || Utf16Length(Trim(answer.value)) < 5 then None
    else Some(Trim(answer.value))
  }

  /** The JSON body of the review request; an absent field is not sent. */
  datatype ReviewPayload = ReviewPayload(action: string, managerNotes: Option<string>, rejectionReason: Option<string>)

  /** `handleAction`: the action always; the notes, trimmed, when the notes box exists and is not
      blank; the rejection reason only for a rejection. */
  function Payload(action: string, rejectionReason: Option<string>, notesBox: Option<string>): (p: ReviewPayload)
    ensures p.action == action
    ensures p.managerNotes.Some? <==> notesBox.Some? && Trim(notesBox.value) != ""
    ensures p.managerNotes.Some? ==> p.managerNotes.value == Trim(notesBox.value)
    ensures action == "reject" ==> p.rejectionReason == rejectionReason
    ensures action != "reject" ==> p.rejectionReason.None?
  {
    var managerNotes := if notesBox.Some? then Trim(notesBox.value) else "";
    ReviewPayload(action,
      if managerNotes != "" then Some(managerNotes) else None,
      if action == "reject" then rejectionReason else None)
  }

  /** A click on Approve or Reject: what the page sends, if anything. */
  function Click(approve: bool, promptAnswer: Option<string>, notesBox: Option<string>): (p: Option<ReviewPayload>)
    ensures approve ==> p.Some? && p.value.action == "approve" && p.value.rejectionReason.None?
    ensures !approve ==> (p.Some? <==> RejectionToSend(promptAnswer).Some?)
    ensures !approve && p.Some? ==> p.value.action == "reject" && p.value.rejectionReason == RejectionToSend(promptAnswer)
    ensures p.Some? ==> p.value == Payload(p.value.action, p.value.rejectionReason, notesBox)
  {
    if approve then Some(Payload("approve", None, notesBox))
    else match RejectionToSend(promptAnswer)
      case None => None
      case Some(reason) => Some(Payload("reject", Some(reason), notesBox))
  }

  /** The path the page sends the review to, and the URL that becomes. */
  function ApprovePath(leaveId: string): string {
    "/leaves/" + leaveId + "/approve"
  }

  lemma ApproveUrl(leaveId: string)
    ensures ApiClient.BuildUrl(ApiClient.ReviewBase, ApprovePath(leaveId)) == "/api/leaves/" + leaveId + "/approve"
  {
    var path := ApprovePath(leaveId);
    assert path[0] == '/';
    assert path[..1] == "/";
    assert ApiClient.ReviewBase + path == "/api/leaves/" + leaveId + "/approve";
  }

  /** Whatever the page sends passes the server's body validation provided a rejection reason has
      from 5 to 500 characters after trimming; a decided leave then carries exactly the decision,
      the trimmed reason and the trimmed notes the page sent. */
  lemma SentReviewIsAccepted(approve: bool, promptAnswer: Option<string>, notesBox: Option<string>,
                             leaves: seq<Leave>, users: seq<User>, id: nat, reviewer: User, now: int)
    requires IsReviewerRole(reviewer.role)
    requires !approve && RejectionToSend(promptAnswer).Some? ==> 5 <= |RejectionToSend(promptAnswer).value| <= 500
    requires Click(approve, promptAnswer, notesBox).Some?
    ensures var p := Click(approve, promptAnswer, notesBox).value;
      LeaveRoutes.ReviewBodyValid(p.action, p.rejectionReason)
    ensures var p := Click(approve, promptAnswer, notesBox).value;
      var r := LeaveRoutes.ReviewOutcome(leaves, users, id, reviewer, p.action, p.rejectionReason, p.managerNotes, now);
      r.Ok? ==>
        var l := LeaveRoutes.FindLeave(leaves, id).value;
        && r.value.status == (if approve then Approved else Rejected)
        && (!approve ==> r.value.rejectionReason == RejectionToSend(promptAnswer))
        && r.value.managerNotes == (if notesBox.Some? && Trim(notesBox.value) != "" then Some(Trim(notesBox.value)) else l.managerNotes)
  {
  }

  /** The page sets no upper bound on the reason: an answer of more than 500 characters without
      surrounding blanks is sent as it is, and the server refuses it with a validation error. */
  lemma LongReasonIsRefused(answer: string, leaves: seq<Leave>, users: seq<User>, id: nat, reviewer: User, now: int)
    requires IsReviewerRole(reviewer.role)
    requires |answer| > 500 && !IsSpace(answer[0]) && !IsSpace(answer[|answer| - 1])
    ensures RejectionToSend(Some(answer)) == Some(answer)
    ensures LeaveRoutes.ReviewOutcome(leaves, users, id, reviewer, "reject", Some(answer), None, now) == Err(LeaveRoutes.ValidationFailed)
  {
    TrimUnchanged(answer);
  }

  /** The page counts UTF-16 code units and the server counts characters: three characters outside
      the Basic Multilingual Plane make a `length` of six, so the page sends them, and the server
      refuses them as shorter than five characters. */
  lemma WideShortReasonIsRefused(leaves: seq<Leave>, users: seq<User>, id: nat, reviewer: User, now: int)
    requires IsReviewerRole(reviewer.role)
    ensures var answer := "\U{1F600}\U{1F600}\U{1F600}";
      && |answer| == 3 && Utf16Length(answer) == 6
      && RejectionToSend(Some(answer)) == Some(answer)
      && LeaveRoutes.ReviewOutcome(leaves, users, id, reviewer, "reject", Some(answer), None, now) == Err(LeaveRoutes.ValidationFailed)
  {
    var answer := "\U{1F600}\U{1F600}\U{1F600}";
    assert !IsSpace(answer[0]) && !IsSpace(answer[2]);
    TrimUnchanged(answer);
    assert Utf16Length(answer[2..]) == 2;
    assert Utf16Length(answer[1..]) == 4;
  }
}
