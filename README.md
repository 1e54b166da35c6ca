# Leave management core, modelled in Dafny

This project models the core of a leave-management web application:

- the leave-application routes: submit, view one, cancel, the reviewers' queue of pending
  applications, and approve or reject;
- the notification helpers those routes call;
- the notification routes: list, open, mark read, mark all read, unread count, delete;
- the script that resets annual-leave balances for the current financial year;
- the parts of the two browser pages that decide things. These are the shared request wrapper,
  the de-duplication and ordering of "my leaves", the hours and end-date conversion, the
  audit-log statistics and pagination, the badge colours, the approvals filter, the attachment
  list, and the review page's gating, rejection prompt and review payload.

Representation:

- Dates are whole day numbers and timestamps are integers.
- Day counts and balances are `real`.
- Text is `seq<char>`.
- Database tables are sequences of rows. Where the code changes rows in place, the table is a
  field of a class:
  - `LeaveRoutes.LeaveStore` holds the applications;
  - `NotificationRoutes.NotificationTable` holds the notifications;
  - `ResetAnnualLeave.BalanceTable` holds the balances.
- Each route's decision is a pure function whose contract says exactly when each error answer
  is given. The two duplicate answers of the submission route cannot be given when requests
  are handled one at a time, so for them it names the matching stored application instead.
  The store's method applies that decision and keeps the store invariant.
- Browser state that the pages update is held in classes:
  - `Dashboard.AuditView` for the audit page;
  - `Dashboard.AttachmentList` for the selected files;
  - `LeaveReview.ReviewPage` for the visibility of the review actions.
- The clock, the current financial year, the server's balance initialisation and anything
  fetched over the network are parameters.

Modules, one file each:

- `Common`: Option, Result, subsequences, filter, count, find.
- `Text`: ASCII lower-casing, substring search and the JavaScript `trim`.
- `Paging`: offset-and-limit pages.
- `Sorting`: ordering by a key, both as a function and as an in-place insertion sort on an array.
- `Domain`: users, leave types, applications and balances.
- `LeaveRoutes`, `NotificationHelpers`, `NotificationRoutes`, `ResetAnnualLeave`.
- `ApiClient`: `apiFetch`, the same in both pages.
- `Dashboard`: the main page.
- `LeaveReview`: the review page.

Three properties of the code as written are proved, not reported as defects:

- Handled one request at a time, the two "duplicate" answers (409) of the submission route can
  never be given: a stored active application with the same dates always trips the earlier
  overlap check (400). `LeaveRoutes.DuplicateAnswersNeedConcurrency` proves it.
- The review page checks only the lower bound of a rejection reason (5 characters). The server
  also demands at most 500. `LeaveReview.LongReasonIsRefused` shows a longer reason is sent as
  it is and refused with a validation error.
- The review page measures the reason with JavaScript's `length`, which counts UTF-16 code
  units. The server counts characters. `LeaveReview.WideShortReasonIsRefused` shows that three
  emoji pass the page's check (length 6) and are refused by the server (3 characters).

## Model

| member | source | states |
|---|---|---|
| Text.Lower | scripts/reset_al_balances.js:47 | The result has the input's length and lower-cases exactly the ASCII capitals, position by position. |
| Text.LowerIdempotent | public/script.js:3512 | Lower-casing twice is the same as lower-casing once. |
| Text.ContainsIff | scripts/reset_al_balances.js:47 | `includes` holds exactly when the needle occurs at some position of the text. |
| Text.Trim | public/leave-review.js:191 | The result has no blank at either end. It is the piece of the input between a run of leading blanks and a run of trailing blanks, so only blanks were removed. |
| Text.TrimEndsClean | public/leave-review.js:191 | Neither end of the trimmed text is a blank. |
| Text.TrimIsPiece | public/leave-review.js:191 | The trimmed text is the input with its leading blanks and its trailing blanks cut off. |
| Text.TrimUnchanged | public/leave-review.js:192 | A text with no blank at either end is its own trim. |
| Text.TrimIdempotent | public/leave-review.js:225 | Trimming twice is the same as trimming once. |
| Text.Utf16Length | public/leave-review.js:191 | JavaScript's `length`: between one and two units per character. It equals the character count exactly when no character lies outside the Basic Multilingual Plane. |
| Paging.TotalPages | routes/notifications.js:69 | `Math.ceil(count / limit)`: the fewest pages that hold all rows; zero exactly when there are no rows. |
| Paging.PageOf | routes/notifications.js:50-55 | The page holds the rows from offset `(page - 1) * limit`, in order, at most `limit` of them. |
| Paging.RowOnOnePage | routes/notifications.js:30 | Row `i` lies on page `i / limit + 1` and on no other page, and that page exists. |
| Common.FilterMultiplicity | routes/notifications.js:29-52 | A filter keeps every row that passes as often as the table holds it, and drops every other row. |
| Common.FilterKeepsDistinct | scripts/reset_al_balances.js:47 | If no two elements of a table share a key, no two elements of a filtered table do. |
| Paging.PageOfElement | routes/notifications.js:50-55 | Every row appears on some existing page. |
| Paging.RecordRange | public/script.js:1938-1941 | On an existing page, the first record is in range and the "showing x to y" range has the page's length. |
| Sorting.SortDesc | routes/notifications.js:52 | The result is ordered by the key, largest first, and is a permutation of the input. |
| Sorting.SortDescKeepsElements | routes/notifications.js:52 | Sorting keeps the length and exactly the elements. |
| Sorting.SortInPlaceDesc | public/script.js:749-753 | The array ends ordered newest first and is a permutation of what it held. |
| Domain.FindUser | routes/leaves.js:764-777 | A found user is in the table with that id; none is found only when no user has it. |
| Domain.ActiveReviewers | utils/notifications.js:118-123 | Exactly the active managers, HR and admins, in table order. |
| Domain.FindBalance | routes/leaves.js:165-170 | A found balance row matches user, type and year; none is found only when no row does. |
| LeaveRoutes.HttpStatus | routes/leaves.js:94-102 | The duplicate answers are 409, a missing application 404, a refused caller 403, everything else 400. |
| LeaveRoutes.WellFormed | routes/leaves.js:72-80 | The body rules: a reason of 10 to 500 characters, a half-day type of 'morning' or 'afternoon' when given, an emergency contact of 5 to 100 characters when given, handover notes of at most 1000 characters. |
| LeaveRoutes.NumberOfDays | routes/leaves.js:157-160 | An ordered range takes at least half a day, and a half day takes exactly half a day less than the full range. |
| LeaveRoutes.NumberOfDaysCountsCalendarDays | routes/leaves.js:157-160 | The day count is the number of calendar days in the range, less one half for a half day, and at least one half. |
| LeaveRoutes.OverlapClauseIffIntersect | routes/leaves.js:208-244 | The three-way overlap condition of the query holds exactly when the two date ranges share a day. |
| LeaveRoutes.BalanceFor | routes/leaves.js:165-189 | The balance used belongs to the applicant, the type and the year, and comes from the table before or after initialisation. |
| LeaveRoutes.CheckSubmission | routes/leaves.js:94-329 | Each refusal in the order the route checks them: invalid body, start in the past, end before start, balance missing or too small, overlap, recent duplicate, older duplicate. The first five each hold exactly when their check is the first to fail. Acceptance holds exactly when none applies, and it yields the day count. |
| LeaveRoutes.DuplicateAnswersNeedConcurrency | routes/leaves.js:208-271 | Against a fixed table every refusal is a 400: the 409 duplicate answers cannot occur sequentially. |
| LeaveRoutes.RepeatIsRefused | routes/leaves.js:208-244 | Submitting the same dates again while an earlier application is pending or approved is refused. |
| LeaveRoutes.AcceptedApplicationIsClear | routes/leaves.js:165-244 | An accepted application shares no day with the applicant's active applications, and a balance row covering its days exists. |
| LeaveRoutes.NewLeave | routes/leaves.js:274-286 | The stored application carries the applicant, type, dates and day count, and starts pending with no approver. |
| LeaveRoutes.FindLeave | routes/leaves.js:507 | `findByPk`: the application whose id is its position in the table, if there is one. |
| LeaveRoutes.CanView | routes/leaves.js:539-542 | The owner, any manager, HR or admin user, and the approver may read an application. |
| LeaveRoutes.ViewLeave | routes/leaves.js:505-549 | 404 exactly when the id is unknown; 403 exactly when the caller is neither the applicant, nor a reviewer, nor the approver; otherwise the application. |
| LeaveRoutes.CancelOutcome | routes/leaves.js:560-590 | 404 for an unknown id, 403 for another user's application, 400 for one not pending, each exactly; otherwise the application marked cancelled. |
| LeaveRoutes.ManagerOf | routes/leaves.js:794-796 | A manager found belongs to a user with that id; a user who is not in the table has none. |
| LeaveRoutes.ReviewOutcome | routes/leaves.js:748-818 | In order: invalid body, unknown id, not pending, and a manager outside the team, each exactly. A decision sets the status, the approver, the time, the reason only on rejection and the notes only when given, and changes nothing else. |
| LeaveRoutes.DecisionNotice | routes/leaves.js:832-840 | The notice goes to the applicant and refers to the application. |
| LeaveRoutes.DecisionNoticeAgreesWithHelper | routes/leaves.js:832-840 | The route's notice and the shared approval helper agree on recipient, title, type, category and related record. |
| LeaveRoutes.TeamOf | routes/leaves.js:621-627 | Exactly the ids of the users whose manager is the caller. |
| LeaveRoutes.ApprovalQueue | routes/leaves.js:618-644 | Exactly the pending applications: every one for HR and admin, the team's for a manager, oldest first. Each appears as often as in the table. |
| LeaveRoutes.PendingApprovals | routes/leaves.js:601-663 | The page holds exactly the rows at page `page` of the queue, oldest first, and the totals describe the whole queue. |
| LeaveRoutes.QueuedLeaveIsOnAPage | routes/leaves.js:615-663 | Every queued application appears on some page of the listing. |
| LeaveRoutes.QueuedLeaveIsReviewable | routes/leaves.js:618-803 | Every application in a reviewer's queue can be decided by that reviewer with a valid body. |
| LeaveRoutes.FindUniqueUser | routes/leaves.js:764-777 | With unique user ids, looking a user up by id finds that user. |
| LeaveRoutes.OnePendingPerKey | routes/leaves.js:247-329 | In a store that keeps its invariant, no two pending applications of one user have the same dates. |
| LeaveRoutes.LeaveStore.Submit | routes/leaves.js:94-410 | Refusals leave the store unchanged and send nothing. Acceptance appends the new application with the next id and keeps the store invariant. It returns the submission notices: the confirmation to the applicant first, then one alert to the manager, or to each active reviewer when there is no manager. |
| LeaveRoutes.LeaveStore.Cancel | routes/leaves.js:560-590 | Answers as `CancelOutcome`, writes only the cancelled application, and no status moves except away from pending. |
| LeaveRoutes.LeaveStore.Review | routes/leaves.js:748-845 | Answers as `ReviewOutcome`, writes only the decided application, sends the decision notice only on success, and keeps the invariant. |
| NotificationHelpers.ReviewerAlert | utils/notifications.js:106-115 | Addressed to the given reviewer, with role 'manager', category leave request, about the application. |
| NotificationHelpers.LeaveRequestNotifications | utils/notifications.js:54-76 | One alert per active reviewer, in table order, each with role 'manager' and about the application. |
| NotificationHelpers.Confirmation | utils/notifications.js:93-102 | The applicant's own 'Leave Submitted' notice: role 'employee', category system, type info, about the application. |
| NotificationHelpers.AlertEach | utils/notifications.js:125-136 | One alert per reviewer, in order, each addressed to that reviewer. |
| NotificationHelpers.CreateLeaveSubmissionNotifications | utils/notifications.js:88-141 | The confirmation comes first. It is followed by one alert to the applicant's manager when there is one, and otherwise one alert to each active reviewer. |
| NotificationHelpers.ApprovalNotice | utils/notifications.js:148-158 | To the applicant. The type is success exactly for an approval, and the category is approval or rejection to match. |
| NotificationHelpers.SystemNotice | utils/notifications.js:167-175 | The given recipient, title and text, category system, and the given type (info by default). |
| NotificationHelpers.ReminderNotice | utils/notifications.js:184-192 | The given recipient, title and text, type warning, category reminder. |
| NotificationRoutes.Selected | routes/notifications.js:29-52 | Exactly the rows addressed to the caller or to the caller's role that pass the filters, newest first. Each appears as often as in the table. |
| NotificationRoutes.List | routes/notifications.js:12-73 | The page holds exactly the rows at page `page` of the selection, newest first, and the totals describe the whole selection. |
| NotificationRoutes.VisibleRowIsOnAPage | routes/notifications.js:29-73 | Every row the caller may list appears on some page. |
| NotificationRoutes.IndexOfId | routes/notifications.js:86 | A found position holds that id; none is found only when no row has it. |
| NotificationRoutes.OwnRow | routes/notifications.js:84-100 | 404 exactly when the id is unknown, 403 exactly when the row is someone else's, otherwise the caller's row. |
| NotificationRoutes.ViewNotification | routes/notifications.js:205-229 | 404 exactly when the id is unknown; the row is shown exactly to its addressee or to a user of its recipient role. |
| NotificationRoutes.OpenableIsListed | routes/notifications.js:35-42 | A notification the caller may open also appears in the caller's list. |
| NotificationRoutes.ListedButNotOpenable | routes/notifications.js:220-226 | The converse fails. The list ignores the case of the role and opening does not, so a notice addressed to 'Manager' is listed for a 'manager' who cannot open it. |
| NotificationRoutes.MarkedRead | routes/notifications.js:102-105 | The row becomes read at the given time, and nothing else changes. |
| NotificationRoutes.MarkedReadIdempotent | routes/notifications.js:102-105 | Marking read twice equals marking read once at the later time. |
| NotificationRoutes.MarkReadRepeatable | routes/notifications.js:84-110 | Marking a row read again finds the same row and succeeds again. |
| NotificationRoutes.SameIdsSameIndex | routes/notifications.js:86 | Tables with the same ids find an id at the same position. |
| NotificationRoutes.UnreadCount | routes/notifications.js:183-194 | The caller's unread rows, never more than the table holds. |
| NotificationRoutes.UnreadCountAfterCreate | utils/notifications.js:4-21 | A new unread notice raises its addressee's unread count by one and nobody else's. |
| NotificationRoutes.ReadAllRows | routes/notifications.js:121-134 | Exactly the caller's unread rows become read; all other rows stay as they were. |
| NotificationRoutes.ReadAllClearsUnread | routes/notifications.js:121-139 | Afterwards the caller has no unread rows and every other user's count is unchanged. |
| NotificationRoutes.SameCountWhereUnchanged | routes/notifications.js:183-194 | A user's unread count depends only on that user's rows. |
| NotificationRoutes.Without | routes/notifications.js:168 | The row is removed, the others keep their order, and with unique ids the removed id is gone. |
| NotificationRoutes.WithoutKeepsIds | routes/notifications.js:168 | Removing a row keeps the ids unique and below the next id. |
| NotificationRoutes.NotificationTable.Create | utils/notifications.js:4-21 | Appends one unread row with the next id and the creation time. |
| NotificationRoutes.NotificationTable.BulkCreate | utils/notifications.js:28-47 | Appends one unread row per draft, in order, with consecutive ids. |
| NotificationRoutes.NotificationTable.MarkRead | routes/notifications.js:84-110 | Answers as `OwnRow`; on success it replaces only that row with its read form. |
| NotificationRoutes.NotificationTable.ReadAll | routes/notifications.js:121-139 | Marks exactly the caller's unread rows read and reports how many there were. |
| NotificationRoutes.NotificationTable.Delete | routes/notifications.js:150-171 | Answers as `OwnRow`; on success that row, and only it, is gone. |
| ResetAnnualLeave.FinancialYear | scripts/reset_al_balances.js:35-40 | The calendar year or the one before, and the calendar year exactly from April on. |
| ResetAnnualLeave.FinancialYearByMonthIndex | scripts/reset_al_balances.js:35-40 | The financial year is the number of whole years since April of year 0, counting months. |
| ResetAnnualLeave.FinancialYearMonotone | scripts/reset_al_balances.js:35-40 | A later month never has an earlier financial year. |
| ResetAnnualLeave.MatchAnnualTypes | scripts/reset_al_balances.js:46-52 | Aborts exactly when no active type's name contains 'annual' in any case; otherwise exactly those active types, in order. |
| ResetAnnualLeave.DesiredRow | scripts/reset_al_balances.js:65-75 | The desired row keeps the employee, the type and the year. |
| ResetAnnualLeave.DesiredRowIsFresh | scripts/reset_al_balances.js:65-75 | The desired row has the whole allowance left, keeps the balance rule, and has a carry-over cap of 5. |
| ResetAnnualLeave.EntryFor | scripts/reset_al_balances.js:64-81 | The entry has the user's, the type's and the year's key. It found no row exactly when the table has no row with that key, and a row it found is in the table with that key. |
| ResetAnnualLeave.Preview | scripts/reset_al_balances.js:62-82 | Every row the preview found is a row of the table with its entry's user, type and year. |
| ResetAnnualLeave.EntriesForAt | scripts/reset_al_balances.js:64-81 | The entry for type `j` of an employee pairs that type with its stored row, if any. |
| ResetAnnualLeave.PreviewLength | scripts/reset_al_balances.js:62-82 | The preview has one entry per employee and matched type. |
| ResetAnnualLeave.PreviewAt | scripts/reset_al_balances.js:62-82 | The entry at `i * types + j` is for employee `i` and type `j`. |
| ResetAnnualLeave.PreviewShape | scripts/reset_al_balances.js:62-82 | Both facts together, for every employee and type. |
| ResetAnnualLeave.PreviewDistinctKeys | scripts/reset_al_balances.js:62-82 | With unique user and type ids, no two entries are for the same user, type and year. |
| ResetAnnualLeave.BuildPreview | scripts/reset_al_balances.js:62-82 | The nested loops build exactly the preview. |
| ResetAnnualLeave.Reassigned | scripts/reset_al_balances.js:114-120 | The row with the id gets the desired allowance, remaining days and carry-over cap, with nothing used or carried over. Its key fields are kept and every other row is unchanged. |
| ResetAnnualLeave.ApplyOne | scripts/reset_al_balances.js:111-136 | An update rewrites amounts only and keeps the row count; a creation appends one row. The old rows keep their keys and the next id never goes down. |
| ResetAnnualLeave.ApplyOneKeepsValid | scripts/reset_al_balances.js:111-136 | A step keeps the ids a primary key below the next id. |
| ResetAnnualLeave.ApplyAll | scripts/reset_al_balances.js:110-137 | The next id never goes down. |
| ResetAnnualLeave.ApplyAllKeepsValid | scripts/reset_al_balances.js:110-137 | The whole loop keeps the ids a primary key below the next id. |
| ResetAnnualLeave.ApplySurvives | scripts/reset_al_balances.js:110-137 | A row whose key no remaining entry has ends exactly as it was. |
| ResetAnnualLeave.ApplyRealises | scripts/reset_al_balances.js:110-137 | With one entry per key, every entry's wanted balance ends in the table. It is in the row the entry found, or in a row created with an id that was not in use. |
| ResetAnnualLeave.RunResetsBalances | scripts/reset_al_balances.js:15-16 | After a run, every active employee's balance for each annual type this year has total and remaining days equal to the default days, nothing used, nothing carried over, and a carry-over cap of 5. |
| ResetAnnualLeave.ApplyKeepsKeys | scripts/reset_al_balances.js:110-137 | Applying adds one row per missing entry and never changes a row's id, user, type or year. |
| ResetAnnualLeave.ApplyKeepsConsistency | scripts/reset_al_balances.js:110-137 | If the table kept the balance rule before, it keeps it after applying a full-allowance preview. |
| ResetAnnualLeave.EntriesForFull | scripts/reset_al_balances.js:64-75 | Every desired row of one employee is a full allowance. |
| ResetAnnualLeave.PreviewFull | scripts/reset_al_balances.js:62-82 | Every desired row of the preview is a full allowance. |
| ResetAnnualLeave.BalanceTable.Apply | scripts/reset_al_balances.js:105-140 | The table becomes the preview applied to it, and its ids stay a primary key below the next id. The counts are the entries with and without a stored row, and they add up to the preview's length. |
| ResetAnnualLeave.Reset | scripts/reset_al_balances.js:24-146 | Aborts when no type matches. A dry run returns the preview and leaves the table alone. With `--run` it applies that preview and reports the counts. Then, with unique user and type ids, every active employee has each annual type's balance for the financial year reset to its default days. |
| ApiClient.BuildUrl | public/script.js:12 | A path starting with 'http' is used as it is; any other goes after the base and one '/', and the URL ends with the path. |
| ApiClient.LeadingSlashIsOptional | public/leave-review.js:14 | A path gives the same URL with or without its leading '/'. |
| ApiClient.GetAuthToken | public/script.js:6-8 | Nothing exactly when no token key holds a value; otherwise the value of the first key that does. |
| ApiClient.BuildHeaders | public/script.js:14-21 | A token sets the bearer authorization. A JSON content type is added only for a non-empty, non-form body without one. Every other header is kept. |
| ApiClient.Prepare | public/leave-review.js:13-20 | The request goes to the built URL with the body unchanged and carries the stored token when there is one. |
| ApiClient.AfterResponse | public/script.js:27-34 | A 401 removes every token key and nothing else; any other status leaves storage alone. |
| ApiClient.LoggedOutAfter401 | public/leave-review.js:22-26 | After a 401 no token is found, and the next request carries no authorization. |
| Dashboard.FirstWithKey | public/script.js:737-746 | The first leave with a given key, or none exactly when no leave has it. |
| Dashboard.KeyOf | public/script.js:742 | The de-duplication key: the id when it is present, otherwise the text of dates, day count and reason. |
| Dashboard.DedupeFrom | public/script.js:737-746 | Keeps only leaves that are present and whose key was not seen, never more than the input. |
| Dashboard.ConsKeysDistinct | public/script.js:737-746 | Putting a leave with a new key in front keeps the keys distinct. |
| Dashboard.DedupeKeysUnique | public/script.js:737-746 | No two kept leaves share a key. |
| Dashboard.DedupeKeepsFirst | public/script.js:737-746 | Each kept leave is the first leave in the input with its key. |
| Dashboard.DedupeCoversKey | public/script.js:737-746 | Every key in the input that was not already seen is kept. |
| Dashboard.DedupeStep | public/script.js:737-746 | One loop step: a leave is kept exactly when present with an unseen key. |
| Dashboard.CreatedKey | public/script.js:750-751 | The sort key: the creation time, or 0 when there is none. |
| Dashboard.Dedupe | public/script.js:737-746 | The loop yields exactly the de-duplicated list. |
| Dashboard.DisplayLeaves | public/script.js:729-753 | The shown list is a permutation of the de-duplicated list, sorted newest first. |
| Dashboard.DisplayedKeysAreUnique | public/script.js:737-753 | Shown leaves have distinct keys. Each is the first with its key, and every key in the input is shown. |
| Dashboard.CalculateHours | public/script.js:1578-1596 | Hours exist exactly when both dates are set and in order, and are 8 per calendar day. |
| Dashboard.Ceil | public/script.js:1188 | `Math.ceil`: the least whole number not below the value. |
| Dashboard.CalculateEndDate | public/script.js:1178-1193 | An end date exists exactly with a start and positive hours, and is the fewest 8-hour days that cover them. |
| Dashboard.EndDateOfHours | public/script.js:1178-1193 | Going from dates to hours and back gives the same end date. |
| Dashboard.HoursOfEndDate | public/script.js:1178-1596 | Going from hours to an end date and back covers the hours, with less than one day to spare. |
| Dashboard.UpdateAuditStats | public/script.js:1876-1886 | The counts of all, successful, failed and high-severity logs; successful and failed add up to all. |
| Dashboard.NumberButtons | public/script.js:1922-1928 | One button per page of the window, in order; exactly the current page is not a link. |
| Dashboard.AuditView.Initial | public/script.js:1755-1758 | The page starts with no logs, on page 1, showing nothing. |
| Dashboard.AuditView.ChangeAuditPage | public/script.js:1947-1953 | An existing page becomes current; any other page changes nothing. |
| Dashboard.AuditView.DisplayAuditPagination | public/script.js:1895-1945 | Hidden exactly for one page or none. Previous and next exist exactly away from the ends. At most five buttons, centred on the current page. The record range matches the shown page. |
| Dashboard.ActionBadgeClass | public/script.js:2451-2461 | The default colour exactly for unknown actions, and danger exactly for deletion. |
| Dashboard.CategoryBadgeClass | public/script.js:2463-2473 | The default colour exactly for unknown categories, and danger exactly for security. |
| Dashboard.SeverityBadgeClass | public/script.js:2475-2483 | Default, success and warning each exactly for their severities. |
| Dashboard.HighSeverityIsDanger | public/script.js:2475-2483 | The audit statistics count as high severity exactly the logs whose badge is danger. |
| Dashboard.ByStatus | public/script.js:3509-3527 | Keeps, in order, exactly the rows of the chosen status, or every row when none is chosen. Each kept row appears as often as in the input. |
| Dashboard.ByTerm | public/script.js:3509-3527 | Keeps, in order, exactly the rows whose first name, last name or department contains the term, ignoring case. Each kept row appears as often as in the input. |
| Dashboard.FilterApprovals | public/script.js:3509-3527 | Keeps, in order, exactly the rows passing both filters, with the term lower-cased. Each kept row appears as often as in the input. |
| Dashboard.FilterIgnoresTermCase | public/script.js:3509-3527 | The search box's letter case does not change the result. |
| Dashboard.SpliceOne | public/script.js:1644-1647 | `splice(index, 1)`: removes the one element at the index, counting from the end for a negative index. |
| Dashboard.AttachmentList.AddAttachment | public/script.js:1599-1614 | The chosen files are appended, in order. |
| Dashboard.AttachmentList.RemoveAttachment | public/script.js:1644-1647 | The list becomes the spliced list. |
| Dashboard.RemoveUndoesAdd | public/script.js:1599-1647 | Removing the last added file restores the list. |
| LeaveReview.ReviewPage.SetupActions | public/leave-review.js:168-221 | The action panel shows exactly for a reviewer on a pending leave, and so do the form buttons when present. A failed request hides the panel only. |
| LeaveReview.RejectionToSend | public/leave-review.js:190-192 | A reason is sent exactly when the trimmed answer's `length` is at least five UTF-16 code units, and it is the trimmed answer. |
| LeaveReview.Payload | public/leave-review.js:223-228 | Always the action. The trimmed notes only when not blank. The reason only for a rejection. |
| LeaveReview.Click | public/leave-review.js:188-211 | Approve always sends. Reject sends exactly when a usable reason was given, and sends that reason. |
| LeaveReview.ApproveUrl | public/leave-review.js:230 | The review is sent to `/api/leaves/<id>/approve`. |
| LeaveReview.ApprovePath | public/leave-review.js:230 | The path `/leaves/<id>/approve` that `ApproveUrl` turns into the request URL. |
| LeaveReview.SentReviewIsAccepted | public/leave-review.js:223-233 | What the page sends passes the server's checks when the reason has 5 to 500 characters. A decision records exactly the action, reason and notes sent. |
| LeaveReview.LongReasonIsRefused | public/leave-review.js:190-192 | A reason over 500 characters with no surrounding blanks is sent unchanged, and the server refuses it as invalid. |
| LeaveReview.WideShortReasonIsRefused | public/leave-review.js:190-192 | Three emoji have a `length` of six, so the page sends them, and the server refuses them as a reason under five characters. |

## Left out

- File uploads (multer storage and the upload limits) are not modelled. Attachments are handled only as the client's list of chosen files.
- The listing routes of the leave router (`/`, `/my-leaves`, `/all`, `/types`) and the notification audit route are outside this model.
- Database transactions, row locking and concurrent requests are not modelled. Requests are handled one at a time, so the 409 paths are reachable only as `DuplicateAnswersNeedConcurrency` describes.
- Clocks, time zones and date parsing are not modelled. Today, now, the duplicate window, the calendar year and the month are parameters.
- Real-time socket events, audit logging and console output have no effect on the modelled state.
- The server's balance initialisation is not part of this model, so the balance table after initialisation is a parameter of `BalanceFor`.
- The authentication and reviewer-role middleware is not part of this model. The reviewer routes require a manager, HR or admin caller instead.
- The fallback that creates notifications directly when the helper fails (routes/leaves.js:357-401) is not modelled: the helper is modelled as always succeeding.
- DOM rendering, alerts, prompts, timers, redirects and `fetch` itself are not modelled. A prompt's answer, the notes box and the `/auth/me` answer are parameters.
- The JSON encoding of the review payload and of request bodies is not modelled.
- Floating point is not modelled: day counts are exact reals, and `toFixed` and `parseFloat` rounding are left out.
- Lower-casing covers ASCII letters only; other scripts' capitals are left as they are.
- Notice titles and messages are templates (the amounts and names they mention), not rendered strings.
- Sorting.SortInPlaceDesc is not proved stable; the browser's `sort` keeps equal keys in order, so ties among equal creation times may be shown in another order.
- Dashboard.DisplayLeaves: its contract does not fix the order of leaves with equal creation times, which the browser's stable `sort` keeps in the order the server sent them; this follows from Sorting.SortInPlaceDesc not being proved stable.
- LeaveRoutes.WellFormed and LeaveRoutes.ReviewBodyValid count the characters (code points) of a string, as the server's `isLength` checks do for surrogate pairs. Any further counting rule of the validator library is not part of this model.
- ResetAnnualLeave.Reset: the reset promise is stated for user and leave-type tables with unique ids, as their primary keys give. A `BalanceTable` starts with unique ids below its next id, as the balance table's primary key and auto-increment give.
- The badge maps are plain string maps; keys inherited from JavaScript's object prototype are not modelled.
- Where the dashboard script declares a function twice, the later declaration replaces the earlier one. The functions modelled here are declared once, except `loadAuditLogs`.
- Dashboard.AuditView.constructor: an assumed loaded state. It is what the success branch of the first `loadAuditLogs` (public/script.js:1760-1830) would leave, with the fetched logs as a parameter. The later `loadAuditLogs` (public/script.js:3720-3723) only logs and replaces it. The shipped page therefore stays in the `Dashboard.AuditView.Initial` state, with no logs (public/script.js:1755-1758). There, `updateAuditStats` and `displayAuditPagination` are reached only from the replaced body or from the buttons that body renders. The query string, filters and error display are left out.
- ApiClient.BuildHeaders: header names are lower-case map keys and the given names are assumed lower-case already, as the Headers object stores them.
- LeaveRoutes.NumberOfDays, LeaveRoutes.CheckSubmission: the `isHalfDay` flag is a `bool` standing for the JavaScript truthiness of the submitted value. The route reads multipart form bodies, where every field is a string, and `isBoolean()` accepts "false" and "0", both of which are truthy; such a post is charged half a day less. The model does not represent the raw submitted value, only the truthiness the route tests.
- Dashboard.DisplayLeaves: the render cache that skips an unchanged list, the check that the input is an array and the "no leaves" message are left out.
- LeaveRoutes.FindLeave relies on ids being table positions, as an autoincrement key with no deletions gives.
- LeaveReview.ReviewPage.SetupActions: an exception thrown after the request is modelled as the failed request.
