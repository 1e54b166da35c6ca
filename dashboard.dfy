/** The logic inside the dashboard page: de-duplicating and ordering the employee's leave list,
    converting between a date range and leave hours, the audit-log table's paging and statistics,
    the badge classes, the approval filter and the attachment list of the application form. */
module Dashboard {
  import opened Common
  import opened Domain
  import opened Text
  import Paging
  import Sorting
  import LeaveRoutes

  // ---------------------------------------------------------------- leave list

  /** A leave as the list endpoint returns it to the page. The text fields take part in the
      fallback key of a leave without an id; `createdAt` is the parsed timestamp, if any. */
  datatype ClientLeave = ClientLeave(
    id: Option<nat>,
    startDate: string,
    endDate: string,
    numberOfDays: string,
    reason: string,
    createdAt: Option<int>)

  /** The key of the de-duplicating Map: the id when it is truthy, otherwise the string
      startDate_endDate_numberOfDays_reason. A number and a string are different Map keys. */
  datatype LeaveKey = IdKey(id: nat) | TextKey(text: string)

  function KeyOf(l: ClientLeave): LeaveKey {
    if IdPresent(l.id) then IdKey(l.id.value)
    else TextKey(l.startDate + "_" + l.endDate + "_" + l.numberOfDays + "_" + l.reason)
  }

  /** The first non-null element with key k: the reference for which copy is kept. */
  function FirstWithKey(items: seq<Option<ClientLeave>>, k: LeaveKey): (r: Option<ClientLeave>)
    ensures r.Some? ==> Some(r.value) in items && KeyOf(r.value) == k
    ensures r.None? ==> forall i :: 0 <= i < |items| && items[i].Some? ==> KeyOf(items[i].value) != k
  {
    if items == [] then None
    else if items[0].Some? && KeyOf(items[0].value) == k then items[0]
    else
      var r := FirstWithKey(items[1..], k);
      assert forall i :: 1 <= i < |items| ==> items[i] == items[1..][i - 1];
      r
  }

  /** The values the Map holds after the loop over `items`, in insertion order, when it starts
      with the keys `seen` already present. Null entries are skipped; the first element with a
      key wins. */
  function DedupeFrom(items: seq<Option<ClientLeave>>, seen: set<LeaveKey>): (r: seq<ClientLeave>)
    ensures |r| <= |items|
    ensures forall x :: x in r ==> Some(x) in items && KeyOf(x) !in seen
    decreases |items|
  {
    if items == [] then []
    else if items[0].Some? && KeyOf(items[0].value) !in seen then
      [items[0].value] + DedupeFrom(items[1..], seen + {KeyOf(items[0].value)})
    else DedupeFrom(items[1..], seen)
  }

  /** No two leaves of r share a key. */
  predicate KeysDistinct(r: seq<ClientLeave>) {
    forall i, j :: 0 <= i < j < |r| ==> KeyOf(r[i]) != KeyOf(r[j])
  }

  /** Putting a leave whose key is new in front keeps the keys distinct. */
  lemma ConsKeysDistinct(h: ClientLeave, rest: seq<ClientLeave>)
    requires KeysDistinct(rest) && forall x :: x in rest ==> KeyOf(x) != KeyOf(h)
    ensures KeysDistinct([h] + rest)
  {
    var r := [h] + rest;
    forall i, j | 0 <= i < j < |r|
      ensures KeyOf(r[i]) != KeyOf(r[j])
    {
      assert r[j] == rest[j - 1];
      if i > 0 {
        assert r[i] == rest[i - 1];
      }
    }
  }

  /** No two kept leaves share a key. */
  lemma {:induction false} DedupeKeysUnique(items: seq<Option<ClientLeave>>, seen: set<LeaveKey>)
    ensures KeysDistinct(DedupeFrom(items, seen))
    decreases |items|
  {
    if items != [] {
      if items[0].Some? && KeyOf(items[0].value) !in seen {
        var k := KeyOf(items[0].value);
        DedupeKeysUnique(items[1..], seen + {k});
        ConsKeysDistinct(items[0].value, DedupeFrom(items[1..], seen + {k}));
      } else {
        DedupeKeysUnique(items[1..], seen);
      }
    }
  }

  /** The leave kept for a key is the first one in the answer with that key. */
  lemma {:induction false} DedupeKeepsFirst(items: seq<Option<ClientLeave>>, seen: set<LeaveKey>)
    ensures forall x :: x in DedupeFrom(items, seen) ==> FirstWithKey(items, KeyOf(x)) == Some(x)
    decreases |items|
  {
    if items != [] {
      var r := DedupeFrom(items, seen);
      if items[0].Some? && KeyOf(items[0].value) !in seen {
        var k := KeyOf(items[0].value);
        DedupeKeepsFirst(items[1..], seen + {k});
        forall x | x in r
          ensures FirstWithKey(items, KeyOf(x)) == Some(x)
        {
          if x != items[0].value {
            assert x in DedupeFrom(items[1..], seen + {k});
          }
        }
      } else {
        DedupeKeepsFirst(items[1..], seen);
        forall x | x in r
          ensures FirstWithKey(items, KeyOf(x)) == Some(x)
        {
          assert x in DedupeFrom(items[1..], seen);
        }
      }
    }
  }

  /** Every key of the answer that was not already present gets a leave; `x` is that leave. */
  lemma {:induction false} DedupeCoversKey(items: seq<Option<ClientLeave>>, seen: set<LeaveKey>, i: nat) returns (x: ClientLeave)
    requires i < |items| && items[i].Some? && KeyOf(items[i].value) !in seen
    ensures x in DedupeFrom(items, seen) && KeyOf(x) == KeyOf(items[i].value)
    decreases |items|
  {
    if items[0].Some? && KeyOf(items[0].value) !in seen && KeyOf(items[i].value) == KeyOf(items[0].value) {
      x := items[0].value;
    } else {
      var seen' := if items[0].Some? && KeyOf(items[0].value) !in seen then seen + {KeyOf(items[0].value)} else seen;
      assert items[i] == items[1..][i - 1];
      x := DedupeCoversKey(items[1..], seen', i - 1);
    }
  }

  /** One step of the loop: the element at i is either kept or skipped. */
  lemma DedupeStep(items: seq<Option<ClientLeave>>, seen: set<LeaveKey>, i: nat)
    requires i < |items|
    ensures DedupeFrom(items[i..], seen) ==
      if items[i].Some? && KeyOf(items[i].value) !in seen
      then [items[i].value] + DedupeFrom(items[i + 1..], seen + {KeyOf(items[i].value)})
      else DedupeFrom(items[i + 1..], seen)
  {
    assert items[i..][0] == items[i] && items[i..][1..] == items[i + 1..];
  }

  /** The loop of `displayLeaves` that fills the Map. */
  method Dedupe(items: seq<Option<ClientLeave>>) returns (unique: seq<ClientLeave>)
    ensures unique == DedupeFrom(items, {})
  {
    var seen: set<LeaveKey> := {};
    unique := [];
    assert items[0..] == items;
    for i := 0 to |items|
      invariant unique + DedupeFrom(items[i..], seen) == DedupeFrom(items, {})
    {
      DedupeStep(items, seen, i);
      match items[i]
      case None =>
      case Some(l) =>
        var k := KeyOf(l);
        if k !in seen {
          seen := seen + {k};
          unique := unique + [l];
        }
    }
    assert items[|items|..] == [];
  }

  /** The sort key: the creation time, or 0 for a leave without one. */
  function CreatedKey(l: ClientLeave): int {
    if l.createdAt.Some? then l.createdAt.value else 0
  }

  /** `displayLeaves`: the de-duplicated leaves, newest first. */
  method DisplayLeaves(items: seq<Option<ClientLeave>>) returns (shown: seq<ClientLeave>)
    ensures multiset(shown) == multiset(DedupeFrom(items, {}))
    ensures forall x :: x in shown <==> x in DedupeFrom(items, {})
    ensures Sorting.SortedDesc(shown, CreatedKey)
  {
    var unique := Dedupe(items);
    var a := new ClientLeave[|unique|](i requires 0 <= i < |unique| => unique[i]);
    assert a[..] == unique;
    Sorting.SortInPlaceDesc(a, CreatedKey);
    shown := a[..];
    assert forall x :: x in shown <==> x in multiset(shown);
    assert forall x :: x in unique <==> x in multiset(unique);
  }

  /** The displayed list has one leave per key, each the first with that key in the answer, and
      every key of the answer is displayed. */
  lemma DisplayedKeysAreUnique(items: seq<Option<ClientLeave>>, shown: seq<ClientLeave>)
    requires multiset(shown) == multiset(DedupeFrom(items, {}))
    ensures forall x :: x in shown ==> FirstWithKey(items, KeyOf(x)) == Some(x)
    ensures forall x, y :: x in shown && y in shown && KeyOf(x) == KeyOf(y) ==> x == y
    ensures forall i :: (0 <= i < |items| && items[i].Some?
                         ==> exists x :: x in shown && KeyOf(x) == KeyOf(items[i].value))
  {
    var u := DedupeFrom(items, {});
    assert forall x :: x in shown <==> x in u by {
      assert forall x :: x in shown <==> x in multiset(shown);
      assert forall x :: x in u <==> x in multiset(u);
    }
    DedupeKeepsFirst(items, {});
    forall i | 0 <= i < |items| && items[i].Some?
      ensures exists x :: x in shown && KeyOf(x) == KeyOf(items[i].value)
    {
      var x := DedupeCoversKey(items, {}, i);
      assert x in shown;
    }
  }

  // ---------------------------------------------------------------- hours and dates

  /** `calculateHours`: eight hours per calendar day of the inclusive range; nothing happens when
      a date is missing or the range runs backwards. */
  function CalculateHours(start: Option<int>, end: Option<int>): (hours: Option<real>)
    ensures hours.Some? <==> start.Some? && end.Some? && start.value <= end.value
    ensures hours.Some? ==> hours.value == 8.0 * LeaveRoutes.NumberOfDays(start.value, end.value, false)
    ensures hours.Some? ==> hours.value >= 8.0
  {
    if start.None? || end.None? || end.value < start.value then None
    else Some(((end.value - start.value + 1) * 8) as real)
  }

  /** `Math.ceil` on a real. */
  function Ceil(x: real): (n: int)
    ensures (n - 1) as real < x <= n as real
  {
    if x.Floor as real == x then x.Floor else x.Floor + 1
  }

  /** `calculateEndDate`: the last day of the shortest range of eight-hour days from `start` that
      holds `hours`; nothing happens when the start is missing or the hours are not positive. */
  function CalculateEndDate(start: Option<int>, hours: real): (end: Option<int>)
    ensures end.Some? <==> start.Some? && hours > 0.0
    ensures end.Some? ==> start.value <= end.value
    ensures end.Some? ==> 8.0 * ((end.value - start.value) as real) < hours <= 8.0 * LeaveRoutes.NumberOfDays(start.value, end.value, false)
  {
    var numberOfDays := if hours > 0.0 then hours / 8.0 else 0.0;
    if start.Some? && numberOfDays > 0.0 then Some(start.value + Ceil(numberOfDays) - 1) else None
  }

  /** Hours computed from a range give back that range's end. */
  lemma EndDateOfHours(start: int, end: int)
    requires start <= end
    ensures CalculateEndDate(Some(start), CalculateHours(Some(start), Some(end)).value) == Some(end)
  {
    var n := end - start + 1;
    var h := CalculateHours(Some(start), Some(end)).value;
    assert h == (n * 8) as real == 8.0 * (n as real);
    assert h / 8.0 == n as real;
    assert Ceil(n as real) == n;
  }

  /** The range computed from hours holds those hours and less than one day more. */
  lemma HoursOfEndDate(start: int, hours: real)
    requires hours > 0.0
    ensures var h := CalculateHours(Some(start), CalculateEndDate(Some(start), hours));
            && h.Some? && hours <= h.value < hours + 8.0
  {
  }

  // ---------------------------------------------------------------- audit log table

  /** An audit-log row with the fields the table and its badges read. */
  datatype AuditLog = AuditLog(id: nat, action: string, category: string, severity: string, isSuccessful: bool)

  /** `auditLogsPerPage`. */
  const PerPage: nat := 20

  predicate IsSuccessful(l: AuditLog) { l.isSuccessful }
  predicate IsFailed(l: AuditLog) { !l.isSuccessful }
  predicate IsHighSeverity(l: AuditLog) { l.severity == "high" || l.severity == "critical" }

  datatype AuditStats = AuditStats(total: nat, successful: nat, failed: int, highSeverity: nat)

  /** `updateAuditStats`: failures are what is left after the successes; high severity counts
      'high' and 'critical'. */
  function UpdateAuditStats(logs: seq<AuditLog>): (s: AuditStats)
    ensures s.total == |logs|
    ensures s.successful + s.failed == s.total
    ensures s.successful == Count(logs, IsSuccessful) && s.failed == Count(logs, IsFailed)
    ensures s.highSeverity == Count(logs, IsHighSeverity)
    ensures s.failed >= 0 && s.highSeverity <= s.total
  {
    var successful := |Filter(logs, IsSuccessful)|;
    var high := |Filter(logs, IsHighSeverity)|;
    FilterLength(logs, IsSuccessful);
    FilterLength(logs, IsHighSeverity);
    CountComplement(logs, IsSuccessful, IsFailed);
    AuditStats(|logs|, successful, |logs| - successful, high)
  }

  /** One numbered button: the current page is shown disabled, any other links to its page. */
  datatype PageButton = Current(page: nat) | Link(page: nat)

  /** The controls under the table: Previous and Next targets, the numbered buttons, and the
      "Showing first-last of total records" line. */
  datatype Pagination = Pagination(
    previous: Option<nat>,
    buttons: seq<PageButton>,
    next: Option<nat>,
    firstRecord: int,
    lastRecord: int,
    total: nat)

  /** The `for` loop of `displayAuditPagination`: one button per page from `first` to `last`,
      the current one disabled. */
  method NumberButtons(first: nat, last: nat, current: nat) returns (buttons: seq<PageButton>)
    ensures |buttons| == if first <= last then last - first + 1 else 0
    ensures forall k :: 0 <= k < |buttons| ==> buttons[k].page == first + k
    ensures forall k :: 0 <= k < |buttons| ==> (buttons[k].Current? <==> buttons[k].page == current)
  {
    buttons := [];
    var i := first;
    while i <= last
      invariant first <= i && (first <= last ==> i <= last + 1) && (first > last ==> i == first)
      invariant |buttons| == i - first
      invariant forall k :: 0 <= k < |buttons| ==> buttons[k].page == first + k
      invariant forall k :: 0 <= k < |buttons| ==> (buttons[k].Current? <==> buttons[k].page == current)
    {
      var b := if i == current then Current(i) else Link(i);
      buttons := buttons + [b];
      i := i + 1;
    }
  }

  /** The audit table's state: every loaded log, the current page and the rows on display. */
  class AuditView {
    var allLogs: seq<AuditLog>
    var currentPage: nat
    var shown: seq<AuditLog>

    predicate Valid()
      reads this
    {
      currentPage >= 1 && shown == Paging.PageOf(allLogs, currentPage, PerPage)
    }

    /** The state the page starts in: no logs, on page 1. */
    constructor Initial()
      ensures Valid()
      ensures allLogs == [] && currentPage == 1 && shown == []
    {
      allLogs := [];
      currentPage := 1;
      shown := [];
    }

    /** The state the successful branch of the first `loadAuditLogs(page)` declaration leaves:
        every log is kept and the rows of `page` are displayed. A later declaration of
        `loadAuditLogs` that only logs replaces it, so the page as shipped never reaches this
        state; it is the state the audit functions are written for. */
    constructor (logs: seq<AuditLog>, page: nat)
      requires page >= 1
      ensures Valid()
      ensures allLogs == logs && currentPage == page
    {
      allLogs := logs;
      currentPage := page;
      shown := Paging.PageOf(logs, page, PerPage);
    }

    /** `changeAuditPage`: a page that exists becomes current and its rows are displayed; any
        other page number changes nothing. */
    method ChangeAuditPage(page: int)
      requires Valid()
      modifies this
      ensures Valid()
      ensures allLogs == old(allLogs)
      ensures 1 <= page <= Paging.TotalPages(|allLogs|, PerPage) ==> currentPage == page
      ensures !(1 <= page <= Paging.TotalPages(|allLogs|, PerPage)) ==> currentPage == old(currentPage) && shown == old(shown)
    {
      if 1 <= page <= Paging.TotalPages(|allLogs|, PerPage) {
        currentPage := page;
        shown := Paging.PageOf(allLogs, page, PerPage);
      }
    }

    /** `displayAuditPagination`: nothing when there is at most one page. Otherwise Previous and
        Next appear exactly when there is a page before or after, the numbered buttons run over
        the window [max(1, p - 2), min(total, p + 2)] with the current page disabled, every
        button leads to a page that `ChangeAuditPage` accepts, and the record range agrees with
        the rows on display. */
    method DisplayAuditPagination() returns (p: Option<Pagination>)
      requires Valid()
      ensures p.None? <==> Paging.TotalPages(|allLogs|, PerPage) <= 1
      ensures p.Some? ==> var c := p.value; var total := Paging.TotalPages(|allLogs|, PerPage);
        && c.total == |allLogs|
        && (c.previous.Some? <==> currentPage > 1) && (c.previous.Some? ==> c.previous.value == currentPage - 1)
        && (c.next.Some? <==> currentPage < total) && (c.next.Some? ==> c.next.value == currentPage + 1)
        && |c.buttons| <= 5
        && (forall k :: 0 <= k < |c.buttons| ==> c.buttons[k].page == Paging.Max(1, currentPage - 2) + k)
        && (forall k :: 0 <= k < |c.buttons| ==> 1 <= c.buttons[k].page <= total)
        && (forall k :: 0 <= k < |c.buttons| ==> (c.buttons[k].Current? <==> c.buttons[k].page == currentPage))
        && (currentPage <= total ==> c.buttons != [] && c.buttons[|c.buttons| - 1].page == Paging.Min(total, currentPage + 2))
        && (currentPage <= total <==> exists k :: 0 <= k < |c.buttons| && c.buttons[k].Current?)
        && c.firstRecord == Paging.Offset(currentPage, PerPage) + 1
        && (currentPage <= total ==> c.lastRecord - c.firstRecord + 1 == |shown|)
    {
      var total := Paging.TotalPages(|allLogs|, PerPage);
      if total <= 1 {
        return None;
      }
      var previous := if currentPage > 1 then Some(currentPage - 1) else None;
      var startPage := Paging.Max(1, currentPage - 2);
      var endPage := Paging.Min(total, currentPage + 2);
      var buttons := NumberButtons(startPage, endPage, currentPage);
      assert |buttons| <= 5;
      var next := if currentPage < total then Some(currentPage + 1) else None;
      var startRecord := (currentPage - 1) * PerPage + 1;
      var endRecord := Paging.Min(currentPage * PerPage, |allLogs|);
      if currentPage <= total {
        assert buttons[currentPage - startPage].Current?;
        Paging.RecordRange(allLogs, currentPage, PerPage);
      }
      p := Some(Pagination(previous, buttons, next, startRecord, endRecord, |allLogs|));
    }
  }

  // ---------------------------------------------------------------- badges

  /** `getActionBadgeClass`. */
  function ActionBadgeClass(action: string): (c: string)
    ensures c == "default" <==> action !in {"login", "logout", "create", "update", "delete", "read"}
    ensures c == "danger" <==> action == "delete"
  {
    var classes := map["login" := "primary", "logout" := "secondary", "create" := "success",
                       "update" := "warning", "delete" := "danger", "read" := "info"];
    if action in classes then classes[action] else "default"
  }

  /** `getCategoryBadgeClass`. */
  function CategoryBadgeClass(category: string): (c: string)
    ensures c == "default" <==> category !in {"authentication", "authorization", "data_access", "data_modification", "system", "security"}
    ensures c == "danger" <==> category == "security"
  {
    var classes := map["authentication" := "primary", "authorization" := "warning", "data_access" := "info",
                       "data_modification" := "success", "system" := "secondary", "security" := "danger"];
    if category in classes then classes[category] else "default"
  }

  /** `getSeverityBadgeClass`. */
  function SeverityBadgeClass(severity: string): (c: string)
    ensures c == "default" <==> severity !in {"low", "medium", "high", "critical"}
    ensures c == "success" <==> severity == "low"
    ensures c == "warning" <==> severity == "medium"
  {
    var classes := map["low" := "success", "medium" := "warning", "high" := "danger", "critical" := "danger"];
    if severity in classes then classes[severity] else "default"
  }

  /** The high-severity statistic counts exactly the rows whose severity badge is red. */
  lemma HighSeverityIsDanger(l: AuditLog)
    ensures IsHighSeverity(l) <==> SeverityBadgeClass(l.severity) == "danger"
  {
  }

  // ---------------------------------------------------------------- approvals filter

  /** A row of the approval queue with the fields the filter reads. */
  datatype ApprovalRow = ApprovalRow(status: string, firstName: string, lastName: string, department: string)

  /** Whether a row matches a lower-cased search term; the empty term matches everything. */
  predicate MatchesTerm(row: ApprovalRow, term: string) {
    term == "" || Contains(Lower(row.firstName), term) || Contains(Lower(row.lastName), term)
      || Contains(Lower(row.department), term)
  }

  /** The status step of `filterApprovals`: no status chosen keeps every row. */
  function ByStatus(rows: seq<ApprovalRow>, statusFilter: string): (r: seq<ApprovalRow>)
    ensures Subsequence(r, rows)
    ensures forall x :: x in r <==> x in rows && (statusFilter == "" || x.status == statusFilter)
    ensures forall x :: multiset(r)[x] == if statusFilter == "" || x.status == statusFilter then multiset(rows)[x] else 0
  {
    if statusFilter != "" then
      var keep := (x: ApprovalRow) => x.status == statusFilter;
      FilterMultiplicity(rows, keep);
      Filter(rows, keep)
    else SubsequenceReflexive(rows); rows
  }

  /** The search step of `filterApprovals`, for a term already lower-cased. */
  function ByTerm(rows: seq<ApprovalRow>, term: string): (r: seq<ApprovalRow>)
    ensures Subsequence(r, rows)
    ensures forall x :: x in r <==> x in rows && MatchesTerm(x, term)
    ensures forall x :: multiset(r)[x] == if MatchesTerm(x, term) then multiset(rows)[x] else 0
  {
    if term != "" then
      var keep := (x: ApprovalRow) => MatchesTerm(x, term);
      FilterMultiplicity(rows, keep);
      Filter(rows, keep)
    else SubsequenceReflexive(rows); rows
  }

  /** `filterApprovals`: the queued rows, in order, that have the chosen status (when one is
      chosen) and whose first name, last name or department contains the search term, ignoring
      case. */
  function FilterApprovals(rows: seq<ApprovalRow>, statusFilter: string, rawTerm: string): (r: seq<ApprovalRow>)
    ensures Subsequence(r, rows)
    ensures forall x :: x in r <==> x in rows && (statusFilter == "" || x.status == statusFilter) && MatchesTerm(x, Lower(rawTerm))
    ensures forall x :: multiset(r)[x] == (if (statusFilter == "" || x.status == statusFilter) && MatchesTerm(x, Lower(rawTerm))
                                           then multiset(rows)[x] else 0)
  {
    var byStatus := ByStatus(rows, statusFilter);
    var r := ByTerm(byStatus, Lower(rawTerm));
    SubsequenceTransitive(r, byStatus, rows);
    r
  }

  lemma {:induction false} SubsequenceReflexive<T>(s: seq<T>)
    ensures Subsequence(s, s)
  {
    if s != [] {
      SubsequenceReflexive(s[1..]);
    }
  }

  /** The case of the typed search term makes no difference. */
  lemma FilterIgnoresTermCase(rows: seq<ApprovalRow>, statusFilter: string, rawTerm: string)
    ensures FilterApprovals(rows, statusFilter, rawTerm) == FilterApprovals(rows, statusFilter, Lower(rawTerm))
  {
    LowerIdempotent(rawTerm);
  }

  // ---------------------------------------------------------------- attachments

  /** A file picked in the application form. */
  datatype FileInfo = FileInfo(name: string, size: nat)

  /** `Array.prototype.splice(index, 1)` on a copy: a negative index counts from the end (and
      stops at the start); an index at or past the end removes nothing. */
  function SpliceOne<T>(s: seq<T>, index: int): (r: seq<T>)
    ensures var k := if index < 0 then Paging.Max(|s| + index, 0) else index;
      && (k < |s| ==> |r| == |s| - 1 && multiset(r) + multiset{s[k]} == multiset(s)
                      && (forall j :: 0 <= j < k ==> r[j] == s[j])
                      && (forall j :: k <= j < |r| ==> r[j] == s[j + 1]))
      && (k >= |s| ==> r == s)
  {
    var k := if index < 0 then Paging.Max(|s| + index, 0) else index;
    if k < |s| then
      assert s == s[..k] + [s[k]] + s[k + 1..];
      s[..k] + s[k + 1..]
    else s
  }

  /** The form's list of chosen files (`selectedFiles`). */
  class AttachmentList {
    var selectedFiles: seq<FileInfo>

    constructor ()
      ensures selectedFiles == []
    {
      selectedFiles := [];
    }

    /** The `onchange` handler of `addAttachment`: the picked files are appended. */
    method AddAttachment(files: seq<FileInfo>)
      modifies this
      ensures selectedFiles == old(selectedFiles) + files
    {
      selectedFiles := selectedFiles + files;
    }

    /** `removeAttachment`: the file at `index` goes, by the rules of `splice`. */
    method RemoveAttachment(index: int)
      modifies this
      ensures selectedFiles == SpliceOne(old(selectedFiles), index)
    {
      selectedFiles := SpliceOne(selectedFiles, index);
    }
  }

  /** Removing the file just added, by its index or as index -1, restores the list. */
  lemma RemoveUndoesAdd(s: seq<FileInfo>, f: FileInfo)
    ensures SpliceOne(s + [f], |s|) == s
    ensures SpliceOne(s + [f], -1) == s
  {
    assert (s + [f])[..|s|] == s;
  }
}
