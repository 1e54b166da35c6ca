/** The notification table and its routes: creating rows (one or in bulk), the paged list of what
    a user may see, reading one row, marking one or all as read, deleting one, and the unread
    count. */
module NotificationRoutes {
  import opened Common
  import opened Domain
  import opened Text
  import Sorting
  import Paging
  import opened NotificationHelpers

  /** A stored notification. */
  datatype Notification = Notification(id: nat, data: Draft, isRead: bool, readAt: Option<int>, createdAt: int)

  /** The error responses of these routes: 404 and 403. */
  datatype Error = NotificationNotFound | AccessDenied

  /** No two rows share an id. */
  predicate UniqueIds(rows: seq<Notification>) {
    forall i, j :: 0 <= i < j < |rows| ==> rows[i].id != rows[j].id
  }

  // ---------------------------------------------------------------------------------------------
  // The list

  /** Who sees a row in the list: the addressee, and every user whose role matches the row's
      recipient role ignoring case. */
  predicate Listed(n: Notification, caller: User) {
    n.data.userId == caller.id || (n.data.recipientRole.Some? && Lower(n.data.recipientRole.value) == Lower(caller.role))
  }

  /** The optional filters of the list, each compared for equality when given. */
  datatype ListQuery = ListQuery(isRead: Option<bool>, noticeType: Option<NoticeType>, category: Option<Category>)

  predicate Matches(n: Notification, q: ListQuery) {
    && (q.isRead.Some? ==> n.isRead == q.isRead.value)
    && (q.noticeType.Some? ==> n.data.noticeType == q.noticeType.value)
    && (q.category.Some? ==> n.data.category == q.category.value)
  }

  /** Every row the caller may see that passes the filters, newest first. */
  function Selected(rows: seq<Notification>, caller: User, q: ListQuery): (r: seq<Notification>)
    ensures forall n :: n in r <==> n in rows && Listed(n, caller) && Matches(n, q)
    ensures forall n :: multiset(r)[n] == if Listed(n, caller) && Matches(n, q) then multiset(rows)[n] else 0
    ensures forall i, j :: 0 <= i < j < |r| ==> r[i].createdAt >= r[j].createdAt
  {
    var visible := (n: Notification) => Listed(n, caller) && Matches(n, q);
    var picked := Filter(rows, visible);
    FilterMultiplicity(rows, visible);
    var key := (n: Notification) => n.createdAt;
    Sorting.SortDescKeepsElements(picked, key);
    assert forall i :: 0 <= i < |rows| && Listed(rows[i], caller) && Matches(rows[i], q) ==> rows[i] in picked;
    Sorting.SortDesc(picked, key)
  }

  /** The response of GET `/`. */
  datatype ListPage = ListPage(notifications: seq<Notification>, currentPage: nat, totalPages: nat, totalItems: nat, itemsPerPage: nat)

  /** GET `/` for page `page` of `limit` rows. */
  function List(rows: seq<Notification>, caller: User, q: ListQuery, page: nat, limit: nat): (r: ListPage)
    requires page >= 1 && 1 <= limit <= 50
    ensures r.notifications == Paging.PageOf(Selected(rows, caller, q), page, limit)
    ensures r.totalItems == |Selected(rows, caller, q)|
    ensures r.totalPages == Paging.TotalPages(r.totalItems, limit)
    ensures r.currentPage == page && r.itemsPerPage == limit && |r.notifications| <= limit
    ensures forall n :: n in r.notifications ==> n in rows && Listed(n, caller) && Matches(n, q)
    ensures forall i, j :: 0 <= i < j < |r.notifications| ==> r.notifications[i].createdAt >= r.notifications[j].createdAt
  {
    var all := Selected(rows, caller, q);
    var shown := Paging.PageOf(all, page, limit);
    assert forall k :: 0 <= k < |shown| ==> shown[k] in all;
    ListPage(shown, page, Paging.TotalPages(|all|, limit), |all|, limit)
  }

  /** Nothing visible is lost to paging: every row the caller may see that passes the filters is
      on one of the pages. */
  lemma VisibleRowIsOnAPage(rows: seq<Notification>, caller: User, q: ListQuery, limit: nat, n: Notification)
    requires 1 <= limit <= 50
    requires n in rows && Listed(n, caller) && Matches(n, q)
    ensures exists p :: (1 <= p <= List(rows, caller, q, 1, limit).totalPages
                         && n in List(rows, caller, q, p, limit).notifications)
  {
    var all := Selected(rows, caller, q);
    var p := Paging.PageOfElement(all, limit, n);
    assert List(rows, caller, q, p, limit).notifications == Paging.PageOf(all, p, limit);
  }

  // ---------------------------------------------------------------------------------------------
  // One row

  /** The position of the first row with the given id (`findByPk`). */
  function IndexOfId(rows: seq<Notification>, id: nat): (r: Option<nat>)
    ensures r.Some? ==> r.value < |rows| && rows[r.value].id == id
    ensures r.None? ==> forall i :: 0 <= i < |rows| ==> rows[i].id != id
  {
    if rows == [] then None
    else if rows[0].id == id then Some(0)
    else match IndexOfId(rows[1..], id)
      case None => None
      case Some(k) => Some(k + 1)
  }

  /** The check mark-read and delete share: the row exists (404 otherwise) and is addressed to
      the caller (403 otherwise, even when the caller's role would list it). On success, the
      row's position. */
  function OwnRow(rows: seq<Notification>, id: nat, callerId: nat): (r: Result<nat, Error>)
    ensures r == Err(NotificationNotFound) <==> forall i :: 0 <= i < |rows| ==> rows[i].id != id
    ensures r == Err(AccessDenied) <==> IndexOfId(rows, id).Some? && rows[IndexOfId(rows, id).value].data.userId != callerId
    ensures r.Ok? ==> r.value < |rows| && rows[r.value].id == id && rows[r.value].data.userId == callerId
  {
    match IndexOfId(rows, id)
    case None => Err(NotificationNotFound)
    case Some(i) => if rows[i].data.userId != callerId then Err(AccessDenied) else Ok(i)
  }

  /** Who may open a row: its addressee, or a user whose role equals the row's recipient role
      exactly (a missing or empty recipient role matches nobody). */
  predicate GetAllowed(n: Notification, caller: User) {
    n.data.userId == caller.id
    || (n.data.recipientRole.Some? && n.data.recipientRole.value != "" && n.data.recipientRole.value == caller.role)
  }

  /** GET `/:id`. */
  function ViewNotification(rows: seq<Notification>, id: nat, caller: User): (r: Result<Notification, Error>)
    ensures r == Err(NotificationNotFound) <==> forall i :: 0 <= i < |rows| ==> rows[i].id != id
    ensures r.Ok? <==> IndexOfId(rows, id).Some? && GetAllowed(rows[IndexOfId(rows, id).value], caller)
    ensures r.Ok? ==> r.value in rows && r.value.id == id
  {
    match IndexOfId(rows, id)
    case None => Err(NotificationNotFound)
    case Some(i) => if GetAllowed(rows[i], caller) then Ok(rows[i]) else Err(AccessDenied)
  }

  /** A row a user may open is a row the list shows them. */
  lemma OpenableIsListed(n: Notification, caller: User)
    ensures GetAllowed(n, caller) ==> Listed(n, caller)
  {
  }

  /** The converse fails: the list compares roles ignoring case and the single-row route does not,
      so a row addressed to role 'Manager' is listed for a 'manager' but cannot be opened by them. */
  lemma ListedButNotOpenable()
    ensures exists n: Notification, caller: User :: Listed(n, caller) && !GetAllowed(n, caller)
  {
    var d := Draft(1, "t", Plain("m"), Info, System, Some("Manager"), None, None);
    var n := Notification(1, d, false, None, 0);
    var caller := User(2, "manager", None, true, "", "", "");
    assert Lower("Manager") == "manager" by {
      assert LowerChar('M') == 'm';
    }
    assert Listed(n, caller) && !GetAllowed(n, caller);
  }

  /** A row after mark-read. */
  function MarkedRead(n: Notification, now: int): (r: Notification)
    ensures r.isRead && r.readAt == Some(now)
    ensures r.(isRead := n.isRead, readAt := n.readAt) == n
  {
    n.(isRead := true, readAt := Some(now))
  }

  /** Marking a row read twice leaves it as one mark at the later time would. */
  lemma MarkedReadIdempotent(n: Notification, t1: int, t2: int)
    ensures MarkedRead(MarkedRead(n, t1), t2) == MarkedRead(n, t2)
  {
  }

  /** Repeating mark-read on a row succeeds again, and the row ends as if only the second request
      had been made. */
  lemma {:induction false} MarkReadRepeatable(rows: seq<Notification>, id: nat, callerId: nat, t1: int, t2: int)
    requires OwnRow(rows, id, callerId).Ok?
    ensures var i := OwnRow(rows, id, callerId).value;
      var once := rows[i := MarkedRead(rows[i], t1)];
      && OwnRow(once, id, callerId) == Ok(i)
      && once[i := MarkedRead(once[i], t2)] == rows[i := MarkedRead(rows[i], t2)]
  {
    var i := OwnRow(rows, id, callerId).value;
    var once := rows[i := MarkedRead(rows[i], t1)];
    SameIdsSameIndex(rows, once, id);
  }

  /** Rows changed in place but with their ids kept are found at the same positions. */
  lemma {:induction false} SameIdsSameIndex(a: seq<Notification>, b: seq<Notification>, id: nat)
    requires |a| == |b| && forall i :: 0 <= i < |a| ==> a[i].id == b[i].id
    ensures IndexOfId(a, id) == IndexOfId(b, id)
  {
    if a != [] && a[0].id != id {
      SameIdsSameIndex(a[1..], b[1..], id);
    }
  }

  // ---------------------------------------------------------------------------------------------
  // Read-all and the unread count

  /** GET `/unread/count`: the caller's own unread rows; rows shown to them by role do not count. */
  function UnreadCount(rows: seq<Notification>, callerId: nat): (n: nat)
    ensures n <= |rows|
  {
    Count(rows, (x: Notification) => x.data.userId == callerId && !x.isRead)
  }

  /** A new unread row raises its addressee's count by one and nobody else's. */
  lemma UnreadCountAfterCreate(rows: seq<Notification>, n: Notification, callerId: nat)
    requires !n.isRead
    ensures UnreadCount(rows + [n], callerId) == UnreadCount(rows, callerId) + (if n.data.userId == callerId then 1 else 0)
  {
    CountAppend(rows, n, (x: Notification) => x.data.userId == callerId && !x.isRead);
  }

  /** PUT `/read-all`: every unread row addressed to the caller marked read at `now`. */
  function ReadAllRows(rows: seq<Notification>, callerId: nat, now: int): (r: seq<Notification>)
    ensures |r| == |rows|
    ensures forall i :: 0 <= i < |rows| && rows[i].data.userId == callerId && !rows[i].isRead ==> r[i] == MarkedRead(rows[i], now)
    ensures forall i :: 0 <= i < |rows| && !(rows[i].data.userId == callerId && !rows[i].isRead) ==> r[i] == rows[i]
  {
    seq(|rows|, i requires 0 <= i < |rows| =>
      if rows[i].data.userId == callerId && !rows[i].isRead then MarkedRead(rows[i], now) else rows[i])
  }

  /** After read-all the caller has nothing unread, and other users' counts are untouched. */
  lemma ReadAllClearsUnread(rows: seq<Notification>, callerId: nat, now: int, other: nat)
    requires other != callerId
    ensures UnreadCount(ReadAllRows(rows, callerId, now), callerId) == 0
    ensures UnreadCount(ReadAllRows(rows, callerId, now), other) == UnreadCount(rows, other)
  {
    var r := ReadAllRows(rows, callerId, now);
    CountZero(r, (x: Notification) => x.data.userId == callerId && !x.isRead);
    SameCountWhereUnchanged(rows, r, other);
  }

  /** Two tables that agree on every row of `userId` (and on which rows are theirs) give that user
      the same unread count. */
  lemma {:induction false} SameCountWhereUnchanged(a: seq<Notification>, b: seq<Notification>, userId: nat)
    requires |a| == |b|
    requires forall i :: 0 <= i < |a| ==> (a[i].data.userId == userId || b[i].data.userId == userId) ==> a[i] == b[i]
    ensures UnreadCount(a, userId) == UnreadCount(b, userId)
  {
    if a != [] {
      assert forall i :: 0 <= i < |a| - 1 ==> a[1..][i] == a[i + 1] && b[1..][i] == b[i + 1];
      SameCountWhereUnchanged(a[1..], b[1..], userId);
    }
  }

  /** The rows without the one at position i (`destroy`). */
  function Without(rows: seq<Notification>, i: nat): (r: seq<Notification>)
    requires i < |rows|
    ensures |r| == |rows| - 1
    ensures forall k :: 0 <= k < i ==> r[k] == rows[k]
    ensures forall k :: i <= k < |r| ==> r[k] == rows[k + 1]
    ensures forall k :: 0 <= k < |rows| && k != i ==> rows[k] in r
    ensures UniqueIds(rows) ==> forall n :: n in r ==> n.id != rows[i].id
  {
    var r := rows[..i] + rows[i + 1..];
    assert forall k :: 0 <= k < i ==> r[k] == rows[k];
    assert forall k :: i <= k < |r| ==> r[k] == rows[k + 1];
    assert forall k :: 0 <= k < |rows| && k != i ==> rows[k] == r[if k < i then k else k - 1];
    r
  }

  /** Removing a row keeps the ids unique and below the next id. */
  lemma WithoutKeepsIds(rows: seq<Notification>, i: nat, nextId: nat)
    requires i < |rows| && UniqueIds(rows) && forall k :: 0 <= k < |rows| ==> rows[k].id < nextId
    ensures UniqueIds(Without(rows, i)) && forall k :: 0 <= k < |Without(rows, i)| ==> Without(rows, i)[k].id < nextId
  {
    var r := Without(rows, i);
    forall a, b | 0 <= a < b < |r|
      ensures r[a].id != r[b].id
    {
      var a' := if a < i then a else a + 1;
      var b' := if b < i then b else b + 1;
      assert r[a] == rows[a'] && r[b] == rows[b'] && a' < b';
    }
    forall k | 0 <= k < |r|
      ensures r[k].id < nextId
    {
      assert r[k] == rows[if k < i then k else k + 1];
    }
  }

  /** The notification rows. */
  class NotificationTable {
    var rows: seq<Notification>
    var nextId: nat

    ghost predicate Valid()
      reads this
    {
      UniqueIds(rows) && forall i :: 0 <= i < |rows| ==> rows[i].id < nextId
    }

    constructor ()
      ensures Valid() && rows == [] && nextId == 1
    {
      rows := [];
      nextId := 1;
    }

    /** `createNotification`: stores one unread row with the next id. */
    method Create(d: Draft, now: int) returns (n: Notification)
      requires Valid()
      modifies this
      ensures Valid()
      ensures n == Notification(old(nextId), d, false, None, now)
      ensures rows == old(rows) + [n] && nextId == old(nextId) + 1
    {
      n := Notification(nextId, d, false, None, now);
      rows := rows + [n];
      nextId := nextId + 1;
    }

    /** `sendBulkNotifications`: stores the drafts in order, each as an unread row with a fresh id. */
    method BulkCreate(ds: seq<Draft>, now: int) returns (created: seq<Notification>)
      requires Valid()
      modifies this
      ensures Valid()
      ensures |created| == |ds| && rows == old(rows) + created
      ensures forall k :: 0 <= k < |ds| ==> created[k] == Notification(old(nextId) + k, ds[k], false, None, now)
    {
      created := [];
      var k := 0;
      while k < |ds|
        invariant 0 <= k <= |ds|
        invariant Valid()
        invariant |created| == k && rows == old(rows) + created && nextId == old(nextId) + k
        invariant forall j :: 0 <= j < k ==> created[j] == Notification(old(nextId) + j, ds[j], false, None, now)
      {
        var n := Create(ds[k], now);
        created := created + [n];
        k := k + 1;
      }
    }

    /** PUT `/:id/read`. */
    method MarkRead(id: nat, callerId: nat, now: int) returns (r: Result<Notification, Error>)
      requires Valid()
      modifies this
      ensures Valid() && nextId == old(nextId)
      ensures OwnRow(old(rows), id, callerId).Err? ==> r == Err(OwnRow(old(rows), id, callerId).error) && rows == old(rows)
      ensures OwnRow(old(rows), id, callerId).Ok? ==>
        var i := OwnRow(old(rows), id, callerId).value;
        r == Ok(MarkedRead(old(rows)[i], now)) && rows == old(rows)[i := r.value]
    {
      var found := OwnRow(rows, id, callerId);
      if found.Err? {
        return Err(found.error);
      }
      var i := found.value;
      var n := MarkedRead(rows[i], now);
      rows := rows[i := n];
      r := Ok(n);
    }

    /** PUT `/read-all`: returns how many rows it changed. */
    method ReadAll(callerId: nat, now: int) returns (updatedCount: nat)
      requires Valid()
      modifies this
      ensures Valid() && nextId == old(nextId)
      ensures rows == ReadAllRows(old(rows), callerId, now)
      ensures updatedCount == UnreadCount(old(rows), callerId)
    {
      updatedCount := UnreadCount(rows, callerId);
      rows := ReadAllRows(rows, callerId, now);
    }

    /** DELETE `/:id`. */
    method Delete(id: nat, callerId: nat) returns (r: Result<(), Error>)
      requires Valid()
      modifies this
      ensures Valid() && nextId == old(nextId)
      ensures OwnRow(old(rows), id, callerId).Err? ==> r == Err(OwnRow(old(rows), id, callerId).error) && rows == old(rows)
      ensures OwnRow(old(rows), id, callerId).Ok? ==>
        r == Ok(()) && rows == Without(old(rows), OwnRow(old(rows), id, callerId).value)
      ensures r.Ok? ==> forall n :: n in rows ==> n.id != id
    {
      var found := OwnRow(rows, id, callerId);
      if found.Err? {
        return Err(found.error);
      }
      var i := found.value;
      WithoutKeepsIds(rows, i, nextId);
      rows := Without(rows, i);
      r := Ok(());
    }
  }
}
