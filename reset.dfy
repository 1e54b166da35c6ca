/** The annual-leave reset script: it picks the financial year, the active leave types whose name
    mentions 'annual', and the active users; it builds a preview with one entry per user and type
    (the balance row found for that key, if any, and the row the script wants); and, when asked to
    run rather than preview, it overwrites each found row and creates each missing one. */
module ResetAnnualLeave {
  import opened Common
  import opened Domain
  import opened Text

  /** The financial year runs from April to March: January to March belong to the year before. */
  function FinancialYear(year: int, month: int): (fy: int)
    requires 1 <= month <= 12
    ensures year - 1 <= fy <= year
    ensures fy == year <==> 4 <= month
  {
    if month <= 3 then year - 1 else year
  }

  /** Counting months from year 0, a financial year is twelve consecutive months that start in
      April: the financial year is the number of whole years since April of year 0. */
  lemma FinancialYearByMonthIndex(year: int, month: int)
    requires 1 <= month <= 12
    ensures FinancialYear(year, month) == (12 * year + month - 4) / 12
  {
    var t := 12 * year + month - 4;
    if month <= 3 {
      assert t == 12 * (year - 1) + (month + 8);
      DivOfMultiplePlus(year - 1, month + 8);
    } else {
      assert t == 12 * year + (month - 4);
      DivOfMultiplePlus(year, month - 4);
    }
  }

  lemma DivOfMultiplePlus(q: int, r: int)
    requires 0 <= r < 12
    ensures (12 * q + r) / 12 == q
  {
  }

  /** Later months never fall in an earlier financial year. */
  lemma FinancialYearMonotone(y1: int, m1: int, y2: int, m2: int)
    requires 1 <= m1 <= 12 && 1 <= m2 <= 12
    requires 12 * y1 + m1 <= 12 * y2 + m2
    ensures FinancialYear(y1, m1) <= FinancialYear(y2, m2)
  {
    FinancialYearByMonthIndex(y1, m1);
    FinancialYearByMonthIndex(y2, m2);
    DivMonotone(12 * y1 + m1 - 4, 12 * y2 + m2 - 4);
  }

  lemma DivMonotone(a: int, b: int)
    requires a <= b
    ensures a / 12 <= b / 12
  {
  }

  /** An active leave type with a name whose lower-case form contains 'annual'. */
  predicate IsAnnualType(lt: LeaveType) {
    lt.isActive && lt.name != "" && Contains(Lower(lt.name), "annual")
  }

  /** The annual leave types, in the order they are listed; with none, the script aborts. */
  function MatchAnnualTypes(types: seq<LeaveType>): (r: Result<seq<LeaveType>, ()>)
    ensures r.Err? <==> forall i :: 0 <= i < |types| ==> !IsAnnualType(types[i])
    ensures r.Ok? ==> |r.value| > 0 && Subsequence(r.value, types)
    ensures r.Ok? ==> forall lt :: lt in r.value <==> lt in types && IsAnnualType(lt)
  {
    var matched := Filter(types, IsAnnualType);
    if |matched| == 0 then
      Err(())
    else
      assert matched[0] in types && IsAnnualType(matched[0]);
      Ok(matched)
  }

  predicate IsActiveUser(u: User) {
    u.isActive
  }

  /** The balance a reset wants for one user and type. */
  datatype Desired = Desired(
    userId: nat,
    leaveTypeId: nat,
    year: int,
    totalDays: real,
    usedDays: real,
    remainingDays: real,
    carriedOverDays: real,
    maxCarryOver: real)

  /** The full allowance, nothing used and nothing carried over; a carry-over cap of 5 for annual
      types. */
  function DesiredRow(emp: User, lt: LeaveType, year: int): (d: Desired)
    ensures d.userId == emp.id && d.leaveTypeId == lt.id && d.year == year
  {
    Desired(emp.id, lt.id, year, lt.defaultDays as real, 0.0, lt.defaultDays as real, 0.0,
      if Contains(Lower(lt.name), "annual") then 5.0 else 0.0)
  }

  predicate DesiredConsistent(d: Desired) {
    d.remainingDays == d.totalDays - d.usedDays + d.carriedOverDays
  }

  /** Nothing used, nothing carried over, everything remaining. */
  predicate FullAllowance(d: Desired) {
    d.usedDays == 0.0 && d.carriedOverDays == 0.0 && d.remainingDays == d.totalDays
  }

  /** A desired row starts the year with the whole allowance left, which keeps the balance rule,
      and every matched type gets the carry-over cap of 5. */
  lemma DesiredRowIsFresh(emp: User, lt: LeaveType, year: int)
    ensures var d := DesiredRow(emp, lt, year);
      && d.totalDays == d.remainingDays == lt.defaultDays as real
      && FullAllowance(d) && DesiredConsistent(d)
      && (IsAnnualType(lt) ==> d.maxCarryOver == 5.0)
  {
  }

  /** One preview entry: the row found for the key when the preview was built, and the wanted row. */
  datatype Entry = Entry(existing: Option<BalanceRow>, desired: Desired)

  /** What identifies a balance: its user, type and year. */
  datatype Key = Key(userId: nat, leaveTypeId: nat, year: int)

  function RowKey(b: BalanceRow): Key {
    Key(b.userId, b.leaveTypeId, b.year)
  }

  function DesiredKey(d: Desired): Key {
    Key(d.userId, d.leaveTypeId, d.year)
  }

  /** Some row of the table has this id and this key. */
  ghost predicate HasRow(rows: seq<BalanceRow>, id: nat, k: Key) {
    exists p :: 0 <= p < |rows| && rows[p].id == id && RowKey(rows[p]) == k
  }

  /** The row an entry found is a row of the table with the entry's key. */
  ghost predicate EntryHasRow(e: Entry, rows: seq<BalanceRow>) {
    e.existing.Some? ==> HasRow(rows, e.existing.value.id, DesiredKey(e.desired))
  }

  lemma FoundHasRow(rows: seq<BalanceRow>, found: Option<BalanceRow>)
    requires found.Some? ==> found.value in rows
    ensures found.Some? ==> HasRow(rows, found.value.id, RowKey(found.value))
  {
    if found.Some? {
      var p :| 0 <= p < |rows| && rows[p] == found.value;
    }
  }

  /** The entry for one user and type: its key, and the stored row for that key if there is one. */
  function EntryFor(emp: User, lt: LeaveType, rows: seq<BalanceRow>, year: int): (e: Entry)
    ensures DesiredKey(e.desired) == Key(emp.id, lt.id, year)
    ensures e.existing.None? <==> forall b :: b in rows ==> RowKey(b) != Key(emp.id, lt.id, year)
    ensures EntryHasRow(e, rows)
  {
    var found := FindBalance(rows, emp.id, lt.id, year);
    FoundHasRow(rows, found);
    Entry(found, DesiredRow(emp, lt, year))
  }

  /** The entries for one user, in the order of the types. */
  function EntriesFor(emp: User, types: seq<LeaveType>, rows: seq<BalanceRow>, year: int): (r: seq<Entry>)
    ensures |r| == |types|
    ensures forall k :: 0 <= k < |r| ==> EntryHasRow(r[k], rows)
    decreases |types|
  {
    if types == [] then []
    else EntriesFor(emp, types[..|types| - 1], rows, year) + [EntryFor(emp, types[|types| - 1], rows, year)]
  }

  /** The preview: for each user in order, the entries for every type. Every row it found is a row
      of the table with the entry's key. */
  function Preview(emps: seq<User>, types: seq<LeaveType>, rows: seq<BalanceRow>, year: int): (r: seq<Entry>)
    ensures forall k :: 0 <= k < |r| ==> EntryHasRow(r[k], rows)
    decreases |emps|
  {
    if emps == [] then []
    else Preview(emps[..|emps| - 1], types, rows, year) + EntriesFor(emps[|emps| - 1], types, rows, year)
  }

  lemma {:induction false} EntriesForAt(emp: User, types: seq<LeaveType>, rows: seq<BalanceRow>, year: int, j: nat)
    requires j < |types|
    ensures EntriesFor(emp, types, rows, year)[j] == EntryFor(emp, types[j], rows, year)
    decreases |types|
  {
    if j < |types| - 1 {
      EntriesForAt(emp, types[..|types| - 1], rows, year, j);
    }
  }

  lemma {:induction false} PreviewLength(emps: seq<User>, types: seq<LeaveType>, rows: seq<BalanceRow>, year: int)
    ensures |Preview(emps, types, rows, year)| == |emps| * |types|
    decreases |emps|
  {
    if emps != [] {
      PreviewLength(emps[..|emps| - 1], types, rows, year);
      assert |emps| * |types| == (|emps| - 1) * |types| + |types|;
    }
  }

  /** Entry i * |types| + j of the preview is user i with type j. */
  lemma {:induction false} PreviewAt(emps: seq<User>, types: seq<LeaveType>, rows: seq<BalanceRow>, year: int, i: nat, j: nat)
    requires i < |emps| && j < |types|
    ensures i * |types| + j < |Preview(emps, types, rows, year)|
    ensures Preview(emps, types, rows, year)[i * |types| + j] == EntryFor(emps[i], types[j], rows, year)
    decreases |emps|
  {
    var init := emps[..|emps| - 1];
    var n := |types|;
    PreviewLength(init, types, rows, year);
    PreviewLength(emps, types, rows, year);
    MulLess(i, j, |emps|, n);
    if i < |init| {
      MulLess(i, j, |init|, n);
      PreviewAt(init, types, rows, year, i, j);
      assert init[i] == emps[i];
    } else {
      assert i * n == |init| * n;
      EntriesForAt(emps[i], types, rows, year, j);
    }
  }

  /** The preview holds exactly one entry per user and type, user by user: entry i * |types| + j is
      user i with type j. */
  lemma PreviewShape(emps: seq<User>, types: seq<LeaveType>, rows: seq<BalanceRow>, year: int)
    ensures |Preview(emps, types, rows, year)| == |emps| * |types|
    ensures forall i, j :: 0 <= i < |emps| && 0 <= j < |types| ==>
      i * |types| + j < |emps| * |types| && Preview(emps, types, rows, year)[i * |types| + j] == EntryFor(emps[i], types[j], rows, year)
  {
    PreviewLength(emps, types, rows, year);
    forall i, j | 0 <= i < |emps| && 0 <= j < |types|
      ensures i * |types| + j < |emps| * |types| && Preview(emps, types, rows, year)[i * |types| + j] == EntryFor(emps[i], types[j], rows, year)
    {
      PreviewAt(emps, types, rows, year, i, j);
    }
  }

  lemma MulLess(i: nat, j: nat, m: nat, n: nat)
    requires i < m && j < n
    ensures i * n + j < m * n
  {
    assert (i + 1) * n <= m * n by {
      assert i + 1 <= m;
    }
  }

  /** Building the preview with the script's two nested loops. */
  method BuildPreview(emps: seq<User>, types: seq<LeaveType>, rows: seq<BalanceRow>, year: int) returns (preview: seq<Entry>)
    ensures preview == Preview(emps, types, rows, year)
  {
    preview := [];
    var i := 0;
    while i < |emps|
      invariant 0 <= i <= |emps|
      invariant preview == Preview(emps[..i], types, rows, year)
    {
      var j := 0;
      while j < |types|
        invariant 0 <= j <= |types|
        invariant preview == Preview(emps[..i], types, rows, year) + EntriesFor(emps[i], types[..j], rows, year)
      {
        assert types[..j + 1][..j] == types[..j];
        preview := preview + [EntryFor(emps[i], types[j], rows, year)];
        j := j + 1;
      }
      assert types[..j] == types;
      assert emps[..i + 1][..i] == emps[..i];
      i := i + 1;
    }
    assert emps[..i] == emps;
  }

  // ---------------------------------------------------------------------------------------------
  // Applying the preview

  /** The balance table and the next id it hands out. */
  datatype TableState = TableState(rows: seq<BalanceRow>, nextId: nat)

  /** `LeaveBalance.update(..., { where: { id } })`: every row with that id gets the wanted amounts,
      with nothing used and nothing carried over, and keeps its key fields and active flag; every other
      row stays as it was. */
  function Reassigned(rows: seq<BalanceRow>, id: nat, d: Desired): (r: seq<BalanceRow>)
    ensures |r| == |rows|
    ensures forall k :: 0 <= k < |rows| && rows[k].id == id ==>
      && r[k].totalDays == d.totalDays && r[k].usedDays == 0.0 && r[k].remainingDays == d.remainingDays
      && r[k].carriedOverDays == 0.0 && r[k].maxCarryOver == d.maxCarryOver
      && SameKeyFields(r[k], rows[k])
    ensures forall k :: 0 <= k < |rows| && rows[k].id != id ==> r[k] == rows[k]
  {
    seq(|rows|, k requires 0 <= k < |rows| =>
      if rows[k].id == id
      then rows[k].(totalDays := d.totalDays, usedDays := 0.0, remainingDays := d.remainingDays,
                    carriedOverDays := 0.0, maxCarryOver := d.maxCarryOver)
      else rows[k])
  }

  /** `LeaveBalance.create`: the wanted row, active. */
  function Created(id: nat, d: Desired): BalanceRow
  {
    BalanceRow(id, d.userId, d.leaveTypeId, d.year, d.totalDays, 0.0, d.remainingDays, 0.0, d.maxCarryOver, true)
  }

  predicate HasExisting(e: Entry) {
    e.existing.Some?
  }

  predicate Missing(e: Entry) {
    e.existing.None?
  }

  /** The ids are a primary key, and `nextId` is above every id in use. */
  ghost predicate ValidState(st: TableState) {
    && (forall p, q :: 0 <= p < q < |st.rows| ==> st.rows[p].id != st.rows[q].id)
    && (forall p :: 0 <= p < |st.rows| ==> st.rows[p].id < st.nextId)
  }

  /** One step of the apply loop: an update rewrites amounts only, a creation appends one row with
      a fresh id, and either keeps the ids a primary key. */
  function ApplyOne(st: TableState, e: Entry): (r: TableState)
    ensures |r.rows| == |st.rows| + (if Missing(e) then 1 else 0)
    ensures forall p :: 0 <= p < |st.rows| ==> SameKeyFields(r.rows[p], st.rows[p])
    ensures st.nextId <= r.nextId
  {
    match e.existing
    case Some(b) => TableState(Reassigned(st.rows, b.id, e.desired), st.nextId)
    case None => TableState(st.rows + [Created(st.nextId, e.desired)], st.nextId + 1)
  }

  /** The table after applying the entries in order. */
  function ApplyAll(st: TableState, entries: seq<Entry>): (r: TableState)
    ensures st.nextId <= r.nextId
    decreases |entries|
  {
    if entries == [] then st else ApplyAll(ApplyOne(st, entries[0]), entries[1..])
  }

  /** A step keeps the ids a primary key below the next id: updates keep every id, and a
      creation uses the next id and then moves it on. */
  lemma ApplyOneKeepsValid(st: TableState, e: Entry)
    requires ValidState(st)
    ensures ValidState(ApplyOne(st, e))
  {
  }

  /** So does the whole loop. */
  lemma {:induction false} ApplyAllKeepsValid(st: TableState, entries: seq<Entry>)
    requires ValidState(st)
    ensures ValidState(ApplyAll(st, entries))
    decreases |entries|
  {
    if entries != [] {
      ApplyOneKeepsValid(st, entries[0]);
      ApplyAllKeepsValid(ApplyOne(st, entries[0]), entries[1..]);
    }
  }

  /** The fields an update may not touch. */
  predicate SameKeyFields(a: BalanceRow, b: BalanceRow) {
    a.id == b.id && a.userId == b.userId && a.leaveTypeId == b.leaveTypeId && a.year == b.year && a.isActive == b.isActive
  }

  /** Applying only rewrites amounts and appends: the rows that were there keep their id, user,
      type, year and active flag, and one row is added per entry without an existing row. */
  lemma {:induction false} ApplyKeepsKeys(st: TableState, entries: seq<Entry>)
    ensures |ApplyAll(st, entries).rows| == |st.rows| + Count(entries, Missing)
    ensures forall k :: 0 <= k < |st.rows| ==> SameKeyFields(ApplyAll(st, entries).rows[k], st.rows[k])
    decreases |entries|
  {
    if entries != [] {
      var next := ApplyOne(st, entries[0]);
      ApplyKeepsKeys(next, entries[1..]);
      assert forall k :: 0 <= k < |st.rows| ==> SameKeyFields(next.rows[k], st.rows[k]);
    }
  }

  /** Rows that keep the balance rule still keep it afterwards: every row the script writes
      satisfies it. */
  lemma {:induction false} ApplyKeepsConsistency(st: TableState, entries: seq<Entry>)
    requires forall k :: 0 <= k < |st.rows| ==> BalanceConsistent(st.rows[k])
    requires forall k :: 0 <= k < |entries| ==> FullAllowance(entries[k].desired)
    ensures forall k :: 0 <= k < |ApplyAll(st, entries).rows| ==> BalanceConsistent(ApplyAll(st, entries).rows[k])
    decreases |entries|
  {
    if entries != [] {
      var next := ApplyOne(st, entries[0]);
      assert FullAllowance(entries[0].desired);
      assert forall k :: 0 <= k < |next.rows| ==> BalanceConsistent(next.rows[k]);
      ApplyKeepsConsistency(next, entries[1..]);
    }
  }

  lemma {:induction false} EntriesForFull(emp: User, types: seq<LeaveType>, rows: seq<BalanceRow>, year: int)
    ensures forall k :: 0 <= k < |types| ==> FullAllowance(EntriesFor(emp, types, rows, year)[k].desired)
    decreases |types|
  {
    if types != [] {
      EntriesForFull(emp, types[..|types| - 1], rows, year);
      DesiredRowIsFresh(emp, types[|types| - 1], year);
    }
  }

  /** Every preview entry asks for the full allowance with nothing used or carried over. */
  lemma {:induction false} PreviewFull(emps: seq<User>, types: seq<LeaveType>, rows: seq<BalanceRow>, year: int)
    ensures forall k :: 0 <= k < |Preview(emps, types, rows, year)| ==> FullAllowance(Preview(emps, types, rows, year)[k].desired)
    decreases |emps|
  {
    if emps != [] {
      PreviewFull(emps[..|emps| - 1], types, rows, year);
      EntriesForFull(emps[|emps| - 1], types, rows, year);
    }
  }

  /** The row holds the wanted balance: its key, and the amounts with nothing used or carried over. */
  predicate Realises(b: BalanceRow, d: Desired) {
    && RowKey(b) == DesiredKey(d)
    && b.totalDays == d.totalDays && b.usedDays == 0.0 && b.remainingDays == d.remainingDays
    && b.carriedOverDays == 0.0 && b.maxCarryOver == d.maxCarryOver
  }

  /** Some row holds the entry's wanted balance: the row it found, or a row created with an id
      that was not in use. */
  ghost predicate RealisedIn(rows: seq<BalanceRow>, e: Entry, firstNew: nat) {
    exists q :: 0 <= q < |rows| && Realises(rows[q], e.desired)
      && (if e.existing.Some? then rows[q].id == e.existing.value.id else rows[q].id >= firstNew)
  }

  /** No two entries are for the same user, type and year. */
  ghost predicate DistinctKeys(entries: seq<Entry>) {
    forall i, j :: 0 <= i < j < |entries| ==> DesiredKey(entries[i].desired) != DesiredKey(entries[j].desired)
  }

  /** A step of the loop keeps every id and key the table held. */
  lemma HasRowKept(st: TableState, e: Entry, entries: seq<Entry>)
    requires forall j :: 0 <= j < |entries| ==> EntryHasRow(entries[j], st.rows)
    ensures forall j :: 0 <= j < |entries| ==> EntryHasRow(entries[j], ApplyOne(st, e).rows)
  {
    var next := ApplyOne(st, e);
    forall j | 0 <= j < |entries| && entries[j].existing.Some?
      ensures HasRow(next.rows, entries[j].existing.value.id, DesiredKey(entries[j].desired))
    {
      var p :| 0 <= p < |st.rows| && st.rows[p].id == entries[j].existing.value.id && RowKey(st.rows[p]) == DesiredKey(entries[j].desired);
      assert SameKeyFields(next.rows[p], st.rows[p]);
      assert RowKey(next.rows[p]) == RowKey(st.rows[p]);
    }
  }

  /** A row whose key no remaining entry has is left exactly as it is: the rows those entries
      found have other keys, hence other ids, and created rows go at the end. */
  lemma {:induction false} ApplySurvives(st: TableState, entries: seq<Entry>, q: nat)
    requires ValidState(st) && q < |st.rows|
    requires forall j :: 0 <= j < |entries| ==> EntryHasRow(entries[j], st.rows)
    requires forall j :: 0 <= j < |entries| ==> DesiredKey(entries[j].desired) != RowKey(st.rows[q])
    ensures q < |ApplyAll(st, entries).rows| && ApplyAll(st, entries).rows[q] == st.rows[q]
    decreases |entries|
  {
    if entries != [] {
      var e := entries[0];
      var next := ApplyOne(st, e);
      match e.existing {
        case Some(b) =>
          assert EntryHasRow(entries[0], st.rows);
          var p :| 0 <= p < |st.rows| && st.rows[p].id == b.id && RowKey(st.rows[p]) == DesiredKey(e.desired);
          assert p != q;
          assert st.rows[q].id != b.id;
          assert next.rows[q] == st.rows[q];
        case None =>
          assert next.rows[q] == st.rows[q];
      }
      HasRowKept(st, e, entries[1..]);
      ApplyOneKeepsValid(st, e);
      ApplySurvives(next, entries[1..], q);
    }
  }

  /** The promise of the apply loop: with one entry per key, every entry's wanted balance is in the
      table afterwards, in the row the entry found or in the row created for it. */
  lemma {:induction false} ApplyRealises(st: TableState, entries: seq<Entry>)
    requires ValidState(st)
    requires forall j :: 0 <= j < |entries| ==> EntryHasRow(entries[j], st.rows)
    requires DistinctKeys(entries)
    ensures forall k :: 0 <= k < |entries| ==> RealisedIn(ApplyAll(st, entries).rows, entries[k], st.nextId)
    decreases |entries|
  {
    if entries != [] {
      var e := entries[0];
      var rest := entries[1..];
      var next := ApplyOne(st, e);
      var final := ApplyAll(st, entries);
      assert final == ApplyAll(next, rest);
      HasRowKept(st, e, rest);
      ApplyOneKeepsValid(st, e);
      assert DistinctKeys(rest) by {
        forall i, j | 0 <= i < j < |rest| ensures DesiredKey(rest[i].desired) != DesiredKey(rest[j].desired) {
          assert rest[i] == entries[i + 1] && rest[j] == entries[j + 1];
        }
      }
      ApplyRealises(next, rest);
      // the first entry's row
      var q: nat;
      match e.existing {
        case Some(b) =>
          assert EntryHasRow(entries[0], st.rows);
          var p :| 0 <= p < |st.rows| && st.rows[p].id == b.id && RowKey(st.rows[p]) == DesiredKey(e.desired);
          assert SameKeyFields(next.rows[p], st.rows[p]);
          q := p;
        case None =>
          q := |st.rows|;
          assert next.rows[q] == Created(st.nextId, e.desired);
      }
      assert Realises(next.rows[q], e.desired);
      forall j | 0 <= j < |rest| ensures DesiredKey(rest[j].desired) != RowKey(next.rows[q]) {
        assert rest[j] == entries[j + 1];
      }
      ApplySurvives(next, rest, q);
      assert RealisedIn(final.rows, e, st.nextId) by {
        assert Realises(final.rows[q], e.desired);
      }
      // the others, from the rest of the loop
      forall k | 1 <= k < |entries| ensures RealisedIn(final.rows, entries[k], st.nextId) {
        assert entries[k] == rest[k - 1];
        assert RealisedIn(final.rows, rest[k - 1], next.nextId);
        var r :| 0 <= r < |final.rows| && Realises(final.rows[r], rest[k - 1].desired)
          && (if rest[k - 1].existing.Some? then final.rows[r].id == rest[k - 1].existing.value.id else final.rows[r].id >= next.nextId);
      }
    }
  }

  /** A position below m * n is row i, column j of an m by n grid. */
  lemma IndexSplit(p: nat, m: nat, n: nat) returns (i: nat, j: nat)
    requires p < m * n
    ensures i < m && j < n && p == i * n + j
  {
    assert n > 0;
    i, j := p / n, p % n;
    if i >= m {
      MulMonotone(i, m, n);
    }
  }

  lemma MulMonotone(a: int, b: int, n: nat)
    requires a >= b
    ensures a * n >= b * n
  {
    assert a * n == b * n + (a - b) * n;
  }

  /** Two different positions of the preview are for different keys. */
  lemma PreviewPairDistinct(emps: seq<User>, types: seq<LeaveType>, rows: seq<BalanceRow>, year: int, a: nat, b: nat)
    requires UniqueUserIds(emps) && UniqueTypeIds(types)
    requires a < b < |emps| * |types|
    ensures a < |Preview(emps, types, rows, year)| && b < |Preview(emps, types, rows, year)|
    ensures DesiredKey(Preview(emps, types, rows, year)[a].desired) != DesiredKey(Preview(emps, types, rows, year)[b].desired)
  {
    var n := |types|;
    var ia, ja := IndexSplit(a, |emps|, n);
    var ib, jb := IndexSplit(b, |emps|, n);
    PreviewAt(emps, types, rows, year, ia, ja);
    PreviewAt(emps, types, rows, year, ib, jb);
    if ia == ib {
      assert ja != jb;
      assert types[ja].id != types[jb].id;
    } else {
      assert emps[ia].id != emps[ib].id;
    }
  }

  /** With unique user and type ids the preview has one entry per key. */
  lemma PreviewDistinctKeys(emps: seq<User>, types: seq<LeaveType>, rows: seq<BalanceRow>, year: int)
    requires UniqueUserIds(emps) && UniqueTypeIds(types)
    ensures DistinctKeys(Preview(emps, types, rows, year))
  {
    var pv := Preview(emps, types, rows, year);
    PreviewLength(emps, types, rows, year);
    forall a, b | 0 <= a < b < |pv| ensures DesiredKey(pv[a].desired) != DesiredKey(pv[b].desired) {
      PreviewPairDistinct(emps, types, rows, year, a, b);
    }
  }

  /** The active users of a table with unique ids have unique ids. */
  lemma ActiveUsersUnique(users: seq<User>)
    requires UniqueUserIds(users)
    ensures UniqueUserIds(Filter(users, IsActiveUser))
  {
    var id := (u: User) => u.id;
    assert DistinctBy(users, id);
    FilterKeepsDistinct(users, IsActiveUser, id);
    assert DistinctBy(Filter(users, IsActiveUser), id);
  }

  /** The annual types of a table with unique ids have unique ids. */
  lemma AnnualTypesUnique(types: seq<LeaveType>)
    requires UniqueTypeIds(types)
    ensures UniqueTypeIds(Filter(types, IsAnnualType))
  {
    var id := (lt: LeaveType) => lt.id;
    assert DistinctBy(types, id);
    FilterKeepsDistinct(types, IsAnnualType, id);
    assert DistinctBy(Filter(types, IsAnnualType), id);
  }

  /** The row an employee and an annual type end with after a run: this year's full allowance,
      nothing used, nothing carried over, a carry-over cap of 5. */
  ghost predicate FreshBalanceIn(rows: seq<BalanceRow>, userId: nat, lt: LeaveType, year: int) {
    exists q :: 0 <= q < |rows| && RowKey(rows[q]) == Key(userId, lt.id, year)
      && rows[q].totalDays == lt.defaultDays as real && rows[q].usedDays == 0.0
      && rows[q].remainingDays == lt.defaultDays as real && rows[q].carriedOverDays == 0.0
      && rows[q].maxCarryOver == 5.0
  }

  /** A realised entry for an employee and an annual type is a fresh balance in the table. */
  lemma RealisedIsFresh(rows: seq<BalanceRow>, e: Entry, firstNew: nat, emp: User, lt: LeaveType, year: int)
    requires e.desired == DesiredRow(emp, lt, year) && IsAnnualType(lt)
    requires RealisedIn(rows, e, firstNew)
    ensures FreshBalanceIn(rows, emp.id, lt, year)
  {
    DesiredRowIsFresh(emp, lt, year);
    var q :| 0 <= q < |rows| && Realises(rows[q], e.desired);
    assert RowKey(rows[q]) == Key(emp.id, lt.id, year);
  }

  /** The position of the entry for employee i and type j. */
  lemma PreviewEntry(emps: seq<User>, types: seq<LeaveType>, rows: seq<BalanceRow>, year: int, i: nat, j: nat)
    returns (k: nat)
    requires i < |emps| && j < |types|
    ensures k < |Preview(emps, types, rows, year)|
    ensures Preview(emps, types, rows, year)[k] == EntryFor(emps[i], types[j], rows, year)
  {
    PreviewAt(emps, types, rows, year, i, j);
    k := i * |types| + j;
  }

  /** What the script is for: after applying the preview, every active employee has, for every
      annual type, this year's balance reset to the type's default days. */
  lemma RunResetsBalances(st: TableState, users: seq<User>, types: seq<LeaveType>, year: int)
    requires ValidState(st) && UniqueUserIds(users) && UniqueTypeIds(types)
    ensures var final := ApplyAll(st, Preview(Filter(users, IsActiveUser), Filter(types, IsAnnualType), st.rows, year));
      forall u, lt :: u in users && u.isActive && lt in types && IsAnnualType(lt) ==> FreshBalanceIn(final.rows, u.id, lt, year)
  {
    var emps := Filter(users, IsActiveUser);
    var matched := Filter(types, IsAnnualType);
    var pv := Preview(emps, matched, st.rows, year);
    ActiveUsersUnique(users);
    AnnualTypesUnique(types);
    PreviewDistinctKeys(emps, matched, st.rows, year);
    ApplyRealises(st, pv);
    forall u, lt | u in users && u.isActive && lt in types && IsAnnualType(lt)
      ensures FreshBalanceIn(ApplyAll(st, pv).rows, u.id, lt, year)
    {
      var i :| 0 <= i < |users| && users[i] == u;
      var j :| 0 <= j < |types| && types[j] == lt;
      assert u in emps && lt in matched;
      var ie :| 0 <= ie < |emps| && emps[ie] == u;
      var jm :| 0 <= jm < |matched| && matched[jm] == lt;
      var k := PreviewEntry(emps, matched, st.rows, year, ie, jm);
      assert RealisedIn(ApplyAll(st, pv).rows, pv[k], st.nextId);
      RealisedIsFresh(ApplyAll(st, pv).rows, pv[k], st.nextId, u, lt, year);
    }
  }

  /** The balance table the script writes to. */
  class BalanceTable {
    var rows: seq<BalanceRow>
    var nextId: nat

    /** The ids are the table's primary key and `nextId` is what its auto-increment hands out next. */
    ghost predicate Valid()
      reads this
    {
      ValidState(TableState(rows, nextId))
    }

    constructor (rows0: seq<BalanceRow>, nextId0: nat)
      requires ValidState(TableState(rows0, nextId0))
      ensures Valid()
      ensures rows == rows0 && nextId == nextId0
    {
      rows := rows0;
      nextId := nextId0;
    }

    /** The apply loop: updates or creates one row per entry and counts each kind. */
    method Apply(preview: seq<Entry>) returns (updatedCount: nat, createdCount: nat)
      requires Valid()
      modifies this
      ensures Valid()
      ensures TableState(rows, nextId) == ApplyAll(TableState(old(rows), old(nextId)), preview)
      ensures updatedCount == Count(preview, HasExisting) && createdCount == Count(preview, Missing)
      ensures updatedCount + createdCount == |preview|
    {
      updatedCount, createdCount := 0, 0;
      var i := 0;
      while i < |preview|
        invariant 0 <= i <= |preview|
        invariant ApplyAll(TableState(rows, nextId), preview[i..]) == ApplyAll(TableState(old(rows), old(nextId)), preview)
        invariant updatedCount == Count(preview[..i], HasExisting) && createdCount == Count(preview[..i], Missing)
      {
        var e := preview[i];
        assert preview[i..][0] == e && preview[i..][1..] == preview[i + 1..];
        assert preview[..i + 1] == preview[..i] + [e];
        CountAppend(preview[..i], e, HasExisting);
        CountAppend(preview[..i], e, Missing);
        match e.existing {
          case Some(b) =>
            rows := Reassigned(rows, b.id, e.desired);
            updatedCount := updatedCount + 1;
          case None =>
            rows := rows + [Created(nextId, e.desired)];
            nextId := nextId + 1;
            createdCount := createdCount + 1;
        }
        i := i + 1;
      }
      assert preview[..i] == preview;
      CountComplement(preview, HasExisting, Missing);
      ApplyAllKeepsValid(TableState(old(rows), old(nextId)), preview);
    }
  }

  /** How a run ends. */
  datatype Outcome =
    | Aborted
    | Previewed(preview: seq<Entry>)
    | Applied(preview: seq<Entry>, updatedCount: nat, createdCount: nat)

  /** The script, for the calendar `year` and `month` it runs in; `run` is the `--run` flag. */
  method Reset(table: BalanceTable, types: seq<LeaveType>, users: seq<User>, year: int, month: int, run: bool)
    returns (o: Outcome)
    requires 1 <= month <= 12
    requires table.Valid()
    modifies table
    ensures table.Valid()
    ensures MatchAnnualTypes(types).Err? ==> o == Aborted
    ensures MatchAnnualTypes(types).Ok? ==>
      var p := Preview(Filter(users, IsActiveUser), MatchAnnualTypes(types).value, old(table.rows), FinancialYear(year, month));
      && (!run ==> o == Previewed(p))
      && (run ==> o.Applied? && o.preview == p && o.updatedCount + o.createdCount == |p|
                  && TableState(table.rows, table.nextId) == ApplyAll(TableState(old(table.rows), old(table.nextId)), p))
    ensures !(run && MatchAnnualTypes(types).Ok?) ==> table.rows == old(table.rows) && table.nextId == old(table.nextId)
    ensures run && MatchAnnualTypes(types).Ok? && UniqueUserIds(users) && UniqueTypeIds(types) ==>
      forall u, lt :: u in users && u.isActive && lt in types && IsAnnualType(lt) ==>
        FreshBalanceIn(table.rows, u.id, lt, FinancialYear(year, month))
  {
    var fy := FinancialYear(year, month);
    var matched := MatchAnnualTypes(types);
    if matched.Err? {
      return Aborted;
    }
    var employees := Filter(users, IsActiveUser);
    var preview := BuildPreview(employees, matched.value, table.rows, fy);
    if !run {
      return Previewed(preview);
    }
    ghost var before := TableState(table.rows, table.nextId);
    var updated, created := table.Apply(preview);
    o := Applied(preview, updated, created);
    if UniqueUserIds(users) && UniqueTypeIds(types) {
      RunResetsBalances(before, users, types, fy);
    }
  }
}
