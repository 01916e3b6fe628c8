/** The calendar form itself: the counters it keeps in its form state, the
    callbacks of the "Add Year" and "Add Table" buttons that grow them, the
    part of `buildForm` that lays out the rows of every table (and fills in
    the derived columns on a submit), and `submitForm`'s verdict. */
module CalendarForm {
  import opened Cells
  import opened Derivation
  import opened ButtonNames
  import opened Validation

  /** The name of the main "Submit" button. */
  const SubmitButton := "main-submit"

  /** The year shown in row j: the current year for j = 1, one less per row above. */
  function YearOfRow(currentYear: int, j: int): (year: int)
    ensures j == 1 ==> year == currentYear
    ensures year < currentYear <==> j > 1
  {
    currentYear - j + 1
  }

  /** `empty($n)` on a counter: an unset or zero counter is replaced by 1. */
  function AtLeastOne(n: nat): (r: nat)
    ensures r >= 1 && (n >= 1 ==> r == n)
    ensures n == 0 ==> r == 1
  {
    if n == 0 then 1 else n
  }

  /** One row of a built table: its key j, its year, and, on a submit, its
      derived quarter and YTD columns. */
  datatype BuiltRow = BuiltRow(key: int, year: int, derived: Option<Derived>)

  /** The month fields of row j of table i as submitted; a row that was not
      submitted reads as null, i.e. as nothing entered. */
  function SubmittedMonths(submitted: map<(nat, int), seq<Cell>>, i: nat, j: int): seq<Cell>
  {
    if (i, j) in submitted then submitted[(i, j)] else []
  }

  /** The rows of table i with n rows, in the order they are built: j = n .. 1. */
  function TableRows(i: nat, n: nat, currentYear: int, derive: bool, submitted: map<(nat, int), seq<Cell>>): seq<BuiltRow>
  {
    seq(n, (k: int) requires 0 <= k < n =>
      BuiltRow(n - k, YearOfRow(currentYear, n - k),
               if derive then Some(Derive(SubmittedMonths(submitted, i, n - k))) else None))
  }

  /** The rows of a table are years currentYear - n + 1 .. currentYear, one
      per row, ascending, with keys n .. 1. */
  lemma TableRowsAreConsecutiveYears(i: nat, n: nat, currentYear: int, derive: bool, submitted: map<(nat, int), seq<Cell>>)
    requires n >= 1
    ensures var rows := TableRows(i, n, currentYear, derive, submitted);
      |rows| == n &&
      rows[0].year == currentYear - n + 1 &&
      rows[n - 1].year == currentYear && rows[n - 1].key == 1 &&
      (forall k :: 0 <= k < n - 1 ==> rows[k + 1].year == rows[k].year + 1 && rows[k + 1].key == rows[k].key - 1)
  {
    var rows := TableRows(i, n, currentYear, derive, submitted);
    forall k | 0 <= k < n
      ensures rows[k].key == n - k && rows[k].year == currentYear - (n - k) + 1
    {
      assert rows[k] == BuiltRow(n - k, YearOfRow(currentYear, n - k),
               if derive then Some(Derive(SubmittedMonths(submitted, i, n - k))) else None);
    }
  }

  /** The inner loop of `buildForm` for table i: rows j = n .. 1, each with
      its year and, when the triggering button is "main-submit", the quarter
      and YTD columns derived from its submitted months. */
  method BuildTable(i: nat, n: nat, currentYear: int, position: string, submitted: map<(nat, int), seq<Cell>>)
    returns (table: seq<BuiltRow>)
    ensures table == TableRows(i, n, currentYear, position == SubmitButton, submitted)
  {
    ghost var derive := position == SubmitButton;
    table := [];
    var j := n;
    while j > 0
      invariant 0 <= j <= n && |table| == n - j
      invariant table == TableRows(i, n, currentYear, derive, submitted)[..n - j]
    {
      var date := YearOfRow(currentYear, j);
      var derived: Option<Derived> := None;
      if position == SubmitButton {
        var quarters, ytd := DeriveRow(SubmittedMonths(submitted, i, j));
        derived := Some(Derived(quarters, ytd));
      }
      table := table + [BuiltRow(j, date, derived)];
      j := j - 1;
    }
  }

  /** The counter keys of tables 0 .. n-1. */
  function TableKeys(n: nat): set<string>
  {
    set i: nat | i < n :: NatToString(i)
  }

  /** The counters the form keeps in its form state: `calendar`, the number of
      tables, and one `count<i>` per table, the number of its rows. A counter
      that was never set is 0 here: PHP's null behaves as 0 in every place
      the form reads one (`empty`, `++`, `> 1`, `== 1`). */
  class CalendarFormState {
    var tableCounter: nat
    /** `count<key>`, keyed by the text after "count". */
    var rowCounters: map<string, nat>

    /** A fresh form state: nothing set. */
    constructor ()
      ensures tableCounter == 0 && rowCounters == map[]
    {
      tableCounter := 0;
      rowCounters := map[];
    }

    /** `$form_state->get('count' . $key)`. */
    function RowCounter(key: string): nat
      reads this
    {
      if key in rowCounters then rowCounters[key] else 0
    }

    /** The row counter of table i. */
    function RowsOf(i: nat): nat
      reads this
    {
      RowCounter(NatToString(i))
    }

    /** The row counters of tables 0 .. calendar-1, as `submitForm` collects them. */
    function RowCounts(): seq<int>
      reads this
    {
      seq(tableCounter, (i: int) requires 0 <= i reads this => RowsOf(i))
    }

    /** `addRowCallback`: the row counter named by the button is incremented;
        an unset one becomes 1. Nothing else changes. */
    method AddRowCallback(name: string)
      modifies this
      ensures tableCounter == old(tableCounter)
      ensures rowCounters == old(rowCounters)[TableKey(name) := old(RowCounter(TableKey(name))) + 1]
      ensures forall key :: key != TableKey(name) ==> RowCounter(key) == old(RowCounter(key))
      ensures forall k: nat, i: nat :: name == ButtonName(k) ==>
        RowsOf(i) == old(RowsOf(i)) + (if i == k then 1 else 0)
    {
      var table := TableKey(name);
      var row := RowCounter(table);
      row := row + 1;
      rowCounters := rowCounters[table := row];
      forall k: nat, i: nat | name == ButtonName(k)
        ensures RowsOf(i) == old(RowsOf(i)) + (if i == k then 1 else 0)
      {
        ButtonSelectsOneTable(k, i);
      }
    }

    /** `addTableCallback`: one more table; no row counter changes. */
    method AddTableCallback()
      modifies this
      ensures tableCounter == old(tableCounter) + 1
      ensures rowCounters == old(rowCounters)
    {
      var table := tableCounter;
      table := table + 1;
      tableCounter := table;
    }

    /** The counter part of `buildForm`: it makes sure there is at least one
        table and that every table has at least one row, and lays out the rows
        j = n .. 1 of each table. On a submit (the triggering button is
        "main-submit") each row also gets its derived columns. */
    method BuildForm(currentYear: int, trigger: Option<string>, submitted: map<(nat, int), seq<Cell>>)
      returns (layout: seq<seq<BuiltRow>>)
      modifies this
      ensures tableCounter == AtLeastOne(old(tableCounter))
      ensures forall i: nat :: i < tableCounter ==> RowsOf(i) == AtLeastOne(old(RowsOf(i)))
      ensures forall key :: key !in TableKeys(tableCounter) ==>
        (key in rowCounters <==> key in old(rowCounters)) && RowCounter(key) == old(RowCounter(key))
      ensures |layout| == tableCounter
      ensures forall i: nat :: i < tableCounter ==>
        layout[i] == TableRows(i, RowsOf(i), currentYear, trigger == Some(SubmitButton), submitted)
    {
      var tables := tableCounter;
      if tables == 0 {
        tables := 1;
        tableCounter := tables;
      }
      var position := if trigger.Some? then trigger.value else "";
      ghost var derive := trigger == Some(SubmitButton);
      assert derive == (position == SubmitButton);
      layout := [];
      var i := 0;
      while i < tables
        invariant 0 <= i <= tables && tableCounter == tables && |layout| == i
        invariant forall u: nat :: u < i ==>
          RowsOf(u) == AtLeastOne(old(RowsOf(u))) &&
          layout[u] == TableRows(u, RowsOf(u), currentYear, derive, submitted)
        invariant forall key :: key !in TableKeys(i) ==>
          (key in rowCounters <==> key in old(rowCounters)) && RowCounter(key) == old(RowCounter(key))
      {
        var key := NatToString(i);
        var rows := RowCounter(key);
        if rows == 0 {
          rows := 1;
          rowCounters := rowCounters[key := rows];
        }
        forall u: nat | u < tables && u != i
          ensures NatToString(u) != key
        {
          NatToStringInjective(u, i);
        }
        assert key !in TableKeys(i);
        var table := BuildTable(i, rows, currentYear, position, submitted);
        assert TableKeys(i + 1) == TableKeys(i) + {key};
        layout := layout + [table];
        i := i + 1;
      }
    }

    /** `submitForm`: scans every submitted table, flags a table with an
        interior '', and, when there are several tables and some row counter
        is 1, flags any table whose first or last filled place differs from
        table 0's. Returns `$errors`. */
    method SubmitForm(tables: seq<seq<Row>>) returns (errors: bool)
      ensures errors == SubmissionInvalid(tables, tableCounter, RowCounts())
    {
      var tableCount := tableCounter;
      var starts, ends;
      starts, ends, errors := CheckTables(tables);
      if tableCount > 1 {
        var rowCount: seq<int> := [];
        var i := 0;
        while i < tableCount
          invariant 0 <= i <= tableCount && rowCount == RowCounts()[..i]
        {
          rowCount := rowCount + [RowsOf(i)];
          i := i + 1;
        }
        assert rowCount == RowCounts();
        if 1 in rowCount {
          var mismatch := CompareRanges(starts, ends, tableCount);
          if mismatch {
            var u: nat :| 1 <= u < tableCount && MarkersDiffer(starts, ends, u);
            assert StartOf(tables, 0) != StartOf(tables, u) || EndOf(tables, 0) != EndOf(tables, u);
            errors := true;
          } else {
            forall u: nat | 1 <= u < tableCount
              ensures StartOf(tables, 0) == StartOf(tables, u) && EndOf(tables, 0) == EndOf(tables, u)
            {
              assert !MarkersDiffer(starts, ends, u);
            }
          }
        }
      }
    }
  }
}
