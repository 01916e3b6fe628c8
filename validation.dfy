/** The consistency check that `submitForm` runs over the submitted month
    fields: each table's fields, flattened in form order, must have no blank
    strictly between its first and last filled field; and when there are
    several tables and one of them has a single row, every table must start
    and end at the same (row, month) as table 0. */
module Validation {
  import opened Cells

  /** Where a field sits: the key of its row (j, counting down to 1) and the
      index of its month (0 = jan ... 11 = dec). */
  datatype Marker = Marker(rowKey: int, month: nat)

  /** One submitted row: its key and its month fields in form order. */
  datatype Row = Row(key: int, months: seq<Cell>)

  /** One month field together with its place. */
  datatype Entry = Entry(at: Marker, cell: Cell)

  function RowEntries(row: Row): seq<Entry>
  {
    seq(|row.months|, (m: int) requires 0 <= m < |row.months| => Entry(Marker(row.key, m), row.months[m]))
  }

  /** Every month field of a table with its place, row after row. */
  function Entries(rows: seq<Row>): seq<Entry>
  {
    if rows == [] then [] else Entries(rows[..|rows| - 1]) + RowEntries(rows[|rows| - 1])
  }

  /** The month fields of a table, row after row: the list `$rows` that the
      form builds with `array_push`. */
  function FlatCells(rows: seq<Row>): seq<Cell>
  {
    if rows == [] then [] else FlatCells(rows[..|rows| - 1]) + rows[|rows| - 1].months
  }

  /** The flat list and the placed entries describe the same fields. */
  lemma {:induction false} EntriesMatchCells(rows: seq<Row>)
    ensures |Entries(rows)| == |FlatCells(rows)|
    ensures forall i :: 0 <= i < |FlatCells(rows)| ==> Entries(rows)[i].cell == FlatCells(rows)[i]
  {
    if rows != [] {
      EntriesMatchCells(rows[..|rows| - 1]);
    }
  }

  /** `$start[t]`: the place of the first field that PHP does not consider
      empty ('' and "0" are empty), or None when there is none. */
  function FirstMarker(es: seq<Entry>): Option<Marker>
  {
    if es == [] then None
    else
      var before := FirstMarker(es[..|es| - 1]);
      var last := es[|es| - 1];
      if before.None? && !IsPhpEmpty(last.cell) then Some(last.at) else before
  }

  /** There is no start marker exactly when every field is empty; otherwise
      it is the place of a non-empty field with only empty fields before it. */
  lemma {:induction false} FirstMarkerMeaning(es: seq<Entry>)
    ensures FirstMarker(es).None? <==> forall i :: 0 <= i < |es| ==> IsPhpEmpty(es[i].cell)
    ensures FirstMarker(es).Some? ==>
      (exists i :: 0 <= i < |es| && es[i].at == FirstMarker(es).value && !IsPhpEmpty(es[i].cell) &&
                   (forall j :: 0 <= j < i ==> IsPhpEmpty(es[j].cell)))
  {
    if es != [] {
      var init := es[..|es| - 1];
      var last := es[|es| - 1];
      FirstMarkerMeaning(init);
      assert forall i :: 0 <= i < |init| ==> init[i] == es[i];
      if FirstMarker(init).Some? {
        var i :| 0 <= i < |init| && init[i].at == FirstMarker(init).value && !IsPhpEmpty(init[i].cell) &&
                 (forall j :: 0 <= j < i ==> IsPhpEmpty(init[j].cell));
        assert es[i] == init[i];
      } else if !IsPhpEmpty(last.cell) {
        assert es[|es| - 1] == last;
      }
    }
  }

  /** The start marker is the place of the first non-empty field, whichever it is. */
  lemma StartIsFirstFilled(es: seq<Entry>, i: nat)
    requires i < |es| && !IsPhpEmpty(es[i].cell)
    requires forall j :: 0 <= j < i ==> IsPhpEmpty(es[j].cell)
    ensures FirstMarker(es) == Some(es[i].at)
  {
    FirstMarkerMeaning(es);
    var w :| 0 <= w < |es| && es[w].at == FirstMarker(es).value && !IsPhpEmpty(es[w].cell) &&
             (forall j :: 0 <= j < w ==> IsPhpEmpty(es[j].cell));
    assert w == i;
  }

  /** `$end[t]`: the place of the last field that PHP does not consider empty. */
  function LastMarker(es: seq<Entry>): Option<Marker>
  {
    if es == [] then None
    else
      var last := es[|es| - 1];
      if !IsPhpEmpty(last.cell) then Some(last.at) else LastMarker(es[..|es| - 1])
  }

  /** There is no end marker exactly when every field is empty; otherwise
      it is the place of a non-empty field with only empty fields after it. */
  lemma {:induction false} LastMarkerMeaning(es: seq<Entry>)
    ensures LastMarker(es).None? <==> forall i :: 0 <= i < |es| ==> IsPhpEmpty(es[i].cell)
    ensures LastMarker(es).Some? ==>
      (exists i :: 0 <= i < |es| && es[i].at == LastMarker(es).value && !IsPhpEmpty(es[i].cell) &&
                   (forall j :: i < j < |es| ==> IsPhpEmpty(es[j].cell)))
  {
    if es != [] {
      var init := es[..|es| - 1];
      var last := es[|es| - 1];
      assert forall i :: 0 <= i < |init| ==> init[i] == es[i];
      if !IsPhpEmpty(last.cell) {
        assert LastMarker(es) == Some(last.at);
      } else {
        LastMarkerMeaning(init);
        assert LastMarker(es) == LastMarker(init);
        if LastMarker(init).Some? {
          var i :| 0 <= i < |init| && init[i].at == LastMarker(init).value && !IsPhpEmpty(init[i].cell) &&
                   (forall j :: i < j < |init| ==> IsPhpEmpty(init[j].cell));
          assert es[i] == init[i];
        }
      }
    }
  }

  /** The end marker is the place of the last non-empty field, whichever it is. */
  lemma EndIsLastFilled(es: seq<Entry>, i: nat)
    requires i < |es| && !IsPhpEmpty(es[i].cell)
    requires forall j :: i < j < |es| ==> IsPhpEmpty(es[j].cell)
    ensures LastMarker(es) == Some(es[i].at)
  {
    LastMarkerMeaning(es);
    var w :| 0 <= w < |es| && es[w].at == LastMarker(es).value && !IsPhpEmpty(es[w].cell) &&
             (forall j :: w < j < |es| ==> IsPhpEmpty(es[j].cell));
    assert w == i;
  }

  /** The inner loop of `submitForm` over the month fields of one row: each
      field is appended to the flat list, and a non-empty one becomes the end
      marker, and the start marker if there is none yet. `seen` is what the
      earlier rows contributed. */
  method ScanRow(row: Row, cells0: seq<Cell>, start0: Option<Marker>, end0: Option<Marker>, ghost seen: seq<Entry>)
    returns (cells: seq<Cell>, start: Option<Marker>, end: Option<Marker>)
    requires start0 == FirstMarker(seen) && end0 == LastMarker(seen)
    ensures cells == cells0 + row.months
    ensures start == FirstMarker(seen + RowEntries(row)) && end == LastMarker(seen + RowEntries(row))
  {
    cells, start, end := cells0, start0, end0;
    var m := 0;
    assert seen + RowEntries(row)[..0] == seen;
    while m < |row.months|
      invariant 0 <= m <= |row.months|
      invariant cells == cells0 + row.months[..m]
      invariant start == FirstMarker(seen + RowEntries(row)[..m]) && end == LastMarker(seen + RowEntries(row)[..m])
    {
      var item := row.months[m];
      var at := Marker(row.key, m);
      if start.None? && !IsPhpEmpty(item) {
        start := Some(at);
      }
      if !IsPhpEmpty(item) {
        end := Some(at);
      }
      ghost var before := seen + RowEntries(row)[..m];
      assert seen + RowEntries(row)[..m + 1] == before + [Entry(at, item)];
      assert (before + [Entry(at, item)])[..|before|] == before;
      assert row.months[..m + 1] == row.months[..m] + [item];
      cells := cells + [item];
      m := m + 1;
    }
    assert row.months[..m] == row.months;
    assert RowEntries(row)[..m] == RowEntries(row);
  }

  /** The nested loops of `submitForm` over one table: they collect the month
      fields in order and record the first and last non-empty place. */
  method ScanTable(rows: seq<Row>) returns (cells: seq<Cell>, start: Option<Marker>, end: Option<Marker>)
    ensures cells == FlatCells(rows)
    ensures start == FirstMarker(Entries(rows))
    ensures end == LastMarker(Entries(rows))
  {
    cells, start, end := [], None, None;
    var r := 0;
    while r < |rows|
      invariant 0 <= r <= |rows|
      invariant cells == FlatCells(rows[..r])
      invariant start == FirstMarker(Entries(rows[..r])) && end == LastMarker(Entries(rows[..r]))
    {
      cells, start, end := ScanRow(rows[r], cells, start, end, Entries(rows[..r]));
      assert rows[..r + 1][..r] == rows[..r];
      r := r + 1;
    }
    assert rows[..r] == rows;
  }

  /** The fields left after the first loop unsets the leading ''. */
  function TrimFront(s: seq<Cell>): seq<Cell>
  {
    if s != [] && s[0] == Blank then TrimFront(s[1..]) else s
  }

  /** The front trim keeps a suffix of the fields, drops only '' and does
      not stop at a '' of its own. */
  lemma {:induction false} TrimFrontMeaning(s: seq<Cell>)
    ensures |TrimFront(s)| <= |s| && TrimFront(s) == s[|s| - |TrimFront(s)|..]
    ensures forall k :: 0 <= k < |s| - |TrimFront(s)| ==> s[k] == Blank
    ensures TrimFront(s) == [] || TrimFront(s)[0] != Blank
  {
    if s != [] && s[0] == Blank {
      var t := s[1..];
      TrimFrontMeaning(t);
      var r := TrimFront(t);
      assert TrimFront(s) == r;
      assert t[|t| - |r|..] == s[|s| - |r|..];
      forall k | 0 <= k < |s| - |r|
        ensures s[k] == Blank
      {
        if k > 0 {
          assert s[k] == t[k - 1];
        }
      }
    }
  }

  /** The fields left after the second loop unsets the trailing ''. */
  function TrimBack(s: seq<Cell>): seq<Cell>
  {
    if s != [] && s[|s| - 1] == Blank then TrimBack(s[..|s| - 1]) else s
  }

  /** The back trim keeps a prefix of the fields, drops only '' and does
      not stop at a '' of its own. */
  lemma {:induction false} TrimBackMeaning(s: seq<Cell>)
    ensures |TrimBack(s)| <= |s| && TrimBack(s) == s[..|TrimBack(s)|]
    ensures forall k :: |TrimBack(s)| <= k < |s| ==> s[k] == Blank
    ensures TrimBack(s) == [] || TrimBack(s)[|TrimBack(s)| - 1] != Blank
  {
    if s != [] && s[|s| - 1] == Blank {
      var t := s[..|s| - 1];
      TrimBackMeaning(t);
      var r := TrimBack(t);
      assert TrimBack(s) == r;
      assert t[..|r|] == s[..|r|];
      forall k | |r| <= k < |s|
        ensures s[k] == Blank
      {
        if k < |s| - 1 {
          assert s[k] == t[k];
        }
      }
    }
  }

  /** The fields of a table once leading and trailing '' are removed. */
  function Trim(s: seq<Cell>): seq<Cell>
  {
    TrimBack(TrimFront(s))
  }

  /** The table is flagged: a '' is left after trimming. */
  predicate HasInteriorGap(s: seq<Cell>)
  {
    Blank in Trim(s)
  }

  /** Dropping the first `a` fields is the front trim exactly when those are
      all '' and the next one (if any) is not. */
  lemma TrimFrontAt(s: seq<Cell>, a: nat)
    requires a <= |s|
    requires forall k :: 0 <= k < a ==> s[k] == Blank
    requires a == |s| || s[a] != Blank
    ensures TrimFront(s) == s[a..]
  {
    TrimFrontMeaning(s);
  }

  /** Keeping the fields lo .. hi-1 of the fields from lo on is the back
      trim exactly when the fields after them are all '' and the last kept
      one (if any) is not. */
  lemma TrimBackAt(s: seq<Cell>, lo: nat, hi: nat)
    requires lo <= hi <= |s|
    requires forall k :: hi <= k < |s| ==> s[k] == Blank
    requires hi == lo || s[hi - 1] != Blank
    ensures TrimBack(s[lo..]) == s[lo..hi]
  {
    TrimBackMeaning(s[lo..]);
  }

  /** The trim keeps exactly the fields lo .. hi-1 when all fields outside
      them are '' and the first and last of them are not. */
  lemma TrimIsWindow(cells: seq<Cell>, lo: nat, hi: nat)
    requires lo <= hi <= |cells|
    requires forall k :: 0 <= k < lo ==> cells[k] == Blank
    requires lo == |cells| || cells[lo] != Blank
    requires forall k :: hi <= k < |cells| ==> cells[k] == Blank
    requires hi == lo || cells[hi - 1] != Blank
    ensures Trim(cells) == cells[lo..hi]
  {
    TrimFrontAt(cells, lo);
    TrimBackAt(cells, lo, hi);
  }

  /** The positions lo .. hi-1 of the PHP array built from `cells`. */
  function Window(cells: seq<Cell>, lo: int, hi: int): map<int, Cell>
  {
    map k | lo <= k < hi && 0 <= k < |cells| :: cells[k]
  }

  lemma UnsetFirst(cells: seq<Cell>, lo: int, hi: int)
    requires 0 <= lo < hi <= |cells|
    ensures Window(cells, lo, hi) - {lo} == Window(cells, lo + 1, hi)
  {
  }

  lemma UnsetLast(cells: seq<Cell>, lo: int, hi: int)
    requires 0 <= lo < hi <= |cells|
    ensures Window(cells, lo, hi) - {hi - 1} == Window(cells, lo, hi - 1)
  {
  }

  /** `in_array('', $rows)` on what is left of the array. */
  lemma WindowHasBlank(cells: seq<Cell>, lo: int, hi: int)
    requires 0 <= lo <= hi <= |cells|
    ensures (Blank in Window(cells, lo, hi).Values) == (Blank in cells[lo..hi])
  {
    var w := Window(cells, lo, hi);
    if Blank in w.Values {
      var k :| k in w && w[k] == Blank;
      assert cells[lo..hi][k - lo] == Blank;
    }
    if Blank in cells[lo..hi] {
      var k :| 0 <= k < hi - lo && cells[lo..hi][k] == Blank;
      assert w[lo + k] == Blank;
    }
  }

  /** The two unset loops of `submitForm` and the `in_array('', ...)` test.
      The PHP array is a map from position to field; `unset` removes a key,
      and reading a removed key gives null, which is not === ''. */
  method TrimAndCheck(cells: seq<Cell>) returns (gap: bool)
    ensures gap == HasInteriorGap(cells)
  {
    var count := |cells|;
    var kept: map<int, Cell> := map k | 0 <= k < count :: cells[k];
    assert kept == Window(cells, 0, count);
    var i := 0;
    while i < count
      invariant 0 <= i <= count
      invariant forall k :: 0 <= k < i ==> cells[k] == Blank
      invariant kept == Window(cells, i, count)
    {
      if i in kept && kept[i] == Blank {
        UnsetFirst(cells, i, count);
        kept := kept - {i};
      } else {
        break;
      }
      i := i + 1;
    }
    var lo := i;
    assert lo == count || cells[lo] != Blank;
    i := count - 1;
    while i >= 0
      invariant -1 <= i < count && lo <= i + 1
      invariant forall k :: i < k < count ==> cells[k] == Blank
      invariant kept == Window(cells, lo, i + 1)
    {
      if i in kept && kept[i] == Blank {
        UnsetLast(cells, lo, i + 1);
        kept := kept - {i};
      } else {
        break;
      }
      i := i - 1;
    }
    var hi := i + 1;
    assert hi == lo || cells[hi - 1] != Blank;
    TrimIsWindow(cells, lo, hi);
    WindowHasBlank(cells, lo, hi);
    gap := Blank in kept.Values;
  }

  /** Where the trimmed fields sit in the table: after `a` leading ''. */
  lemma TrimPlacement(s: seq<Cell>) returns (a: nat)
    ensures a + |Trim(s)| <= |s| && Trim(s) == s[a..a + |Trim(s)|]
    ensures forall p :: 0 <= p < a ==> s[p] == Blank
    ensures forall p :: a + |Trim(s)| <= p < |s| ==> s[p] == Blank
    ensures Trim(s) != [] ==> Trim(s)[0] != Blank && Trim(s)[|Trim(s)| - 1] != Blank
  {
    var u := TrimFront(s);
    var t := TrimBack(u);
    TrimFrontMeaning(s);
    TrimBackMeaning(u);
    a := |s| - |u|;
    forall p | a + |t| <= p < |s|
      ensures s[p] == Blank
    {
      assert s[p] == u[p - a];
    }
    if t != [] {
      assert t[0] == u[0];
    }
  }

  lemma GapFromWitnesses(s: seq<Cell>, i: int, j: int, k: int)
    requires 0 <= i < j < k < |s| && s[i] != Blank && s[j] == Blank && s[k] != Blank
    ensures HasInteriorGap(s)
  {
    var t := Trim(s);
    var a := TrimPlacement(s);
    assert a <= i && k < a + |t|;
    assert t[j - a] == Blank;
  }

  lemma WitnessesOfGap(s: seq<Cell>) returns (i: int, j: int, k: int)
    requires HasInteriorGap(s)
    ensures 0 <= i < j < k < |s| && s[i] != Blank && s[j] == Blank && s[k] != Blank
  {
    var t := Trim(s);
    var a := TrimPlacement(s);
    var p :| 0 <= p < |t| && t[p] == Blank;
    assert p != 0 && p != |t| - 1;
    i, j, k := a, a + p, a + |t| - 1;
    assert s[i] == t[0] && s[j] == t[p] && s[k] == t[|t| - 1];
  }

  /** A table is flagged exactly when some '' lies strictly between two
      fields that are not ''. */
  lemma GapBetweenValues(s: seq<Cell>)
    ensures HasInteriorGap(s) <==>
      exists i, j, k :: 0 <= i < j < k < |s| && s[i] != Blank && s[j] == Blank && s[k] != Blank
  {
    if HasInteriorGap(s) {
      var i, j, k := WitnessesOfGap(s);
    }
    forall i, j, k | 0 <= i < j < k < |s| && s[i] != Blank && s[j] == Blank && s[k] != Blank
      ensures HasInteriorGap(s)
    {
      GapFromWitnesses(s, i, j, k);
    }
  }

  /** A table with no '' at all passes the gap rule. */
  lemma NoBlankNoGap(s: seq<Cell>)
    requires Blank !in s
    ensures !HasInteriorGap(s)
  {
    if HasInteriorGap(s) {
      var i, j, k := WitnessesOfGap(s);
    }
  }

  /** A table left entirely blank passes the gap rule. */
  lemma AllBlankNoGap(s: seq<Cell>)
    requires forall i :: 0 <= i < |s| ==> s[i] == Blank
    ensures !HasInteriorGap(s)
  {
    if HasInteriorGap(s) {
      var i, j, k := WitnessesOfGap(s);
    }
  }

  /** Trimming what is already trimmed changes nothing. */
  lemma TrimIdempotent(s: seq<Cell>)
    ensures Trim(Trim(s)) == Trim(s)
  {
    var t := Trim(s);
    var a := TrimPlacement(s);
    TrimFrontAt(t, 0);
    TrimBackAt(t, 0, |t|);
    assert t[0..] == t[0..|t|] == t;
  }

  /** Only '' is ever removed: every other field, "0" included, keeps its
      number of occurrences. */
  lemma TrimKeepsNonBlank(s: seq<Cell>)
    ensures forall c :: c != Blank ==> multiset(Trim(s))[c] == multiset(s)[c]
  {
    var t := Trim(s);
    var a := TrimPlacement(s);
    var b := a + |t|;
    assert s == s[..a] + t + s[b..];
    forall c | c != Blank
      ensures multiset(t)[c] == multiset(s)[c]
    {
      assert c !in s[..a];
      assert c !in s[b..];
      assert multiset(s) == multiset(s[..a]) + multiset(t) + multiset(s[b..]);
    }
  }

  /** `$start[$i]` on the array the form filled: null past its end. */
  function MarkerAt(ms: seq<Option<Marker>>, i: nat): Option<Marker>
  {
    if i < |ms| then ms[i] else None
  }

  /** `$start[$t]` / `$end[$t]` of the submitted tables; an index with no
      table reads as null. */
  function StartOf(tables: seq<seq<Row>>, t: nat): Option<Marker>
  {
    if t < |tables| then FirstMarker(Entries(tables[t])) else None
  }

  function EndOf(tables: seq<seq<Row>>, t: nat): Option<Marker>
  {
    if t < |tables| then LastMarker(Entries(tables[t])) else None
  }

  /** Some submitted table has an interior ''. */
  predicate SomeTableHasGap(tables: seq<seq<Row>>)
  {
    tables != [] &&
    (SomeTableHasGap(tables[..|tables| - 1]) || HasInteriorGap(FlatCells(tables[|tables| - 1])))
  }

  lemma {:induction false} SomeTableHasGapMeaning(tables: seq<seq<Row>>)
    ensures SomeTableHasGap(tables) <==> exists t :: 0 <= t < |tables| && HasInteriorGap(FlatCells(tables[t]))
  {
    if tables != [] {
      var init := tables[..|tables| - 1];
      SomeTableHasGapMeaning(init);
      if SomeTableHasGap(init) {
        var t :| 0 <= t < |init| && HasInteriorGap(FlatCells(init[t]));
        assert tables[t] == init[t];
      }
      if t :| 0 <= t < |tables| && HasInteriorGap(FlatCells(tables[t])) {
        if t < |init| {
          assert init[t] == tables[t];
        }
      }
    }
  }

  /** The cross-table rule is checked only with more than one table and some
      row counter equal to 1. */
  predicate CrossTableRuleApplies(tableCount: int, rowCounts: seq<int>)
  {
    tableCount > 1 && 1 in rowCounts
  }

  /** Some table 1 .. tableCount-1 starts or ends elsewhere than table 0. */
  predicate RangesDisagree(tables: seq<seq<Row>>, tableCount: int)
  {
    exists i :: 1 <= i < tableCount && (StartOf(tables, 0) != StartOf(tables, i) || EndOf(tables, 0) != EndOf(tables, i))
  }

  /** One pass of `submitForm`'s loop: scan the table, then trim its fields
      and look for an interior ''. */
  method CheckTable(tables: seq<seq<Row>>, t: nat) returns (start: Option<Marker>, end: Option<Marker>, gap: bool)
    requires t < |tables|
    ensures start == StartOf(tables, t) && end == EndOf(tables, t)
    ensures gap == HasInteriorGap(FlatCells(tables[t]))
  {
    var cells;
    cells, start, end := ScanTable(tables[t]);
    gap := TrimAndCheck(cells);
  }

  /** The loop of `submitForm` over the submitted tables: it records each
      table's start and end markers and whether some table has an interior ''. */
  method CheckTables(tables: seq<seq<Row>>) returns (starts: seq<Option<Marker>>, ends: seq<Option<Marker>>, errors: bool)
    ensures |starts| == |ends| == |tables|
    ensures forall t: nat :: MarkerAt(starts, t) == StartOf(tables, t) && MarkerAt(ends, t) == EndOf(tables, t)
    ensures errors == SomeTableHasGap(tables)
  {
    errors := false;
    starts, ends := [], [];
    var t := 0;
    while t < |tables|
      invariant 0 <= t <= |tables| && |starts| == t && |ends| == t
      invariant forall u :: 0 <= u < t ==> starts[u] == StartOf(tables, u) && ends[u] == EndOf(tables, u)
      invariant errors == SomeTableHasGap(tables[..t])
    {
      var start, end, gap := CheckTable(tables, t);
      assert tables[..t + 1][..t] == tables[..t];
      if gap {
        errors := true;
      }
      starts := starts + [start];
      ends := ends + [end];
      t := t + 1;
    }
    forall u: nat
      ensures MarkerAt(starts, u) == StartOf(tables, u) && MarkerAt(ends, u) == EndOf(tables, u)
    {
    }
    assert tables[..t] == tables;
  }

  /** Table i starts or ends elsewhere than table 0 in the recorded markers. */
  predicate MarkersDiffer(starts: seq<Option<Marker>>, ends: seq<Option<Marker>>, i: nat)
  {
    MarkerAt(starts, 0) != MarkerAt(starts, i) || MarkerAt(ends, 0) != MarkerAt(ends, i)
  }

  /** The comparison loop of `submitForm`: does some table 1 .. tableCount-1
      start or end elsewhere than table 0? */
  method CompareRanges(starts: seq<Option<Marker>>, ends: seq<Option<Marker>>, tableCount: int) returns (mismatch: bool)
    ensures mismatch == exists i: nat :: 1 <= i < tableCount && MarkersDiffer(starts, ends, i)
  {
    mismatch := false;
    var i := 1;
    while i < tableCount
      invariant 1 <= i && (i == 1 || i <= tableCount)
      invariant mismatch == exists u: nat :: 1 <= u < i && MarkersDiffer(starts, ends, u)
    {
      if MarkersDiffer(starts, ends, i) {
        mismatch := true;
      }
      i := i + 1;
    }

  }

  /** The value `submitForm` returns in `$errors`. */
  predicate SubmissionInvalid(tables: seq<seq<Row>>, tableCount: int, rowCounts: seq<int>)
  {
    SomeTableHasGap(tables) || (CrossTableRuleApplies(tableCount, rowCounts) && RangesDisagree(tables, tableCount))
  }

  /** A table of one row: its fields are the row's months. */
  lemma OneRowTable(row: Row)
    ensures FlatCells([row]) == row.months
    ensures Entries([row]) == RowEntries(row)
  {
    assert [row][..0] == [];
  }

  /** One table, one row, every month filled (some with "0"): valid. */
  lemma ScenarioFilledRowIsValid()
    ensures !SubmissionInvalid([[Row(1, [Num(10000), Num(0), Num(0), Num(5000), Num(0), Num(0),
                                         Num(0), Num(0), Num(0), Num(0), Num(0), Num(5000)])]], 1, [1])
  {
    var row := Row(1, [Num(10000), Num(0), Num(0), Num(5000), Num(0), Num(0),
                       Num(0), Num(0), Num(0), Num(0), Num(0), Num(5000)]);
    var tables := [[row]];
    OneRowTable(row);
    NoBlankNoGap(row.months);
    assert tables[..0] == [];
  }

  /** One table, one row, 5.00 in january and december and nothing between:
      the interior '' makes the submission invalid. */
  lemma ScenarioInteriorBlankIsInvalid()
    ensures SubmissionInvalid([[Row(1, [Num(500), Blank, Blank, Blank, Blank, Blank,
                                        Blank, Blank, Blank, Blank, Blank, Num(500)])]], 1, [1])
  {
    var row := Row(1, [Num(500), Blank, Blank, Blank, Blank, Blank,
                       Blank, Blank, Blank, Blank, Blank, Num(500)]);
    var tables := [[row]];
    OneRowTable(row);
    GapFromWitnesses(row.months, 0, 1, 11);
    assert tables[..0] == [];
  }

  /** Two tables, the second with a single row filled only june .. august,
      the first with two full rows: the cross-table rule applies and the
      first filled places differ, so the submission is invalid. */
  lemma ScenarioDifferentRangesAreInvalid()
    ensures var full := seq(12, m => Num(10000));
            var summer := [Blank, Blank, Blank, Blank, Blank, Num(10000), Num(10000), Num(10000), Blank, Blank, Blank, Blank];
            SubmissionInvalid([[Row(2, full), Row(1, full)], [Row(1, summer)]], 2, [2, 1])
  {
    var full := seq(12, m => Num(10000));
    var summer := [Blank, Blank, Blank, Blank, Blank, Num(10000), Num(10000), Num(10000), Blank, Blank, Blank, Blank];
    var t0 := [Row(2, full), Row(1, full)];
    var t1 := [Row(1, summer)];
    var tables := [t0, t1];
    var first := Row(2, full);
    assert t0[..1] == [first];
    OneRowTable(first);
    var es0 := Entries(t0);
    assert es0 == RowEntries(first) + RowEntries(t0[1]);
    assert |RowEntries(first)| == 12 && RowEntries(first)[0] == Entry(Marker(2, 0), Num(10000));
    assert es0[0] == Entry(Marker(2, 0), Num(10000));
    StartIsFirstFilled(es0, 0);
    OneRowTable(Row(1, summer));
    var es1 := Entries(t1);
    assert es1[5] == Entry(Marker(1, 5), Num(10000));
    StartIsFirstFilled(es1, 5);
    assert StartOf(tables, 0) != StartOf(tables, 1);
    assert 1 in [2, 1];
  }
}
