/** `sortTable` and `getCellSortValue`: clicking a sortable header toggles
    its direction, clears the direction of every other header and reorders
    the body rows by the clicked column. */
module TableSorts {
  import opened JsText

  /** What `getCellSortValue` can read in a cell: its `data-sort-value`, the
      text of its first `code` element, of its first `span.font-mono` /
      `span.text-2xl`, of its first `.badge` (None when absent), and its
      text once the `.opacity-50` elements are removed. */
  datatype SortCell = SortCell(sortValue: Option<string>, code: Option<string>, span: Option<string>,
                               badge: Option<string>, visibleText: string)

  /** A body row: its `data-*` attributes, by dataset key, and its cells. */
  datatype SortRow = SortRow(dataset: map<string, string>, cells: seq<SortCell>)

  datatype Direction = Asc | Desc

  /** `currentSort === 'asc' ? 'desc' : 'asc'`. */
  function NewDirection(current: Option<string>): Direction {
    if current == Some("asc") then Desc else Asc
  }

  function DirectionName(d: Direction): string {
    if d == Asc then "asc" else "desc"
  }

  /** Clicking a header twice in a row returns it to ascending order, and
      any header not currently ascending sorts ascending. */
  lemma DirectionToggles(current: Option<string>)
    ensures NewDirection(Some(DirectionName(NewDirection(current)))) == if NewDirection(current) == Asc then Desc else Asc
    ensures current != Some("asc") ==> NewDirection(current) == Asc
  {
    assert "desc" != "asc" by { assert "desc"[0] != "asc"[0]; }
  }

  /** The `data-sorted` attributes after a click on header `col`: only the
      clicked header keeps one, holding the new direction. */
  function Resorted(sorted: seq<Option<string>>, col: nat): (r: seq<Option<string>>)
    requires col < |sorted|
    ensures |r| == |sorted|
    ensures forall i :: 0 <= i < |r| && i != col ==> r[i].None?
    ensures r[col] == Some(if sorted[col] == Some("asc") then "desc" else "asc")
  {
    seq(|sorted|, i requires 0 <= i < |sorted| => if i == col then Some(DirectionName(NewDirection(sorted[col]))) else None)
  }

  /** `getCellSortValue`: a non-empty `data-sort-value`, else the trimmed
      text of the first of code, mono/large span and badge that exists,
      else the trimmed visible text. */
  function CellSortValue(cell: SortCell): (r: string)
    ensures cell.sortValue.Some? && cell.sortValue.value != "" ==> r == cell.sortValue.value
    ensures cell.sortValue.None? || cell.sortValue.value == "" ==> r == [] || (!IsSpace(r[0]) && !IsSpace(r[|r| - 1]))
    ensures (cell.sortValue.None? || cell.sortValue.value == "") && cell.code.Some? ==> r == Trim(cell.code.value)
    ensures (cell.sortValue.None? || cell.sortValue.value == "") && cell.code.None? && cell.span.Some? ==> r == Trim(cell.span.value)
    ensures (cell.sortValue.None? || cell.sortValue.value == "") && cell.code.None? && cell.span.None? && cell.badge.Some? ==> r == Trim(cell.badge.value)
    ensures (cell.sortValue.None? || cell.sortValue.value == "") && cell.code.None? && cell.span.None? && cell.badge.None? ==> r == Trim(cell.visibleText)
  {
    if cell.sortValue.Some? && cell.sortValue.value != "" then cell.sortValue.value
    else Trim(SortText(cell))
  }

  /** The text read when there is no sort value: the first of code,
      mono/large span and badge that exists, else the visible text. */
  function SortText(cell: SortCell): string {
    if cell.code.Some? then cell.code.value
    else if cell.span.Some? then cell.span.value
    else if cell.badge.Some? then cell.badge.value
    else cell.visibleText
  }

  /** A non-empty `data-sort-key` on the header names the row attribute to
      sort by; otherwise the cell of the column is read. */
  predicate UsesKey(sortKey: Option<string>) {
    sortKey.Some? && sortKey.value != ""
  }

  /** The row can be read under this header: a row without the column's
      cell makes the comparator fail in the source. */
  predicate Readable(row: SortRow, col: nat, sortKey: Option<string>) {
    UsesKey(sortKey) || col < |row.cells|
  }

  /** The value a row is sorted by: `row.dataset[sortKey] || ''`, or the
      cell's sort value. */
  function RowSortValue(row: SortRow, col: nat, sortKey: Option<string>): string
    requires Readable(row, col, sortKey)
  {
    if UsesKey(sortKey) then (if sortKey.value in row.dataset then row.dataset[sortKey.value] else "")
    else CellSortValue(row.cells[col])
  }

  const NumberNoise: set<char> := {'$', ','}

  /** `parseFloat(value.replace(/[$,]/g, ''))`. */
  function NumericValue(parse: string -> Option<real>, v: string): Option<real> {
    parse(RemoveChars(v, NumberNoise))
  }

  /** The comparator: numeric when both values parse, otherwise the
      lower-cased strings under `localeCompare`; descending swaps the
      operands. */
  function Compare(parse: string -> Option<real>, localeCompare: (string, string) -> real, dir: Direction,
                   a: string, b: string): real {
    var an := NumericValue(parse, a);
    var bn := NumericValue(parse, b);
    if an.Some? && bn.Some? then (if dir == Asc then an.value - bn.value else bn.value - an.value)
    else if dir == Asc then localeCompare(ToLower(a), ToLower(b))
    else localeCompare(ToLower(b), ToLower(a))
  }

  /** Descending is ascending with the operands swapped, in both the numeric
      and the string case. */
  lemma DescIsReversedAsc(parse: string -> Option<real>, localeCompare: (string, string) -> real, a: string, b: string)
    ensures Compare(parse, localeCompare, Desc, a, b) == Compare(parse, localeCompare, Asc, b, a)
  {
  }

  /** When both values are numbers, ascending order puts the smaller first. */
  lemma NumbersCompareByValue(parse: string -> Option<real>, localeCompare: (string, string) -> real, a: string, b: string)
    requires NumericValue(parse, a).Some? && NumericValue(parse, b).Some?
    ensures Compare(parse, localeCompare, Asc, a, b) < 0.0 <==> NumericValue(parse, a).value < NumericValue(parse, b).value
    ensures Compare(parse, localeCompare, Desc, a, b) < 0.0 <==> NumericValue(parse, b).value < NumericValue(parse, a).value
  {
  }

  /** The comparator is antisymmetric whenever `localeCompare` is. */
  lemma CompareAntisymmetric(parse: string -> Option<real>, localeCompare: (string, string) -> real, dir: Direction,
                             a: string, b: string)
    requires forall x, y :: localeCompare(x, y) == -localeCompare(y, x)
    ensures Compare(parse, localeCompare, dir, a, b) == -Compare(parse, localeCompare, dir, b, a)
  {
  }

  /** Two rows compared under the clicked header. A row without the
      column's cell makes the source's comparator throw; such a sort is
      never completed (see `SortableTable.SortTable`), and the comparison
      here then reports a tie. */
  function RowCompare(parse: string -> Option<real>, localeCompare: (string, string) -> real, dir: Direction,
                      col: nat, sortKey: Option<string>, a: SortRow, b: SortRow): real {
    if Readable(a, col, sortKey) && Readable(b, col, sortKey) then
      Compare(parse, localeCompare, dir, RowSortValue(a, col, sortKey), RowSortValue(b, col, sortKey))
    else 0.0
  }

  lemma RowCompareAntisymmetric(parse: string -> Option<real>, localeCompare: (string, string) -> real, dir: Direction,
                                col: nat, sortKey: Option<string>)
    requires forall x, y :: localeCompare(x, y) == -localeCompare(y, x)
    ensures forall a, b :: RowCompare(parse, localeCompare, dir, col, sortKey, a, b)
                           == -RowCompare(parse, localeCompare, dir, col, sortKey, b, a)
  {
    forall a, b ensures RowCompare(parse, localeCompare, dir, col, sortKey, a, b)
                        == -RowCompare(parse, localeCompare, dir, col, sortKey, b, a) {
      if Readable(a, col, sortKey) && Readable(b, col, sortKey) {
        CompareAntisymmetric(parse, localeCompare, dir, RowSortValue(a, col, sortKey), RowSortValue(b, col, sortKey));
      }
    }
  }

  /** Every adjacent pair is in order under `cmp`. */
  predicate SortedBy<T>(cmp: (T, T) -> real, s: seq<T>) {
    forall i :: 0 < i < |s| ==> cmp(s[i - 1], s[i]) <= 0.0
  }

  ghost predicate Antisymmetric<T(!new)>(cmp: (T, T) -> real) {
    forall a, b :: cmp(a, b) == -cmp(b, a)
  }

  /** Inserting `x` into a list from its end, stepping over the elements
      that compare after it. */
  function InsertBy<T>(cmp: (T, T) -> real, x: T, s: seq<T>): seq<T> {
    if s == [] then [x]
    else if cmp(s[|s| - 1], x) > 0.0 then InsertBy(cmp, x, s[..|s| - 1]) + [s[|s| - 1]]
    else s + [x]
  }

  /** Inserting adds `x` to what is there and ends with `x` or with the
      element it stepped over last. */
  lemma {:induction false} InsertByContents<T>(cmp: (T, T) -> real, x: T, s: seq<T>)
    ensures multiset(InsertBy(cmp, x, s)) == multiset(s) + multiset{x}
    ensures var r := InsertBy(cmp, x, s);
      |r| == |s| + 1 && r[|s|] == if s != [] && cmp(s[|s| - 1], x) > 0.0 then s[|s| - 1] else x
  {
    if s != [] && cmp(s[|s| - 1], x) > 0.0 {
      assert s == s[..|s| - 1] + [s[|s| - 1]];
      InsertByContents(cmp, x, s[..|s| - 1]);
    }
  }

  /** Inserting into an ordered list keeps it ordered. */
  lemma {:induction false} InsertBySorted<T(!new)>(cmp: (T, T) -> real, x: T, s: seq<T>)
    requires Antisymmetric(cmp) && SortedBy(cmp, s)
    ensures SortedBy(cmp, InsertBy(cmp, x, s))
  {
    if s == [] {
    } else if cmp(s[|s| - 1], x) > 0.0 {
      var init, last := s[..|s| - 1], s[|s| - 1];
      SortedPrefix(cmp, s);
      InsertBySorted(cmp, x, init);
      InsertByContents(cmp, x, init);
      var t := InsertBy(cmp, x, init);
      if init != [] && cmp(init[|init| - 1], x) > 0.0 {
        assert t[|t| - 1] == s[|s| - 2];
      } else {
        assert cmp(x, last) == -cmp(last, x);
      }
      SortedAppend(cmp, t, last);
    } else {
      SortedAppend(cmp, s, x);
    }
  }

  lemma SortedPrefix<T>(cmp: (T, T) -> real, s: seq<T>)
    requires s != [] && SortedBy(cmp, s)
    ensures SortedBy(cmp, s[..|s| - 1])
  {
    var init := s[..|s| - 1];
    forall i | 0 < i < |init| ensures cmp(init[i - 1], init[i]) <= 0.0 {
      assert init[i - 1] == s[i - 1] && init[i] == s[i];
    }
  }

  lemma SortedAppend<T>(cmp: (T, T) -> real, t: seq<T>, y: T)
    requires SortedBy(cmp, t) && (t != [] ==> cmp(t[|t| - 1], y) <= 0.0)
    ensures SortedBy(cmp, t + [y])
  {
    var r := t + [y];
    forall i | 0 < i < |r| ensures cmp(r[i - 1], r[i]) <= 0.0 {
      if i < |t| {
        assert r[i - 1] == t[i - 1] && r[i] == t[i];
      }
    }
  }

  /** `rows.sort(cmp)`, as a stable insertion sort. */
  function SortBy<T>(cmp: (T, T) -> real, xs: seq<T>): seq<T> {
    if xs == [] then [] else InsertBy(cmp, xs[|xs| - 1], SortBy(cmp, xs[..|xs| - 1]))
  }

  /** Sorting reorders the rows without losing or adding any, whatever the
      comparator. */
  lemma {:induction false} SortByPermutes<T>(cmp: (T, T) -> real, xs: seq<T>)
    ensures multiset(SortBy(cmp, xs)) == multiset(xs)
  {
    if xs != [] {
      var init := xs[..|xs| - 1];
      assert xs == init + [xs[|xs| - 1]];
      SortByPermutes(cmp, init);
      InsertByContents(cmp, xs[|xs| - 1], SortBy(cmp, init));
    }
  }

  /** Sorting leaves every adjacent pair in order whenever the comparator
      is antisymmetric; no transitivity is needed. */
  lemma {:induction false} SortBySorted<T(!new)>(cmp: (T, T) -> real, xs: seq<T>)
    requires Antisymmetric(cmp)
    ensures SortedBy(cmp, SortBy(cmp, xs))
  {
    if xs != [] {
      var init := xs[..|xs| - 1];
      SortBySorted(cmp, init);
      InsertBySorted(cmp, xs[|xs| - 1], SortBy(cmp, init));
    }
  }

  /** The comparator `sortTable` hands to `rows.sort` for a column. */
  function ByColumn(parse: string -> Option<real>, localeCompare: (string, string) -> real, dir: Direction,
                    col: nat, sortKey: Option<string>): (SortRow, SortRow) -> real {
    (a, b) => RowCompare(parse, localeCompare, dir, col, sortKey, a, b)
  }

  /** Every row of `out` has a numeric value under the column, and the
      values never decrease from one row to the next. */
  predicate NumericallyAscending(parse: string -> Option<real>, col: nat, sortKey: Option<string>, out: seq<SortRow>) {
    forall i :: 0 < i < |out| ==> NumbersInOrder(parse, col, sortKey, out[i - 1], out[i])
  }

  /** Both rows have a numeric value under the column, the first no larger
      than the second. */
  predicate NumbersInOrder(parse: string -> Option<real>, col: nat, sortKey: Option<string>, a: SortRow, b: SortRow) {
    && Readable(a, col, sortKey) && Readable(b, col, sortKey)
    && NumericValue(parse, RowSortValue(a, col, sortKey)).Some?
    && NumericValue(parse, RowSortValue(b, col, sortKey)).Some?
    && NumericValue(parse, RowSortValue(a, col, sortKey)).value <= NumericValue(parse, RowSortValue(b, col, sortKey)).value
  }

  /** The rows of a column whose every value is numeric come out in
      ascending numeric order after an ascending sort. */
  lemma NumericColumnAscends(parse: string -> Option<real>, localeCompare: (string, string) -> real,
                             col: nat, sortKey: Option<string>, rows: seq<SortRow>)
    requires forall x, y :: localeCompare(x, y) == -localeCompare(y, x)
    requires forall r :: r in rows ==> Readable(r, col, sortKey) && NumericValue(parse, RowSortValue(r, col, sortKey)).Some?
    ensures NumericallyAscending(parse, col, sortKey, SortBy(ByColumn(parse, localeCompare, Asc, col, sortKey), rows))
  {
    var cmp := ByColumn(parse, localeCompare, Asc, col, sortKey);
    RowCompareAntisymmetric(parse, localeCompare, Asc, col, sortKey);
    SortByPermutes(cmp, rows);
    SortBySorted(cmp, rows);
    var out := SortBy(cmp, rows);
    forall i | 0 < i < |out|
      ensures NumbersInOrder(parse, col, sortKey, out[i - 1], out[i])
    {
      assert out[i - 1] in multiset(rows) && out[i] in multiset(rows);
      assert cmp(out[i - 1], out[i]) <= 0.0;
    }
  }

  /** The sort icon a header shows. `NoIcon` is a header without one. */
  datatype Icon = NoIcon | Unsorted | Ascending | Descending

  /** The icons after a click on header `col`: every other header that has
      an icon goes back to the neutral one, the clicked one shows the new
      direction. */
  function Reiconed(icons: seq<Icon>, col: nat, dir: Direction): seq<Icon>
    requires col < |icons|
  {
    seq(|icons|, i requires 0 <= i < |icons| =>
      if icons[i] == NoIcon then NoIcon
      else if i == col then (if dir == Desc then Descending else Ascending)
      else Unsorted)
  }

  /** A table with sortable headers: each header's `data-sort-key`,
      `data-sorted` and icon, and the body rows in display order. */
  class SortableTable {
    const parse: string -> Option<real>
    const localeCompare: (string, string) -> real
    const sortKeys: seq<Option<string>>
    var sorted: seq<Option<string>>
    var icons: seq<Icon>
    var rows: seq<SortRow>

    predicate Valid()
      reads this
    {
      |sorted| == |sortKeys| && |icons| == |sortKeys|
    }

    constructor (parse: string -> Option<real>, localeCompare: (string, string) -> real,
                 sortKeys: seq<Option<string>>, icons: seq<Icon>, rows: seq<SortRow>)
      requires |icons| == |sortKeys|
      ensures Valid()
      ensures this.parse == parse && this.localeCompare == localeCompare && this.sortKeys == sortKeys
      ensures this.icons == icons && this.rows == rows
      ensures forall i :: 0 <= i < |sorted| ==> sorted[i].None?
    {
      this.parse := parse;
      this.localeCompare := localeCompare;
      this.sortKeys := sortKeys;
      this.icons := icons;
      this.rows := rows;
      sorted := seq(|sortKeys|, _ => None);
    }

    /** A click on header `col`. Every header loses its `data-sorted`, the
        clicked one gets the toggled direction, the icons follow, and the
        rows are sorted by that column. When a row lacks the column's cell
        the comparator throws: the headers are updated but the rows keep
        their order. */
    method SortTable(col: nat) returns (dir: Direction)
      requires Valid() && col < |sortKeys|
      modifies this
      ensures Valid()
      ensures dir == NewDirection(old(sorted)[col])
      ensures sorted == Resorted(old(sorted), col)
      ensures icons == Reiconed(old(icons), col, dir)
      ensures rows == if forall r :: r in old(rows) ==> Readable(r, col, sortKeys[col])
                      then SortBy(ByColumn(parse, localeCompare, dir, col, sortKeys[col]), old(rows))
                      else old(rows)
    {
      dir := NewDirection(sorted[col]);
      var i := 0;
      ghost var before := icons;
      while i < |sorted|
        invariant 0 <= i <= |sorted| && Valid() && rows == old(rows)
        invariant sorted[col] == old(sorted)[col] || col < i
        invariant forall j :: 0 <= j < i ==> sorted[j].None?
        invariant forall j :: i <= j < |sorted| ==> sorted[j] == old(sorted)[j]
        invariant forall j :: 0 <= j < i ==> icons[j] == if j == col then before[j] else if before[j] == NoIcon then NoIcon else Unsorted
        invariant forall j :: i <= j < |icons| ==> icons[j] == before[j]
      {
        sorted := sorted[i := None];
        if icons[i] != NoIcon && i != col {
          icons := icons[i := Unsorted];
        }
        i := i + 1;
      }
      sorted := sorted[col := Some(DirectionName(dir))];
      if icons[col] != NoIcon {
        icons := icons[col := if dir == Desc then Descending else Ascending];
      }
      if forall r :: r in rows ==> Readable(r, col, sortKeys[col]) {
        rows := SortBy(ByColumn(parse, localeCompare, dir, col, sortKeys[col]), rows);
      }
      assert sorted == Resorted(old(sorted), col);
      assert icons == Reiconed(old(icons), col, dir);
    }
  }
}
