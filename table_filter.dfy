/** `TableFilter`: filters declared per column on a table's header cells,
    values read from the body cells, and rows that pass when a cell is
    missing or does not parse (fail-open). */
module TableFilters {
  import opened JsText
  import opened FilterRules

  /** One body cell: its attributes, the text of its first badge element and
      of its first mono/code element (None when it has none), and its text. */
  datatype Cell = Cell(attrs: map<string, string>, badge: Option<string>, mono: Option<string>, text: string)

  /** One body row: its `<td>` cells in order and its whole text. */
  datatype Row = Row(cells: seq<Cell>, text: string)

  /** One header cell, with its `data-filter-id` and `data-filter-type`
      attributes (None when absent). */
  datatype Header = Header(filterId: Option<string>, filterType: Option<string>)

  /** A detected filter: its kind and the index of its column. */
  datatype ColumnConfig = ColumnConfig(kind: FilterKind, column: nat)

  /** The configuration and the initial filter state built by detection. */
  datatype Detection = Detection(config: map<string, ColumnConfig>, dropdowns: map<string, seq<string>>, ranges: map<string, Bounds>)

  const CurrencyChars: set<char> := {'$', ',', '\U{20AC}'}

  predicate HasCell(row: Row, col: nat) {
    col < |row.cells|
  }

  /** The `data-filter-<id>` attribute of a cell, "" when absent. */
  function FilterAttr(cell: Cell, id: string): string {
    var name := "data-filter-" + id;
    if name in cell.attrs then cell.attrs[name] else ""
  }

  /** `getCellFilterValue`: a non-empty `data-filter-<id>` attribute wins;
      then the trimmed badge text; then the trimmed mono/code text with the
      currency characters removed; then the trimmed cell text. */
  function CellFilterValue(cell: Cell, id: string): string {
    if FilterAttr(cell, id) != "" then FilterAttr(cell, id)
    else if cell.badge.Some? then Trim(cell.badge.value)
    else if cell.mono.Some? then RemoveChars(Trim(cell.mono.value), CurrencyChars)
    else Trim(cell.text)
  }

  /** A non-empty attribute value is taken as it is; otherwise the trimmed
      badge text comes first, then the trimmed mono/code text, which keeps
      exactly its non-currency characters in order, then the trimmed cell
      text. */
  lemma CellFilterValueSpec(cell: Cell, id: string)
    ensures var r := CellFilterValue(cell, id);
      (FilterAttr(cell, id) != "" ==> r == FilterAttr(cell, id)) &&
      (FilterAttr(cell, id) == "" && cell.mono.None? ==> r == [] || (!IsSpace(r[0]) && !IsSpace(r[|r| - 1]))) &&
      (FilterAttr(cell, id) == "" && cell.badge.Some? ==> r == Trim(cell.badge.value)) &&
      (FilterAttr(cell, id) == "" && cell.badge.None? && cell.mono.None? ==> r == Trim(cell.text)) &&
      (FilterAttr(cell, id) == "" && cell.badge.None? && cell.mono.Some? ==>
        (forall i :: 0 <= i < |r| ==> r[i] !in CurrencyChars) &&
        (forall c :: c !in CurrencyChars ==> multiset(r)[c] == multiset(Trim(cell.mono.value))[c]) &&
        Subsequence(r, Trim(cell.mono.value)))
  {
    if FilterAttr(cell, id) != "" {
    } else if cell.badge.Some? {
      assert CellFilterValue(cell, id) == Trim(cell.badge.value);
    } else if cell.mono.Some? {
      var m := Trim(cell.mono.value);
      assert CellFilterValue(cell, id) == RemoveChars(m, CurrencyChars);
      RemoveCharsSpec(m, CurrencyChars);
      RemoveCharsKeepsOrder(m, CurrencyChars);
    } else {
      assert CellFilterValue(cell, id) == Trim(cell.text);
    }
  }

  /** Plain mono/code text such as "1234" is read back unchanged. */
  lemma {:induction false} PlainMonoTextKept(cell: Cell, id: string)
    requires FilterAttr(cell, id) == "" && cell.badge.None? && cell.mono.Some?
    requires forall i :: 0 <= i < |Trim(cell.mono.value)| ==> Trim(cell.mono.value)[i] !in CurrencyChars
    ensures CellFilterValue(cell, id) == Trim(cell.mono.value)
  {
    RemoveCharsKeepsClean(Trim(cell.mono.value), CurrencyChars);
  }

  // ---------------------------------------------------------------------
  // Detection.

  /** The filter values of a column, one per row that has that cell. */
  function ColumnValues(value: (Cell, string) -> string, rows: seq<Row>, col: nat, id: string): seq<string> {
    if rows == [] then []
    else
      var last := rows[|rows| - 1];
      ColumnValues(value, rows[..|rows| - 1], col, id) + if HasCell(last, col) then [value(last.cells[col], id)] else []
  }

  /** Row `i` has the cell of column `col`, and its filter value is `v`. */
  predicate ValueAt(value: (Cell, string) -> string, rows: seq<Row>, i: int, col: nat, id: string, v: string) {
    0 <= i < |rows| && HasCell(rows[i], col) && v == value(rows[i].cells[col], id)
  }

  /** The column's values are exactly the values of the rows that have the cell. */
  lemma {:induction false} ColumnValuesSpec(value: (Cell, string) -> string, rows: seq<Row>, col: nat, id: string)
    ensures forall v :: v in ColumnValues(value, rows, col, id) <==> exists i :: ValueAt(value, rows, i, col, id, v)
  {
    if rows != [] {
      var init := rows[..|rows| - 1];
      ColumnValuesSpec(value, init, col, id);
      forall v | v in ColumnValues(value, rows, col, id) ensures exists i :: ValueAt(value, rows, i, col, id, v) {
        if v in ColumnValues(value, init, col, id) {
          var i :| ValueAt(value, init, i, col, id, v);
          assert ValueAt(value, rows, i, col, id, v);
        } else {
          assert ValueAt(value, rows, |rows| - 1, col, id, v);
        }
      }
      forall i, v | ValueAt(value, rows, i, col, id, v) ensures v in ColumnValues(value, rows, col, id) {
        if i < |init| {
          assert ValueAt(value, init, i, col, id, v);
        }
      }
    }
  }

  /** What one value contributes to the options: its trimmed form, unless
      it is blank. */
  function Kept(w: string): seq<string> {
    if IsBlank(w) then [] else [Trim(w)]
  }

  /** Row `i` has the cell of column `col`, and `f` of its filter value
      yields `v`. */
  predicate Yields(f: string -> seq<string>, value: (Cell, string) -> string, rows: seq<Row>, i: int, col: nat, id: string, v: string) {
    0 <= i < |rows| && HasCell(rows[i], col) && v in f(value(rows[i].cells[col], id))
  }

  /** Collecting over a column gathers exactly what its cells yield. */
  lemma CollectColumnSpec(f: string -> seq<string>, value: (Cell, string) -> string, rows: seq<Row>, col: nat, id: string)
    ensures forall v :: v in Collect(f, ColumnValues(value, rows, col, id)) <==> exists i :: Yields(f, value, rows, i, col, id, v)
  {
    var vs := ColumnValues(value, rows, col, id);
    ColumnValuesSpec(value, rows, col, id);
    CollectSpec(f, vs);
    forall v | v in Collect(f, vs) ensures exists i :: Yields(f, value, rows, i, col, id, v) {
      var k :| Contributes(f, vs, k, v);
      assert vs[k] in vs;
      var i :| ValueAt(value, rows, i, col, id, vs[k]);
      assert Yields(f, value, rows, i, col, id, v);
    }
    forall i, v | Yields(f, value, rows, i, col, id, v) ensures v in Collect(f, vs) {
      var w := value(rows[i].cells[col], id);
      assert ValueAt(value, rows, i, col, id, w);
      assert w in vs;
      var k :| 0 <= k < |vs| && vs[k] == w;
      assert Contributes(f, vs, k, v);
    }
  }

  /** A column's dropdown options: the distinct trimmed non-blank values, in
      the default string order. */
  function DropdownOptions(value: (Cell, string) -> string, rows: seq<Row>, col: nat, id: string): seq<string> {
    SortedDistinct(Collect(Kept, ColumnValues(value, rows, col, id)))
  }

  /** The options are strictly sorted, and an option is offered exactly when
      some row's cell in the column has a non-blank value trimming to it. */
  lemma DropdownOptionsSpec(value: (Cell, string) -> string, rows: seq<Row>, col: nat, id: string)
    ensures StrictlySorted(DropdownOptions(value, rows, col, id))
    ensures forall v :: v in DropdownOptions(value, rows, col, id) <==> exists i :: Yields(Kept, value, rows, i, col, id, v)
  {
    CollectColumnSpec(Kept, value, rows, col, id);
  }

  /** A column's range domain: the smallest and largest value that parses,
      or 0..100 when no value parses (see RangeDomainSpec). */
  function RangeDomain(parse: string -> Option<real>, value: (Cell, string) -> string, rows: seq<Row>, col: nat, id: string): Bounds {
    var nums := Numbers(parse, ColumnValues(value, rows, col, id));
    if |nums| == 0 then Bounds(0.0, 100.0) else Span(nums)
  }

  /** The cell of row `i` in column `col` parses to `x`. */
  predicate ParsesTo(parse: string -> Option<real>, value: (Cell, string) -> string, row: Row, col: nat, id: string, x: real) {
    HasCell(row, col) && parse(value(row.cells[col], id)) == Some(x)
  }

  lemma RangeDomainSpec(parse: string -> Option<real>, value: (Cell, string) -> string, rows: seq<Row>, col: nat, id: string)
    ensures var b := RangeDomain(parse, value, rows, col, id);
      (forall i, x :: 0 <= i < |rows| && ParsesTo(parse, value, rows[i], col, id, x) ==> InBounds(x, b)) &&
      ((forall i, x :: 0 <= i < |rows| ==> !ParsesTo(parse, value, rows[i], col, id, x)) ==> b == Bounds(0.0, 100.0)) &&
      ((exists i, x :: 0 <= i < |rows| && ParsesTo(parse, value, rows[i], col, id, x)) ==>
        b.lo <= b.hi &&
        (exists i :: 0 <= i < |rows| && ParsesTo(parse, value, rows[i], col, id, b.lo)) &&
        (exists i :: 0 <= i < |rows| && ParsesTo(parse, value, rows[i], col, id, b.hi)))
  {
    var vs := ColumnValues(value, rows, col, id);
    var nums := Numbers(parse, vs);
    ColumnValuesSpec(value, rows, col, id);
    assert forall i, x :: 0 <= i < |rows| && ParsesTo(parse, value, rows[i], col, id, x) ==> x in nums by {
      forall i, x | 0 <= i < |rows| && ParsesTo(parse, value, rows[i], col, id, x) ensures x in nums {
        var v := value(rows[i].cells[col], id);
        assert ValueAt(value, rows, i, col, id, v);
        assert v in vs;
        var k :| 0 <= k < |vs| && vs[k] == v;
      }
    }
    if |nums| > 0 {
      var b := Span(nums);
      ValueOfNumber(parse, value, rows, col, id, b.lo);
      ValueOfNumber(parse, value, rows, col, id, b.hi);
    }
  }

  /** Every number found in a column comes from the value of one of its cells. */
  lemma ValueOfNumber(parse: string -> Option<real>, value: (Cell, string) -> string, rows: seq<Row>, col: nat, id: string, x: real)
    requires x in Numbers(parse, ColumnValues(value, rows, col, id))
    ensures exists i :: 0 <= i < |rows| && ParsesTo(parse, value, rows[i], col, id, x)
  {
    var vs := ColumnValues(value, rows, col, id);
    var k :| 0 <= k < |vs| && parse(vs[k]) == Some(x);
    assert vs[k] in vs;
    ColumnValuesSpec(value, rows, col, id);
    var i :| ValueAt(value, rows, i, col, id, vs[k]);
    assert ParsesTo(parse, value, rows[i], col, id, x);
  }

  /** `data-filter-type || 'dropdown'`. */
  function FilterType(h: Header): string {
    if h.filterType.None? || h.filterType.value == "" then "dropdown" else h.filterType.value
  }

  /** What a header declares: a dropdown or a range filter for an id, or
      nothing (no `data-filter-id`, or a type other than the two). */
  datatype Declared = NoFilter | DropdownColumn(id: string) | RangeColumn(id: string)

  function Declaration(h: Header): Declared {
    if h.filterId.None? then NoFilter
    else if FilterType(h) == "dropdown" then DropdownColumn(h.filterId.value)
    else if FilterType(h) == "range" then RangeColumn(h.filterId.value)
    else NoFilter
  }

  /** A header that detection turns into a filter for `id`. */
  predicate Declares(h: Header, id: string) {
    !Declaration(h).NoFilter? && Declaration(h).id == id
  }

  /** What detection does with the header at column `col`, given how a
      column's options and domain are computed; a later header with the
      same id overwrites an earlier one. */
  function DetectHeader(options: (nat, string) -> seq<string>, domain: (nat, string) -> Bounds,
                        d: Detection, h: Header, col: nat): Detection {
    match Declaration(h)
    case NoFilter => d
    case DropdownColumn(id) =>
      Detection(d.config[id := ColumnConfig(DropdownKind(options(col, id)), col)], d.dropdowns[id := []], d.ranges)
    case RangeColumn(id) =>
      Detection(d.config[id := ColumnConfig(RangeKind(domain(col, id)), col)], d.dropdowns, d.ranges[id := domain(col, id)])
  }

  /** Detection over the first `n` headers, in document order. */
  function DetectPrefix(options: (nat, string) -> seq<string>, domain: (nat, string) -> Bounds,
                        headers: seq<Header>, n: nat): Detection
    requires n <= |headers|
  {
    if n == 0 then Detection(map[], map[], map[])
    else DetectHeader(options, domain, DetectPrefix(options, domain, headers, n - 1), headers[n - 1], n - 1)
  }

  /** `detectFilterableColumns` over the whole header row. */
  function Detect(parse: string -> Option<real>, headers: seq<Header>, rows: seq<Row>): Detection {
    DetectPrefix((col: nat, id: string) => DropdownOptions(CellFilterValue, rows, col, id),
                 (col: nat, id: string) => RangeDomain(parse, CellFilterValue, rows, col, id), headers, |headers|)
  }

  /** A header that declares `id` sets its configuration, with the header's
      column and declared kind; any other header leaves it alone. */
  lemma DetectHeaderAt(options: (nat, string) -> seq<string>, domain: (nat, string) -> Bounds,
                       d: Detection, h: Header, col: nat, id: string)
    ensures var c := DetectHeader(options, domain, d, h, col).config;
      (Declares(h, id) ==> id in c && c[id].column == col && (c[id].kind.RangeKind? <==> Declaration(h).RangeColumn?)) &&
      (!Declares(h, id) ==> (id in c <==> id in d.config) && (id in c ==> c[id] == d.config[id]))
  {
  }

  /** An id is configured iff some header declares it. */
  lemma {:induction false} DetectConfiguresDeclaredIds(options: (nat, string) -> seq<string>, domain: (nat, string) -> Bounds,
                                                       headers: seq<Header>, n: nat, id: string)
    requires n <= |headers|
    ensures id in DetectPrefix(options, domain, headers, n).config <==> exists j :: 0 <= j < n && Declares(headers[j], id)
  {
    if n > 0 {
      DetectConfiguresDeclaredIds(options, domain, headers, n - 1, id);
      DetectHeaderAt(options, domain, DetectPrefix(options, domain, headers, n - 1), headers[n - 1], n - 1, id);
      if !Declares(headers[n - 1], id) {
        assert (exists j :: 0 <= j < n && Declares(headers[j], id)) ==>
               (exists j :: 0 <= j < n - 1 && Declares(headers[j], id));
      }
    }
  }

  /** The configuration of an id comes from the last header that declares
      it, with that header's column and kind. */
  lemma {:induction false} DetectUsesLastHeader(options: (nat, string) -> seq<string>, domain: (nat, string) -> Bounds,
                                                headers: seq<Header>, n: nat, id: string)
    requires n <= |headers|
    requires id in DetectPrefix(options, domain, headers, n).config
    ensures var c := DetectPrefix(options, domain, headers, n).config[id];
      c.column < n && Declares(headers[c.column], id) &&
      (forall j :: c.column < j < n ==> !Declares(headers[j], id)) &&
      (c.kind.RangeKind? <==> Declaration(headers[c.column]).RangeColumn?)
  {
    assert n > 0;
    DetectHeaderAt(options, domain, DetectPrefix(options, domain, headers, n - 1), headers[n - 1], n - 1, id);
    if !Declares(headers[n - 1], id) {
      DetectUsesLastHeader(options, domain, headers, n - 1, id);
    }
  }

  /** No dropdown has a selection, every range entry belongs to a configured
      id, and a range-configured id sits at its domain. */
  predicate DetectionAtRest(d: Detection) {
    (forall id :: id in d.dropdowns ==> d.dropdowns[id] == [] && id in d.config) &&
    (forall id :: id in d.ranges ==> id in d.config) &&
    (forall id :: id in d.config && d.config[id].kind.RangeKind? ==> id in d.ranges && d.ranges[id] == d.config[id].kind.domain) &&
    (forall id :: id in d.config && d.config[id].kind.DropdownKind? ==> id in d.dropdowns)
  }

  lemma AddingDropdownKeepsAtRest(d: Detection, id: string, c: ColumnConfig)
    requires DetectionAtRest(d) && c.kind.DropdownKind?
    ensures DetectionAtRest(Detection(d.config[id := c], d.dropdowns[id := []], d.ranges))
  {
  }

  lemma AddingRangeKeepsAtRest(d: Detection, id: string, c: ColumnConfig)
    requires DetectionAtRest(d) && c.kind.RangeKind?
    ensures DetectionAtRest(Detection(d.config[id := c], d.dropdowns, d.ranges[id := c.kind.domain]))
  {
  }

  /** Right after detection every filter is inactive. */
  lemma {:induction false} DetectStartsAtRest(options: (nat, string) -> seq<string>, domain: (nat, string) -> Bounds,
                                              headers: seq<Header>, n: nat)
    requires n <= |headers|
    ensures DetectionAtRest(DetectPrefix(options, domain, headers, n))
  {
    if n > 0 {
      DetectStartsAtRest(options, domain, headers, n - 1);
      var prev := DetectPrefix(options, domain, headers, n - 1);
      var decl := Declaration(headers[n - 1]);
      if decl.DropdownColumn? {
        AddingDropdownKeepsAtRest(prev, decl.id, ColumnConfig(DropdownKind(options(n - 1, decl.id)), n - 1));
      } else if decl.RangeColumn? {
        AddingRangeKeepsAtRest(prev, decl.id, ColumnConfig(RangeKind(domain(n - 1, decl.id)), n - 1));
      }
    }
  }

  /** No two of the first `n` headers declare a filter for the same id. */
  predicate DistinctDeclarations(headers: seq<Header>, n: nat)
    requires n <= |headers|
  {
    forall j, k :: 0 <= j < k < n && !Declaration(headers[k]).NoFilter? ==> !Declares(headers[j], Declaration(headers[k]).id)
  }

  /** Every id holding range bounds is configured as a range. */
  predicate RangesConfiguredAsRanges(d: Detection) {
    forall id :: id in d.ranges ==> id in d.config && d.config[id].kind.RangeKind?
  }

  /** With distinct declarations, no range bounds are left under an id
      that a dropdown header took over. */
  lemma {:induction false} DistinctDetectionKeepsRangesRanges(options: (nat, string) -> seq<string>, domain: (nat, string) -> Bounds,
                                                              headers: seq<Header>, n: nat)
    requires n <= |headers| && DistinctDeclarations(headers, n)
    ensures RangesConfiguredAsRanges(DetectPrefix(options, domain, headers, n))
  {
    if n > 0 {
      assert DistinctDeclarations(headers, n - 1);
      DistinctDetectionKeepsRangesRanges(options, domain, headers, n - 1);
      var prev := DetectPrefix(options, domain, headers, n - 1);
      var decl := Declaration(headers[n - 1]);
      if decl.DropdownColumn? {
        DetectStartsAtRest(options, domain, headers, n - 1);
        DetectConfiguresDeclaredIds(options, domain, headers, n - 1, decl.id);
        assert decl.id !in prev.ranges;
      }
    }
  }

  /** When no id is declared twice, detection leaves every filter inactive. */
  lemma DistinctDetectionStartsAtRest(options: (nat, string) -> seq<string>, domain: (nat, string) -> Bounds,
                                      headers: seq<Header>, n: nat)
    requires n <= |headers| && DistinctDeclarations(headers, n)
    ensures var d := DetectPrefix(options, domain, headers, n);
      AtRest(d.config, FilterState("", d.dropdowns, d.ranges))
  {
    DetectStartsAtRest(options, domain, headers, n);
    DistinctDetectionKeepsRangesRanges(options, domain, headers, n);
  }

  /** A range header and then a dropdown header for the same id: the range
      bounds stay behind under a dropdown configuration, which the range
      test counts as active, so a row whose value lies outside them is
      hidden although no filter was touched. */
  lemma DuplicateIdLeavesActiveRange(parse: string -> Option<real>, options: (nat, string) -> seq<string>,
                                     domain: (nat, string) -> Bounds, row: Row)
    requires |row.cells| > 1 && parse(CellFilterValue(row.cells[1], "p")).Some?
    requires !InBounds(parse(CellFilterValue(row.cells[1], "p")).value, domain(0, "p"))
    ensures var d := DetectPrefix(options, domain, [Header(Some("p"), Some("range")), Header(Some("p"), None)], 2);
      "p" in d.ranges && RangeActive(d.config["p"].kind, d.ranges["p"]) &&
      !AtRest(d.config, FilterState("", d.dropdowns, d.ranges)) &&
      !RowVisible(parse, d.config, FilterState("", d.dropdowns, d.ranges), row)
  {
    var headers := [Header(Some("p"), Some("range")), Header(Some("p"), None)];
    assert Declaration(headers[0]) == RangeColumn("p");
    assert Declaration(headers[1]) == DropdownColumn("p");
    var d := DetectPrefix(options, domain, headers, 2);
    assert d.ranges["p"] == domain(0, "p");
    assert !RangePasses(parse, d.config, "p", d.ranges["p"], row);
  }

  // ---------------------------------------------------------------------
  // Visibility.

  /** The dropdown test as the source writes it: the untrimmed cell value
      must be one of the selected options. */
  predicate DropdownPassesAsWritten(config: map<string, ColumnConfig>, id: string, selected: seq<string>, row: Row) {
    !DropdownActive(selected) || id !in config || !HasCell(row, config[id].column) ||
    CellFilterValue(row.cells[config[id].column], id) in selected
  }

  /** The dropdown test compared on the trimmed value, the form in which
      detection offers the options. A row without the cell passes. */
  predicate DropdownPasses(config: map<string, ColumnConfig>, id: string, selected: seq<string>, row: Row) {
    !DropdownActive(selected) || id !in config || !HasCell(row, config[id].column) ||
    Trim(CellFilterValue(row.cells[config[id].column], id)) in selected
  }

  /** The range test: inclusive containment; a row without the cell or
      whose value does not parse passes. */
  predicate RangePasses(parse: string -> Option<real>, config: map<string, ColumnConfig>, id: string, b: Bounds, row: Row) {
    id !in config || !RangeActive(config[id].kind, b) || !HasCell(row, config[id].column) ||
    parse(CellFilterValue(row.cells[config[id].column], id)).None? ||
    InBounds(parse(CellFilterValue(row.cells[config[id].column], id)).value, b)
  }

  /** A row is shown iff every active filter passes. */
  predicate RowVisible(parse: string -> Option<real>, config: map<string, ColumnConfig>, st: FilterState, row: Row) {
    TextPasses(row.text, st.text) &&
    (forall id :: id in st.dropdowns ==> DropdownPasses(config, id, st.dropdowns[id], row)) &&
    (forall id :: id in st.ranges ==> RangePasses(parse, config, id, st.ranges[id], row))
  }

  /** The visibility test for one row under `st`. */
  function RowTest(parse: string -> Option<real>, config: map<string, ColumnConfig>, st: FilterState): Row -> bool {
    row => RowVisible(parse, config, st, row)
  }

  function VisibleRows(parse: string -> Option<real>, config: map<string, ColumnConfig>, st: FilterState, rows: seq<Row>): seq<bool> {
    Mask(RowTest(parse, config, st), rows)
  }

  /** A state in which no filter is active. */
  predicate AtRest(config: map<string, ColumnConfig>, st: FilterState) {
    !TextActive(st.text) &&
    (forall id :: id in st.dropdowns ==> st.dropdowns[id] == []) &&
    (forall id :: id in st.ranges && id in config ==> config[id].kind == RangeKind(st.ranges[id]))
  }

  /** Inactive filters never hide a row. */
  lemma AtRestShowsEveryRow(parse: string -> Option<real>, config: map<string, ColumnConfig>, st: FilterState, row: Row)
    requires AtRest(config, st)
    ensures RowVisible(parse, config, st, row)
  {
  }

  /** Fail-open: a row lacking the filtered cell, or whose value does not
      parse, passes that filter whatever is selected. */
  lemma MissingCellPasses(parse: string -> Option<real>, config: map<string, ColumnConfig>, id: string, selected: seq<string>, b: Bounds, row: Row)
    requires id in config
    requires !HasCell(row, config[id].column) ||
      parse(CellFilterValue(row.cells[config[id].column], id)).None?
    ensures RangePasses(parse, config, id, b, row)
    ensures !HasCell(row, config[id].column) ==> DropdownPasses(config, id, selected, row)
  {
  }

  /** Clearing a dropdown or putting a range back at its domain never hides
      a row that was shown. */
  lemma RelaxingNeverHides(parse: string -> Option<real>, config: map<string, ColumnConfig>, st: FilterState, row: Row, id: string)
    requires RowVisible(parse, config, st, row)
    ensures RowVisible(parse, config, st.(dropdowns := st.dropdowns[id := []]), row)
    ensures id in config && config[id].kind.RangeKind? ==>
      RowVisible(parse, config, st.(ranges := st.ranges[id := config[id].kind.domain]), row)
  {
  }

  /** Selecting an option that a row's own cell produced keeps that row:
      each option offered for a column selects the rows it came from. */
  lemma {:induction false} OfferedOptionKeepsItsRow(rows: seq<Row>, col: nat, id: string, v: string, i: nat)
    requires i < |rows| && HasCell(rows[i], col)
    requires !IsBlank(CellFilterValue(rows[i].cells[col], id)) && Trim(CellFilterValue(rows[i].cells[col], id)) == v
    ensures v in DropdownOptions(CellFilterValue, rows, col, id)
    ensures DropdownPasses(map[id := ColumnConfig(DropdownKind(DropdownOptions(CellFilterValue, rows, col, id)), col)], id, [v], rows[i])
  {
    DropdownOptionsSpec(CellFilterValue, rows, col, id);
    assert Yields(Kept, CellFilterValue, rows, i, col, id, v);
  }

  /** The price cell of the example below: mono text "12 €". */
  function PriceCell(): Cell {
    Cell(map[], None, Some("12 \U{20AC}"), "12 \U{20AC}")
  }

  /** The filter value of "12 €" in mono text keeps the space before the
      removed currency sign. */
  lemma PriceCellValue()
    ensures CellFilterValue(PriceCell(), "price") == "12 "
  {
    PriceTextIsTrimmed();
    PriceTextWithoutCurrency();
    assert FilterAttr(PriceCell(), "price") == "";
  }

  lemma PriceTextIsTrimmed()
    ensures Trim("12 \U{20AC}") == "12 \U{20AC}"
  {
    var t := "12 \U{20AC}";
    assert !IsSpace(t[0]) && !IsSpace(t[3]);
    assert TrimStart(t) == t;
    assert TrimEnd(t) == t;
  }

  lemma PriceTextWithoutCurrency()
    ensures RemoveChars("12 \U{20AC}", CurrencyChars) == "12 "
  {
    var t := "12 \U{20AC}";
    assert RemoveChars(t[3..], CurrencyChars) == "";
    assert RemoveChars(t[2..], CurrencyChars) == " ";
    assert RemoveChars(t[1..], CurrencyChars) == "2 ";
  }

  lemma PriceOptionIsTrimmed()
    ensures Trim("12 ") == "12" && !IsBlank("12 ")
  {
    assert !IsSpace("12 "[0]) && !IsSpace("12"[1]) && IsSpace("12 "[2]);
    assert TrimStart("12 ") == "12 ";
    assert "12 "[..2] == "12";
    assert TrimEnd("12") == "12";
  }

  function PriceRow(): Row {
    Row([PriceCell()], "12 \U{20AC}")
  }

  /** The price column offers the single option "12". */
  lemma PriceOptions()
    ensures DropdownOptions(CellFilterValue, [PriceRow()], 0, "price") == ["12"]
  {
    PriceColumnValues();
    PriceCollected();
    SortedDistinctSingleton("12");
  }

  lemma PriceColumnValues()
    ensures ColumnValues(CellFilterValue, [PriceRow()], 0, "price") == ["12 "]
  {
    ColumnValuesSingle(CellFilterValue, PriceRow(), 0, "price");
    PriceCellValue();
  }

  /** A one-row table has the row's value in the column, if it has the cell. */
  lemma ColumnValuesSingle(value: (Cell, string) -> string, row: Row, col: nat, id: string)
    requires HasCell(row, col)
    ensures ColumnValues(value, [row], col, id) == [value(row.cells[col], id)]
  {
    assert [row][..0] == [];
  }

  lemma PriceCollected()
    ensures Collect(Kept, ["12 "]) == ["12"]
  {
    PriceOptionIsTrimmed();
    assert ["12 "][..0] == [];
  }

  /** As written, the same does not hold: a mono cell "12 €" yields the
      option "12", yet selecting "12" hides the row, because the value
      compared is "12 " with its trailing space. */
  lemma OfferedOptionHidesItsRowAsWritten()
    ensures DropdownOptions(CellFilterValue, [PriceRow()], 0, "price") == ["12"]
    ensures !DropdownPassesAsWritten(map["price" := ColumnConfig(DropdownKind(["12"]), 0)], "price", ["12"], PriceRow())
  {
    PriceOptions();
    PriceCellValue();
    var config := map["price" := ColumnConfig(DropdownKind(["12"]), 0)];
    assert "price" in config && config["price"].column == 0;
    assert HasCell(PriceRow(), 0) && PriceRow().cells[0] == PriceCell();
    assert "12 " !in ["12"] by { assert |"12 "| != |"12"|; }
  }

  // ---------------------------------------------------------------------
  // Resetting.

  /** The kind a configuration declares. */
  function ColumnKind(c: ColumnConfig): FilterKind {
    c.kind
  }

  /** `resetAllFilters` on the filter state: the text is cleared, every
      dropdown that has a widget is cleared and every range that has a
      widget goes back to its domain. */
  function ResetState(config: map<string, ColumnConfig>, st: FilterState, dropdownIds: seq<string>, rangeIds: seq<string>): FilterState
    requires forall id :: id in rangeIds ==> id in config
  {
    FilterState("", ClearDropdowns(st.dropdowns, dropdownIds), ResetRanges(st.ranges, config, ColumnKind, rangeIds))
  }

  /** Filters that have no widget cannot be changed from the page, so they
      stay as detection left them. */
  predicate OffWidgetAtRest(config: map<string, ColumnConfig>, st: FilterState, dropdownIds: seq<string>, rangeIds: seq<string>) {
    (forall id :: id in st.dropdowns && id !in dropdownIds ==> st.dropdowns[id] == []) &&
    (forall id :: id in st.ranges && id in config && id !in rangeIds ==> config[id].kind == RangeKind(st.ranges[id]))
  }

  /** After `resetAllFilters` every row is shown. */
  lemma ResetShowsEveryRow(parse: string -> Option<real>, config: map<string, ColumnConfig>, st: FilterState,
                           dropdownIds: seq<string>, rangeIds: seq<string>, row: Row)
    requires forall id :: id in rangeIds ==> id in config
    requires OffWidgetAtRest(config, st, dropdownIds, rangeIds)
    ensures AtRest(config, ResetState(config, st, dropdownIds, rangeIds))
    ensures RowVisible(parse, config, ResetState(config, st, dropdownIds, rangeIds), row)
  {
    var r := ResetState(config, st, dropdownIds, rangeIds);
    assert !TextActive(r.text);
    AtRestShowsEveryRow(parse, config, r, row);
  }

  // ---------------------------------------------------------------------
  // The host object.

  class TableFilter {
    /** `parseFloat`, as a partial parse. */
    const parse: string -> Option<real>
    const headers: seq<Header>
    const rows: seq<Row>
    /** The ids of the dropdown and range widgets found in the container. */
    const dropdownIds: seq<string>
    const rangeIds: seq<string>
    const config: map<string, ColumnConfig>
    var filters: FilterState
    /** Whether each row is displayed. */
    var shown: seq<bool>

    ghost predicate Valid()
      reads this
    {
      |shown| == |rows|
    }

    /** Detects the filterable columns, header by header. */
    constructor (parse: string -> Option<real>, headers: seq<Header>, rows: seq<Row>,
                 dropdownIds: seq<string>, rangeIds: seq<string>)
      ensures Valid()
      ensures this.parse == parse && this.headers == headers && this.rows == rows
      ensures this.dropdownIds == dropdownIds && this.rangeIds == rangeIds
      ensures config == Detect(parse, headers, rows).config
      ensures filters == FilterState("", Detect(parse, headers, rows).dropdowns, Detect(parse, headers, rows).ranges)
      ensures forall i :: 0 <= i < |shown| ==> shown[i]
    {
      ghost var options := (col: nat, id: string) => DropdownOptions(CellFilterValue, rows, col, id);
      ghost var domain := (col: nat, id: string) => RangeDomain(parse, CellFilterValue, rows, col, id);
      var d := Detection(map[], map[], map[]);
      var i := 0;
      while i < |headers|
        invariant 0 <= i <= |headers|
        invariant d == DetectPrefix(options, domain, headers, i)
      {
        var h := headers[i];
        ghost var next := DetectHeader(options, domain, d, h, i);
        if h.filterId.Some? {
          var id := h.filterId.value;
          var filterType := FilterType(h);
          if filterType == "dropdown" {
            d := Detection(d.config[id := ColumnConfig(DropdownKind(DropdownOptions(CellFilterValue, rows, i, id)), i)],
                           d.dropdowns[id := []], d.ranges);
          }
          if filterType == "range" {
            var b := RangeDomain(parse, CellFilterValue, rows, i, id);
            d := Detection(d.config[id := ColumnConfig(RangeKind(b), i)], d.dropdowns, d.ranges[id := b]);
          }
        }
        assert d == next;
        i := i + 1;
      }
      this.parse := parse;
      this.headers := headers;
      this.rows := rows;
      this.dropdownIds := dropdownIds;
      this.rangeIds := rangeIds;
      config := d.config;
      filters := FilterState("", d.dropdowns, d.ranges);
      shown := seq(|rows|, _ => true);
    }

    /** Shows exactly the rows that pass every active filter and returns
        how many are shown. */
    method ApplyAllFilters() returns (visibleCount: nat)
      requires Valid()
      modifies this`shown
      ensures Valid()
      ensures shown == VisibleRows(parse, config, filters, rows)
      ensures visibleCount == CountTrue(shown)
    {
      visibleCount := Display(RowTest(parse, config, filters));
    }

    /** Displays each row as `visible` says and counts those shown. */
    method Display(visible: Row -> bool) returns (count: nat)
      requires Valid()
      modifies this`shown
      ensures Valid()
      ensures shown == Mask(visible, rows)
      ensures count == CountTrue(shown)
    {
      ghost var target := Mask(visible, rows);
      var i := 0;
      count := 0;
      while i < |rows|
        invariant 0 <= i <= |rows| && |shown| == |rows|
        invariant forall k :: 0 <= k < i ==> shown[k] == target[k]
        invariant count == CountTrue(target[..i])
      {
        var v := visible(rows[i]);
        shown := shown[i := v];
        CountTruePrefix(target, i);
        if v {
          count := count + 1;
        }
        i := i + 1;
      }
      assert shown == target == target[..i];
    }

    method SetText(text: string)
      requires Valid()
      modifies this
      ensures Valid() && filters == old(filters).(text := text)
      ensures shown == VisibleRows(parse, config, filters, rows)
    {
      filters := filters.(text := text);
      var _ := ApplyAllFilters();
    }

    /** The checked values of a dropdown widget become its selection. */
    method UpdateDropdownFilter(id: string, selected: seq<string>)
      requires Valid() && id in dropdownIds
      modifies this
      ensures Valid() && filters == old(filters).(dropdowns := old(filters).dropdowns[id := selected])
      ensures shown == VisibleRows(parse, config, filters, rows)
    {
      filters := filters.(dropdowns := filters.dropdowns[id := selected]);
      var _ := ApplyAllFilters();
    }

    /** A `rangechange` from the slider of a configured range widget. */
    method OnSliderChange(id: string, lo: real, hi: real)
      requires Valid() && id in rangeIds && id in config
      modifies this
      ensures Valid() && filters == old(filters).(ranges := old(filters).ranges[id := Bounds(lo, hi)])
      ensures shown == VisibleRows(parse, config, filters, rows)
    {
      filters := filters.(ranges := filters.ranges[id := Bounds(lo, hi)]);
      var _ := ApplyAllFilters();
    }

    /** Typing in a range's min or max input: each parsed value, or the
        domain end when it is missing or zero. */
    method OnRangeInput(id: string, minParsed: Option<real>, maxParsed: Option<real>)
      requires Valid() && id in rangeIds && id in config && config[id].kind.RangeKind?
      modifies this
      ensures Valid()
      ensures filters == old(filters).(ranges := old(filters).ranges[id :=
        Bounds(OrDefault(minParsed, config[id].kind.domain.lo), OrDefault(maxParsed, config[id].kind.domain.hi))])
      ensures shown == VisibleRows(parse, config, filters, rows)
    {
      var domain := config[id].kind.domain;
      var lo := OrDefault(minParsed, domain.lo);
      var hi := OrDefault(maxParsed, domain.hi);
      filters := filters.(ranges := filters.ranges[id := Bounds(lo, hi)]);
      var _ := ApplyAllFilters();
    }

    method ResetRangeFilter(id: string)
      requires Valid() && id in config
      modifies this
      ensures Valid() && filters == old(filters).(ranges := ResetRange(old(filters).ranges, config[id].kind, id))
      ensures shown == VisibleRows(parse, config, filters, rows)
    {
      if config[id].kind.RangeKind? {
        filters := filters.(ranges := filters.ranges[id := config[id].kind.domain]);
      } else {
        filters := filters.(ranges := filters.ranges - {id});
      }
      var _ := ApplyAllFilters();
    }

    /** Clears the text, then every dropdown widget, then every range
        widget, one at a time. */
    method ResetAllFilters()
      requires Valid()
      requires forall id :: id in rangeIds ==> id in config
      modifies this
      ensures Valid() && filters == ResetState(config, old(filters), dropdownIds, rangeIds)
      ensures shown == VisibleRows(parse, config, filters, rows)
    {
      ghost var st := filters;
      filters := filters.(text := "");
      var i := 0;
      while i < |dropdownIds|
        invariant 0 <= i <= |dropdownIds| && Valid()
        invariant filters == FilterState("", ClearDropdowns(st.dropdowns, dropdownIds[..i]), st.ranges)
      {
        assert dropdownIds[..i + 1][..i] == dropdownIds[..i];
        UpdateDropdownFilter(dropdownIds[i], []);
        i := i + 1;
      }
      assert dropdownIds[..i] == dropdownIds;
      i := 0;
      while i < |rangeIds|
        invariant 0 <= i <= |rangeIds| && Valid()
        invariant filters == FilterState("", ClearDropdowns(st.dropdowns, dropdownIds), ResetRanges(st.ranges, config, ColumnKind, rangeIds[..i]))
      {
        assert rangeIds[..i + 1][..i] == rangeIds[..i];
        ResetRangeFilter(rangeIds[i]);
        i := i + 1;
      }
      assert rangeIds[..i] == rangeIds;
      var _ := ApplyAllFilters();
    }
  }
}
