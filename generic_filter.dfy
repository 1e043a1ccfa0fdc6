/** `GenericFilter`: filters inferred from the `data-<prefix><id>` attributes
    of arbitrary items (cards, list entries), and items that are hidden
    when an active filter finds no usable value (fail-closed). */
module GenericFilters {
  import opened JsText
  import opened FilterRules

  /** One filterable item: its attributes and its whole text. */
  datatype Item = Item(attrs: map<string, string>, text: string)

  /** A detected filter: its kind and the attribute that carries its value. */
  datatype AttrConfig = AttrConfig(kind: FilterKind, attribute: string)

  /** `container.dataset.dataPrefix || 'filter-'`. */
  function DataPrefix(declared: Option<string>): string {
    if declared.None? || declared.value == "" then "filter-" else declared.value
  }

  /** The attribute read for filter `id`: `data-<prefix><id>`. */
  function AttributeName(prefix: string, id: string): string {
    "data-" + prefix + id
  }

  /** The filter ids: every attribute-name suffix after `data-<prefix>`, on
      any item. */
  function FilterIds(items: seq<Item>, prefix: string): (ids: set<string>)
    ensures forall id :: id in ids <==> exists i :: 0 <= i < |items| && AttributeName(prefix, id) in items[i].attrs
  {
    var start := "data-" + prefix;
    var ids := set i, name | 0 <= i < |items| && name in items[i].attrs && StartsWith(name, start) :: name[|start|..];
    assert forall i, id :: 0 <= i < |items| && AttributeName(prefix, id) in items[i].attrs ==> id in ids by {
      forall i, id | 0 <= i < |items| && AttributeName(prefix, id) in items[i].attrs ensures id in ids {
        var name := AttributeName(prefix, id);
        assert name[..|start|] == start && name[|start|..] == id;
      }
    }
    assert forall id :: id in ids ==> exists i :: 0 <= i < |items| && AttributeName(prefix, id) in items[i].attrs by {
      forall id | id in ids ensures exists i :: 0 <= i < |items| && AttributeName(prefix, id) in items[i].attrs {
        var i, name :| 0 <= i < |items| && name in items[i].attrs && StartsWith(name, start) && id == name[|start|..];
        assert name == start + id;
      }
    }
    ids
  }

  // ---------------------------------------------------------------------
  // Detection.

  /** What one item contributes to a filter's values: the attribute, when
      it is present and not blank (kept untrimmed). */
  function Present(item: Item, attribute: string): seq<string> {
    if attribute in item.attrs && !IsBlank(item.attrs[attribute]) then [item.attrs[attribute]] else []
  }

  /** The values of an attribute across the items, in item order. */
  function AttrValues(items: seq<Item>, attribute: string): seq<string> {
    Collect((item: Item) => Present(item, attribute), items)
  }

  /** Item `i` carries the attribute with the non-blank value `v`. */
  predicate HasValue(items: seq<Item>, i: int, attribute: string, v: string) {
    0 <= i < |items| && attribute in items[i].attrs && items[i].attrs[attribute] == v && !IsBlank(v)
  }

  /** The values are exactly the non-blank attribute values of the items. */
  lemma AttrValuesSpec(items: seq<Item>, attribute: string)
    ensures forall v :: v in AttrValues(items, attribute) <==> exists i :: HasValue(items, i, attribute, v)
  {
    var f := (item: Item) => Present(item, attribute);
    CollectSpec(f, items);
    forall v | v in AttrValues(items, attribute) ensures exists i :: HasValue(items, i, attribute, v) {
      var i :| Contributes(f, items, i, v);
      assert HasValue(items, i, attribute, v);
    }
    forall i, v | HasValue(items, i, attribute, v) ensures v in AttrValues(items, attribute) {
      assert Contributes(f, items, i, v);
    }
  }

  /** A filter is a range when it has values and every one of them parses,
      over the smallest and largest of them; otherwise it is a dropdown of
      the distinct values in the default string order. */
  function KindOf(parse: string -> Option<real>, values: seq<string>): FilterKind {
    var nums := Numbers(parse, values);
    if |nums| == |values| && |values| > 0 then RangeKind(Span(nums)) else DropdownKind(SortedDistinct(values))
  }

  lemma KindOfSpec(parse: string -> Option<real>, values: seq<string>)
    ensures KindOf(parse, values).RangeKind? <==> |values| > 0 && forall i :: 0 <= i < |values| ==> parse(values[i]).Some?
    ensures KindOf(parse, values).RangeKind? ==>
      var b := KindOf(parse, values).domain;
      (forall i :: 0 <= i < |values| ==> InBounds(parse(values[i]).value, b)) &&
      (exists i :: 0 <= i < |values| && parse(values[i]) == Some(b.lo)) &&
      (exists i :: 0 <= i < |values| && parse(values[i]) == Some(b.hi))
    ensures KindOf(parse, values).DropdownKind? ==>
      StrictlySorted(KindOf(parse, values).options) &&
      forall v :: v in KindOf(parse, values).options <==> v in values
  {
    var nums := Numbers(parse, values);
    if |nums| == |values| && |values| > 0 {
      var b := Span(nums);
      assert b.lo in nums && b.hi in nums;
    }
  }

  /** `filterConfig[id]` as detection builds it. */
  function ConfigFor(parse: string -> Option<real>, items: seq<Item>, prefix: string, id: string): AttrConfig {
    var attribute := AttributeName(prefix, id);
    AttrConfig(KindOf(parse, AttrValues(items, attribute)), attribute)
  }

  /** The configuration of every id in `ids`. */
  function Configs(parse: string -> Option<real>, items: seq<Item>, prefix: string, ids: set<string>): map<string, AttrConfig> {
    map id | id in ids :: ConfigFor(parse, items, prefix, id)
  }

  /** The initial selections: empty, for every dropdown. */
  function InitialDropdowns(config: map<string, AttrConfig>): map<string, seq<string>> {
    map id | id in config && config[id].kind.DropdownKind? :: []
  }

  /** The initial bounds: the domain, for every range. */
  function InitialRanges(config: map<string, AttrConfig>): map<string, Bounds> {
    map id | id in config && config[id].kind.RangeKind? :: config[id].kind.domain
  }

  /** Configuring one more id adds its configuration. */
  lemma ConfigsAdding(parse: string -> Option<real>, items: seq<Item>, prefix: string, done: set<string>, id: string)
    ensures Configs(parse, items, prefix, done + {id}) == Configs(parse, items, prefix, done)[id := ConfigFor(parse, items, prefix, id)]
  {
  }

  /** Configuring a new id adds an empty selection for a dropdown, or its
      domain for a range. */
  lemma InitialStateAdding(c: map<string, AttrConfig>, id: string, ac: AttrConfig)
    requires id !in c
    ensures InitialDropdowns(c[id := ac]) == if ac.kind.DropdownKind? then InitialDropdowns(c)[id := []] else InitialDropdowns(c)
    ensures InitialRanges(c[id := ac]) == if ac.kind.RangeKind? then InitialRanges(c)[id := ac.kind.domain] else InitialRanges(c)
  {
  }

  // ---------------------------------------------------------------------
  // Visibility.

  /** `getItemFilterValue`: the item's attribute for a configured id; None
      (null) when the id has no configuration or the item lacks the attribute. */
  function ItemValue(config: map<string, AttrConfig>, item: Item, id: string): Option<string> {
    if id in config && config[id].attribute in item.attrs then Some(item.attrs[config[id].attribute]) else None
  }

  /** The dropdown test: an item without a value (attribute missing or
      empty) fails an active dropdown. */
  predicate DropdownPasses(config: map<string, AttrConfig>, id: string, selected: seq<string>, item: Item) {
    !DropdownActive(selected) ||
    (ItemValue(config, item, id).Some? && ItemValue(config, item, id).value != "" && ItemValue(config, item, id).value in selected)
  }

  /** The range test: a range without configuration is ignored; an active
      range hides an item whose value is missing or does not parse. */
  predicate RangePasses(parse: string -> Option<real>, config: map<string, AttrConfig>, id: string, b: Bounds, item: Item) {
    id !in config || !RangeActive(config[id].kind, b) ||
    (ItemValue(config, item, id).Some? && parse(ItemValue(config, item, id).value).Some? &&
     InBounds(parse(ItemValue(config, item, id).value).value, b))
  }

  /** An item is shown iff every active filter passes. */
  predicate ItemVisible(parse: string -> Option<real>, config: map<string, AttrConfig>, st: FilterState, item: Item) {
    TextPasses(item.text, st.text) &&
    (forall id :: id in st.dropdowns ==> DropdownPasses(config, id, st.dropdowns[id], item)) &&
    (forall id :: id in st.ranges ==> RangePasses(parse, config, id, st.ranges[id], item))
  }

  /** The visibility test for one item under `st`. */
  function ItemTest(parse: string -> Option<real>, config: map<string, AttrConfig>, st: FilterState): Item -> bool {
    item => ItemVisible(parse, config, st, item)
  }

  function VisibleItems(parse: string -> Option<real>, config: map<string, AttrConfig>, st: FilterState, items: seq<Item>): seq<bool> {
    Mask(ItemTest(parse, config, st), items)
  }

  /** A state in which no filter is active. */
  predicate AtRest(config: map<string, AttrConfig>, st: FilterState) {
    !TextActive(st.text) &&
    (forall id :: id in st.dropdowns ==> st.dropdowns[id] == []) &&
    (forall id :: id in st.ranges && id in config ==> config[id].kind == RangeKind(st.ranges[id]))
  }

  /** Inactive filters never hide an item. */
  lemma AtRestShowsEveryItem(parse: string -> Option<real>, config: map<string, AttrConfig>, st: FilterState, item: Item)
    requires AtRest(config, st)
    ensures ItemVisible(parse, config, st, item)
  {
  }

  /** Detection leaves every filter inactive. */
  lemma DetectionStartsAtRest(config: map<string, AttrConfig>)
    ensures AtRest(config, FilterState("", InitialDropdowns(config), InitialRanges(config)))
  {
  }

  /** Fail-closed: under an active dropdown, an item that lacks the
      attribute or carries it empty is hidden, whatever is selected. */
  lemma MissingValueFailsDropdown(config: map<string, AttrConfig>, id: string, selected: seq<string>, item: Item)
    requires DropdownActive(selected)
    requires id !in config || config[id].attribute !in item.attrs || item.attrs[config[id].attribute] == ""
    ensures !DropdownPasses(config, id, selected, item)
  {
  }

  /** Fail-closed: under an active range, an item whose value is missing or
      does not parse is hidden. */
  lemma UnparsedValueFailsRange(parse: string -> Option<real>, config: map<string, AttrConfig>, id: string, b: Bounds, item: Item)
    requires id in config && RangeActive(config[id].kind, b)
    requires config[id].attribute !in item.attrs || parse(item.attrs[config[id].attribute]).None?
    ensures !RangePasses(parse, config, id, b, item)
  {
  }

  /** Every option a dropdown offers selects the items it came from: the
      options are the values themselves, untrimmed, and so is the test. */
  lemma {:induction false} OfferedOptionKeepsItsItem(parse: string -> Option<real>, items: seq<Item>, prefix: string, id: string,
                                                     i: nat, v: string)
    requires ConfigFor(parse, items, prefix, id).kind.DropdownKind?
    requires HasValue(items, i, AttributeName(prefix, id), v)
    ensures v in ConfigFor(parse, items, prefix, id).kind.options
    ensures DropdownPasses(map[id := ConfigFor(parse, items, prefix, id)], id, [v], items[i])
  {
    var attribute := AttributeName(prefix, id);
    AttrValuesSpec(items, attribute);
    KindOfSpec(parse, AttrValues(items, attribute));
    assert v in AttrValues(items, attribute);
    assert v != "" by { assert !IsBlank(v); }
  }

  /** A range's domain spans exactly the values found: each item's value
      lies in it, and both ends are values of some item. */
  lemma {:induction false} RangeDomainSpansValues(parse: string -> Option<real>, items: seq<Item>, prefix: string, id: string)
    requires ConfigFor(parse, items, prefix, id).kind.RangeKind?
    ensures var attribute := AttributeName(prefix, id);
      var b := ConfigFor(parse, items, prefix, id).kind.domain;
      (forall i, v :: HasValue(items, i, attribute, v) ==> parse(v).Some? && InBounds(parse(v).value, b)) &&
      (exists i, v :: HasValue(items, i, attribute, v) && parse(v) == Some(b.lo)) &&
      (exists i, v :: HasValue(items, i, attribute, v) && parse(v) == Some(b.hi))
  {
    var attribute := AttributeName(prefix, id);
    var values := AttrValues(items, attribute);
    var b := ConfigFor(parse, items, prefix, id).kind.domain;
    AttrValuesSpec(items, attribute);
    KindOfSpec(parse, values);
    forall i, v | HasValue(items, i, attribute, v) ensures parse(v).Some? && InBounds(parse(v).value, b) {
      assert v in values;
    }
    var k :| 0 <= k < |values| && parse(values[k]) == Some(b.lo);
    assert values[k] in values;
    var m :| 0 <= m < |values| && parse(values[m]) == Some(b.hi);
    assert values[m] in values;
  }

  /** Whatever `f` picks out of the items: there is something, and all of
      it parses, exactly when the collected list is non-empty and parses. */
  lemma {:induction false} CollectAllParse<T>(parse: string -> Option<real>, f: T -> seq<string>, xs: seq<T>)
    ensures (|Collect(f, xs)| > 0 && forall k :: 0 <= k < |Collect(f, xs)| ==> parse(Collect(f, xs)[k]).Some?) <==>
      (exists i, v :: Contributes(f, xs, i, v)) && (forall i, v :: Contributes(f, xs, i, v) ==> parse(v).Some?)
  {
    var values := Collect(f, xs);
    CollectSpec(f, xs);
    if |values| > 0 && forall k :: 0 <= k < |values| ==> parse(values[k]).Some? {
      assert values[0] in values;
      forall i, v | Contributes(f, xs, i, v) ensures parse(v).Some? {
        assert v in values;
        var k :| 0 <= k < |values| && values[k] == v;
      }
    }
    if (exists i, v :: Contributes(f, xs, i, v)) && (forall i, v :: Contributes(f, xs, i, v) ==> parse(v).Some?) {
      var i, v :| Contributes(f, xs, i, v);
      assert v in values;
      forall k | 0 <= k < |values| ensures parse(values[k]).Some? {
        assert values[k] in values;
      }
    }
  }

  /** An id is detected as a range iff some item carries a value for it and
      every value carried parses. */
  lemma {:induction false} RangeIffAllParse(parse: string -> Option<real>, items: seq<Item>, prefix: string, id: string)
    ensures var attribute := AttributeName(prefix, id);
      ConfigFor(parse, items, prefix, id).kind.RangeKind? <==>
        (exists i, v :: HasValue(items, i, attribute, v)) && (forall i, v :: HasValue(items, i, attribute, v) ==> parse(v).Some?)
  {
    var attribute := AttributeName(prefix, id);
    var f := (item: Item) => Present(item, attribute);
    KindOfSpec(parse, AttrValues(items, attribute));
    CollectAllParse(parse, f, items);
    assert forall i, v :: HasValue(items, i, attribute, v) <==> Contributes(f, items, i, v);
  }

  // ---------------------------------------------------------------------
  // Resetting.

  /** The kind a configuration declares. */
  function AttrKind(c: AttrConfig): FilterKind {
    c.kind
  }

  /** `resetAllFilters` on the filter state. */
  function ResetState(config: map<string, AttrConfig>, st: FilterState, dropdownIds: seq<string>, rangeIds: seq<string>): FilterState
    requires forall id :: id in rangeIds ==> id in config
  {
    FilterState("", ClearDropdowns(st.dropdowns, dropdownIds), ResetRanges(st.ranges, config, AttrKind, rangeIds))
  }

  /** Filters without a widget cannot be changed from the page. */
  predicate OffWidgetAtRest(config: map<string, AttrConfig>, st: FilterState, dropdownIds: seq<string>, rangeIds: seq<string>) {
    (forall id :: id in st.dropdowns && id !in dropdownIds ==> st.dropdowns[id] == []) &&
    (forall id :: id in st.ranges && id in config && id !in rangeIds ==> config[id].kind == RangeKind(st.ranges[id]))
  }

  /** After `resetAllFilters` every item is shown. */
  lemma ResetShowsEveryItem(parse: string -> Option<real>, config: map<string, AttrConfig>, st: FilterState,
                            dropdownIds: seq<string>, rangeIds: seq<string>, item: Item)
    requires forall id :: id in rangeIds ==> id in config
    requires OffWidgetAtRest(config, st, dropdownIds, rangeIds)
    ensures AtRest(config, ResetState(config, st, dropdownIds, rangeIds))
    ensures ItemVisible(parse, config, ResetState(config, st, dropdownIds, rangeIds), item)
  {
    var r := ResetState(config, st, dropdownIds, rangeIds);
    assert !TextActive(r.text);
    AtRestShowsEveryItem(parse, config, r, item);
  }

  // ---------------------------------------------------------------------
  // The host object.

  class GenericFilter {
    /** `parseFloat`, as a partial parse. */
    const parse: string -> Option<real>
    const items: seq<Item>
    const prefix: string
    /** The ids of the dropdown and range widgets found in the container. */
    const dropdownIds: seq<string>
    const rangeIds: seq<string>
    const config: map<string, AttrConfig>
    var filters: FilterState
    /** Whether each item is displayed. */
    var shown: seq<bool>

    ghost predicate Valid()
      reads this
    {
      |shown| == |items|
    }

    /** Detects the filter ids from the items' attributes and configures
        each of them. */
    constructor (parse: string -> Option<real>, items: seq<Item>, declaredPrefix: Option<string>,
                 dropdownIds: seq<string>, rangeIds: seq<string>)
      ensures Valid()
      ensures this.parse == parse && this.items == items && prefix == DataPrefix(declaredPrefix)
      ensures this.dropdownIds == dropdownIds && this.rangeIds == rangeIds
      ensures config == Configs(parse, items, prefix, FilterIds(items, prefix))
      ensures filters == FilterState("", InitialDropdowns(config), InitialRanges(config))
      ensures forall i :: 0 <= i < |shown| ==> shown[i]
    {
      var p := DataPrefix(declaredPrefix);
      var ids := FilterIds(items, p);
      var c: map<string, AttrConfig> := map[];
      var dropdowns: map<string, seq<string>> := map[];
      var ranges: map<string, Bounds> := map[];
      var remaining := ids;
      while remaining != {}
        invariant remaining <= ids
        invariant c == Configs(parse, items, p, ids - remaining)
        invariant dropdowns == InitialDropdowns(c) && ranges == InitialRanges(c)
        decreases |remaining|
      {
        var id :| id in remaining;
        var attribute := AttributeName(p, id);
        var kind := KindOf(parse, AttrValues(items, attribute));
        ConfigsAdding(parse, items, p, ids - remaining, id);
        assert id !in c;
        InitialStateAdding(c, id, AttrConfig(kind, attribute));
        assert ids - (remaining - {id}) == (ids - remaining) + {id};
        c := c[id := AttrConfig(kind, attribute)];
        if kind.RangeKind? {
          ranges := ranges[id := kind.domain];
        } else {
          dropdowns := dropdowns[id := []];
        }
        remaining := remaining - {id};
      }
      this.parse := parse;
      this.items := items;
      prefix := p;
      this.dropdownIds := dropdownIds;
      this.rangeIds := rangeIds;
      config := c;
      filters := FilterState("", dropdowns, ranges);
      shown := seq(|items|, _ => true);
    }

    /** Shows exactly the items that pass every active filter and returns
        how many are shown. */
    method ApplyAllFilters() returns (visibleCount: nat)
      requires Valid()
      modifies this`shown
      ensures Valid()
      ensures shown == VisibleItems(parse, config, filters, items)
      ensures visibleCount == CountTrue(shown)
    {
      visibleCount := Display(ItemTest(parse, config, filters));
    }

    /** Displays each item as `visible` says and counts those shown. */
    method Display(visible: Item -> bool) returns (count: nat)
      requires Valid()
      modifies this`shown
      ensures Valid()
      ensures shown == Mask(visible, items)
      ensures count == CountTrue(shown)
    {
      ghost var target := Mask(visible, items);
      var i := 0;
      count := 0;
      while i < |items|
        invariant 0 <= i <= |items| && |shown| == |items|
        invariant forall k :: 0 <= k < i ==> shown[k] == target[k]
        invariant count == CountTrue(target[..i])
      {
        var v := visible(items[i]);
        shown := shown[i := v];
        CountTruePrefix(target, i);
        if v {
          count := count + 1;
        }
        i := i + 1;
      }
      assert shown == target == target[..i];
    }

    method SetText(text: string)
      requires Valid()
      modifies this
      ensures Valid() && filters == old(filters).(text := text)
      ensures shown == VisibleItems(parse, config, filters, items)
    {
      filters := filters.(text := text);
      var _ := ApplyAllFilters();
    }

    /** The checked values of a dropdown widget become its selection. */
    method UpdateDropdownFilter(id: string, selected: seq<string>)
      requires Valid() && id in dropdownIds
      modifies this
      ensures Valid() && filters == old(filters).(dropdowns := old(filters).dropdowns[id := selected])
      ensures shown == VisibleItems(parse, config, filters, items)
    {
      filters := filters.(dropdowns := filters.dropdowns[id := selected]);
      var _ := ApplyAllFilters();
    }

    /** A `rangechange` from the slider of a configured range widget. */
    method OnSliderChange(id: string, lo: real, hi: real)
      requires Valid() && id in rangeIds && id in config
      modifies this
      ensures Valid() && filters == old(filters).(ranges := old(filters).ranges[id := Bounds(lo, hi)])
      ensures shown == VisibleItems(parse, config, filters, items)
    {
      filters := filters.(ranges := filters.ranges[id := Bounds(lo, hi)]);
      var _ := ApplyAllFilters();
    }

    /** Typing in a range's min or max input: each parsed value, or the
        domain end when it is missing or zero. */
    method OnRangeInput(id: string, minParsed: Option<real>, maxParsed: Option<real>)
      requires Valid() && id in rangeIds && id in config && config[id].kind.RangeKind?
      modifies this
      ensures Valid()
      ensures filters == old(filters).(ranges := old(filters).ranges[id :=
        Bounds(OrDefault(minParsed, config[id].kind.domain.lo), OrDefault(maxParsed, config[id].kind.domain.hi))])
      ensures shown == VisibleItems(parse, config, filters, items)
    {
      var domain := config[id].kind.domain;
      var lo := OrDefault(minParsed, domain.lo);
      var hi := OrDefault(maxParsed, domain.hi);
      filters := filters.(ranges := filters.ranges[id := Bounds(lo, hi)]);
      var _ := ApplyAllFilters();
    }

    method ResetRangeFilter(id: string)
      requires Valid() && id in config
      modifies this
      ensures Valid() && filters == old(filters).(ranges := ResetRange(old(filters).ranges, config[id].kind, id))
      ensures shown == VisibleItems(parse, config, filters, items)
    {
      if config[id].kind.RangeKind? {
        filters := filters.(ranges := filters.ranges[id := config[id].kind.domain]);
      } else {
        filters := filters.(ranges := filters.ranges - {id});
      }
      var _ := ApplyAllFilters();
    }

    /** Clears the text, then every dropdown widget, then every range
        widget, one at a time. */
    method ResetAllFilters()
      requires Valid()
      requires forall id :: id in rangeIds ==> id in config
      modifies this
      ensures Valid() && filters == ResetState(config, old(filters), dropdownIds, rangeIds)
      ensures shown == VisibleItems(parse, config, filters, items)
    {
      ghost var st := filters;
      filters := filters.(text := "");
      var i := 0;
      while i < |dropdownIds|
        invariant 0 <= i <= |dropdownIds| && Valid()
        invariant filters == FilterState("", ClearDropdowns(st.dropdowns, dropdownIds[..i]), st.ranges)
      {
        assert dropdownIds[..i + 1][..i] == dropdownIds[..i];
        UpdateDropdownFilter(dropdownIds[i], []);
        i := i + 1;
      }
      assert dropdownIds[..i] == dropdownIds;
      i := 0;
      while i < |rangeIds|
        invariant 0 <= i <= |rangeIds| && Valid()
        invariant filters == FilterState("", ClearDropdowns(st.dropdowns, dropdownIds), ResetRanges(st.ranges, config, AttrKind, rangeIds[..i]))
      {
        assert rangeIds[..i + 1][..i] == rangeIds[..i];
        ResetRangeFilter(rangeIds[i]);
        i := i + 1;
      }
      assert rangeIds[..i] == rangeIds;
      var _ := ApplyAllFilters();
    }
  }
}
