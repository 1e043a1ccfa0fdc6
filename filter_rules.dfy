/** The rule logic shared by the table filter and the generic filter: the
    filter state, the kinds of filter an id can be configured as, when each
    kind of filter is active, and the numeric domain of a column of values. */
module FilterRules {
  import opened JsText

  /** The `{min, max}` pair of a range filter, both ends inclusive. */
  datatype Bounds = Bounds(lo: real, hi: real)

  /** What detection found for one filter id: the options offered by a
      dropdown, or the numeric domain of a range. */
  datatype FilterKind = DropdownKind(options: seq<string>) | RangeKind(domain: Bounds)

  /** `this.filters`: the search text, the selected values per dropdown id and
      the chosen bounds per range id. */
  datatype FilterState = FilterState(text: string, dropdowns: map<string, seq<string>>, ranges: map<string, Bounds>)

  /** The text filter applies only when `text && text.trim()` is truthy. */
  predicate TextActive(query: string) {
    !IsBlank(query)
  }

  /** Case-insensitive substring test of the (untrimmed) query against the
      item's text; an inactive query lets everything through. */
  predicate TextPasses(itemText: string, query: string) {
    !TextActive(query) || Includes(ToLower(itemText), ToLower(query))
  }

  /** A dropdown applies only when something is selected. */
  predicate DropdownActive(selected: seq<string>) {
    |selected| > 0
  }

  /** A range applies when its bounds differ from the configured domain. A
      configuration that is not a range has no domain to compare with, so
      the comparison always differs and the range applies. */
  predicate RangeActive(kind: FilterKind, b: Bounds) {
    !kind.RangeKind? || b != kind.domain
  }

  predicate InBounds(x: real, b: Bounds) {
    b.lo <= x <= b.hi
  }

  /** `values.map(parseFloat).filter(v => !isNaN(v))`: the numbers among the
      values, in order. */
  function Numbers(parse: string -> Option<real>, vs: seq<string>): (r: seq<real>)
    ensures |r| <= |vs|
    ensures |r| == |vs| <==> forall i :: 0 <= i < |vs| ==> parse(vs[i]).Some?
    ensures forall i :: 0 <= i < |vs| && parse(vs[i]).Some? ==> parse(vs[i]).value in r
    ensures forall x :: x in r ==> exists i :: 0 <= i < |vs| && parse(vs[i]) == Some(x)
  {
    if vs == [] then []
    else
      var rest := Numbers(parse, vs[1..]);
      assert forall x :: x in rest ==> exists i :: 0 <= i < |vs| && parse(vs[i]) == Some(x) by {
        forall x | x in rest ensures exists i :: 0 <= i < |vs| && parse(vs[i]) == Some(x) {
          var j :| 0 <= j < |vs[1..]| && parse(vs[1..][j]) == Some(x);
          assert parse(vs[j + 1]) == Some(x);
        }
      }
      assert forall i :: 1 <= i < |vs| && parse(vs[i]).Some? ==> parse(vs[i]).value in rest by {
        forall i | 1 <= i < |vs| && parse(vs[i]).Some? ensures parse(vs[i]).value in rest {
          assert vs[1..][i - 1] == vs[i];
        }
      }
      if parse(vs[0]).Some? then [parse(vs[0]).value] + rest
      else
        assert |rest| < |vs|;
        rest
  }

  /** `Math.min(...xs)` of a non-empty list: an element no larger than any. */
  function MinOf(xs: seq<real>): (r: real)
    requires |xs| > 0
    ensures r in xs && forall x :: x in xs ==> r <= x
  {
    if |xs| == 1 then xs[0]
    else
      var m := MinOf(xs[1..]);
      assert forall x :: x in xs ==> x == xs[0] || x in xs[1..];
      if xs[0] <= m then xs[0] else m
  }

  /** `Math.max(...xs)` of a non-empty list: an element no smaller than any. */
  function MaxOf(xs: seq<real>): (r: real)
    requires |xs| > 0
    ensures r in xs && forall x :: x in xs ==> x <= r
  {
    if |xs| == 1 then xs[0]
    else
      var m := MaxOf(xs[1..]);
      assert forall x :: x in xs ==> x == xs[0] || x in xs[1..];
      if xs[0] >= m then xs[0] else m
  }

  /** The smallest interval holding every number of a non-empty list. */
  function Span(xs: seq<real>): (b: Bounds)
    requires |xs| > 0
    ensures b.lo <= b.hi && b.lo in xs && b.hi in xs
    ensures forall x :: x in xs ==> InBounds(x, b)
  {
    Bounds(MinOf(xs), MaxOf(xs))
  }

  /** Outside a range's own domain the range is active; at the domain of a
      range configuration it is not. Bounds equal to the domain of the
      configuration are the only inactive ones. */
  lemma RangeActiveIffMoved(kind: FilterKind, b: Bounds)
    requires kind.RangeKind?
    ensures RangeActive(kind, b) <==> b.lo != kind.domain.lo || b.hi != kind.domain.hi
  {
  }

  /** An active text filter passes exactly the items whose lower-cased text
      contains the lower-cased query at some offset. */
  lemma {:induction false} TextPassesAt(itemText: string, query: string, k: nat)
    requires TextActive(query)
    requires k + |query| <= |itemText|
    requires ToLower(itemText[k..k + |query|]) == ToLower(query)
    ensures TextPasses(itemText, query)
  {
    assert ToLower(itemText)[k..k + |query|] == ToLower(itemText[k..k + |query|]);
    assert OccursAt(ToLower(itemText), ToLower(query), k);
  }

  /** The query is matched without trimming it: " a" does not match "ab",
      although its trimmed form would. */
  lemma QueryIsNotTrimmed()
    ensures TextActive(" a") && !TextPasses("ab", " a")
  {
    assert !IsSpace(" a"[1]);
    assert ToLower(" a") == " a";
    assert ToLower("ab") == "ab";
    assert "ab"[0..2][0] != " a"[0];
    assert !OccursAt("ab", " a", 0);
  }

  /** The number of items shown. */
  function CountTrue(s: seq<bool>): (n: nat)
    ensures n <= |s|
    ensures n == |s| <==> forall i :: 0 <= i < |s| ==> s[i]
  {
    if s == [] then 0
    else
      var init := s[..|s| - 1];
      assert forall i :: 0 <= i < |init| ==> init[i] == s[i];
      CountTrue(init) + if s[|s| - 1] then 1 else 0
  }

  /** Counting one more row adds one exactly when that row is shown. */
  lemma CountTrueAppend(s: seq<bool>, b: bool)
    ensures CountTrue(s + [b]) == CountTrue(s) + if b then 1 else 0
  {
    assert (s + [b])[..|s|] == s;
  }

  /** Whether each element of `xs` satisfies `p`. */
  function Mask<T>(p: T -> bool, xs: seq<T>): (r: seq<bool>)
    ensures |r| == |xs|
  {
    seq(|xs|, i requires 0 <= i < |xs| => p(xs[i]))
  }

  /** Counting one more element of `s`. */
  lemma CountTruePrefix(s: seq<bool>, i: nat)
    requires i < |s|
    ensures CountTrue(s[..i + 1]) == CountTrue(s[..i]) + if s[i] then 1 else 0
  {
    assert s[..i + 1] == s[..i] + [s[i]];
    CountTrueAppend(s[..i], s[i]);
  }

  /** The dropdown selections after clearing the widgets `ids` one by one. */
  function ClearDropdowns(m: map<string, seq<string>>, ids: seq<string>): (r: map<string, seq<string>>)
    ensures forall id :: id in r <==> id in m || id in ids
    ensures forall id :: id in r ==> r[id] == if id in ids then [] else m[id]
  {
    if ids == [] then m
    else
      var init := ids[..|ids| - 1];
      assert forall id :: id in ids <==> id in init || id == ids[|ids| - 1];
      ClearDropdowns(m, init)[ids[|ids| - 1] := []]
  }

  /** `resetRangeFilter` on the stored bounds: a range goes back to its
      domain. Under a dropdown configuration the source stores undefined
      bounds, which its range test never counts as active, so the model
      drops the entry. */
  function ResetRange(m: map<string, Bounds>, kind: FilterKind, id: string): map<string, Bounds> {
    if kind.RangeKind? then m[id := kind.domain] else m - {id}
  }

  /** The range bounds after resetting the range widgets `ids` one by one:
      each range goes back to the domain its configuration declares, and an
      id configured as a dropdown keeps no bounds. */
  function ResetRanges<C>(m: map<string, Bounds>, config: map<string, C>, kind: C -> FilterKind, ids: seq<string>): (r: map<string, Bounds>)
    requires forall id :: id in ids ==> id in config
    ensures forall id :: id in ids ==> (id in r <==> kind(config[id]).RangeKind?)
    ensures forall id :: id !in ids ==> (id in r <==> id in m)
    ensures forall id :: id in r ==> r[id] == if id in ids then kind(config[id]).domain else m[id]
  {
    if ids == [] then m
    else
      var init := ids[..|ids| - 1];
      var last := ids[|ids| - 1];
      assert forall id :: id in ids <==> id in init || id == last;
      ResetRange(ResetRanges(m, config, kind, init), kind(config[last]), last)
  }

  /** The concatenation of what `f` makes of each value, in order. */
  function Collect<T>(f: T -> seq<string>, vs: seq<T>): seq<string> {
    if vs == [] then [] else Collect(f, vs[..|vs| - 1]) + f(vs[|vs| - 1])
  }

  /** The `i`-th value contributes `v`. */
  predicate Contributes<T>(f: T -> seq<string>, vs: seq<T>, i: int, v: string) {
    0 <= i < |vs| && v in f(vs[i])
  }

  /** What is collected is exactly what some value contributes. */
  lemma {:induction false} CollectSpec<T>(f: T -> seq<string>, vs: seq<T>)
    ensures forall v :: v in Collect(f, vs) <==> exists i :: Contributes(f, vs, i, v)
  {
    if vs != [] {
      var init := vs[..|vs| - 1];
      CollectSpec(f, init);
      forall v | v in Collect(f, vs) ensures exists i :: Contributes(f, vs, i, v) {
        if v in Collect(f, init) {
          var i :| Contributes(f, init, i, v);
          assert Contributes(f, vs, i, v);
        } else {
          assert Contributes(f, vs, |vs| - 1, v);
        }
      }
      forall i, v | Contributes(f, vs, i, v) ensures v in Collect(f, vs) {
        if i < |init| {
          assert Contributes(f, init, i, v);
        }
      }
    }
  }

}
