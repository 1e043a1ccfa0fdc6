/** The smaller stateful widgets: the toaster's notification list, the
    navbar that hides while scrolling down, and the tab group that shows
    the content named by the checked radio input. */
module Widgets {
  import opened JsText

  // ---------------------------------------------------------------------
  // Toaster

  /** A notification: its id (the clock reading when it was added), its
      type and its content (None when the event carried none). */
  datatype Notification = Notification(id: int, kind: string, content: Option<string>)

  /** `e.type || 'info'`: a missing or empty type becomes "info". */
  function KindOrInfo(kind: Option<string>): (r: string)
    ensures kind.Some? && kind.value != "" ==> r == kind.value
    ensures kind.None? || kind.value == "" ==> r == "info"
  {
    if kind.Some? && kind.value != "" then kind.value else "info"
  }

  /** `notifications.filter(i => i.id !== id)`. */
  function Without(ns: seq<Notification>, id: int): seq<Notification> {
    if ns == [] then []
    else Without(ns[..|ns| - 1], id) + if ns[|ns| - 1].id == id then [] else [ns[|ns| - 1]]
  }

  /** Removing drops every notification carrying the id, so two added in
      the same millisecond go together, and keeps all others. */
  lemma {:induction false} WithoutSpec(ns: seq<Notification>, id: int)
    ensures forall n :: n in Without(ns, id) <==> n in ns && n.id != id
    ensures |Without(ns, id)| <= |ns|
  {
    if ns != [] {
      WithoutSpec(ns[..|ns| - 1], id);
      assert ns == ns[..|ns| - 1] + [ns[|ns| - 1]];
    }
  }

  /** Removing an id nobody else holds undoes adding it. */
  lemma {:induction false} RemoveUndoesAdd(ns: seq<Notification>, n: Notification)
    requires forall k :: 0 <= k < |ns| ==> ns[k].id != n.id
    ensures Without(ns + [n], n.id) == ns
  {
    assert (ns + [n])[..|ns|] == ns;
    WithoutUnmatched(ns, n.id);
  }

  /** Removing an id no notification holds changes nothing. */
  lemma {:induction false} WithoutUnmatched(ns: seq<Notification>, id: int)
    requires forall k :: 0 <= k < |ns| ==> ns[k].id != id
    ensures Without(ns, id) == ns
  {
    if ns != [] {
      var init := ns[..|ns| - 1];
      assert forall k :: 0 <= k < |init| ==> init[k] == ns[k];
      WithoutUnmatched(init, id);
      assert ns == init + [ns[|ns| - 1]];
    }
  }

  /** The `toaster` store. */
  class Toaster {
    var notifications: seq<Notification>

    constructor ()
      ensures notifications == []
    {
      notifications := [];
    }

    /** `add(e)`, with the clock reading `now` passed in. */
    method Add(now: int, kind: Option<string>, content: Option<string>)
      modifies this
      ensures notifications == old(notifications) + [Notification(now, KindOrInfo(kind), content)]
    {
      notifications := notifications + [Notification(now, KindOrInfo(kind), content)];
    }

    /** `remove(notification)`: by id. */
    method Remove(id: int)
      modifies this
      ensures notifications == Without(old(notifications), id)
    {
      notifications := Without(notifications, id);
    }
  }

  // ---------------------------------------------------------------------
  // Smart navbar

  const ScrollThreshold: real := 50.0
  const HideBelow: real := 200.0
  const MinDelta: real := 5.0

  function Abs(x: real): real {
    if x < 0.0 then -x else x
  }

  /** Whether the navbar is hidden after a scroll from `last` to `y`: moves
      of at most 5 pixels change nothing; otherwise scrolling down past 200
      hides it, and scrolling up or ending within the first 200 pixels
      shows it. */
  function HiddenAfterScroll(hidden: bool, last: real, y: real): (r: bool)
    ensures Abs(y - last) <= MinDelta ==> r == hidden
    ensures Abs(y - last) > MinDelta && y > last && y > HideBelow ==> r
    ensures Abs(y - last) > MinDelta && (y < last || y <= HideBelow) ==> !r
  {
    if Abs(y - last) > MinDelta then
      if y > last && y > HideBelow then true
      else if y < last || y <= HideBelow then false
      else hidden
    else hidden
  }

  /** A visible navbar only hides on a move of more than 5 pixels down to
      past 200; a hidden one only shows on a move of more than 5 pixels
      up or into the first 200 pixels. */
  lemma HiddenChangesOnlyOnLargeMoves(hidden: bool, last: real, y: real)
    ensures HiddenAfterScroll(hidden, last, y) != hidden <==>
      Abs(y - last) > MinDelta && (if hidden then y < last || y <= HideBelow else y > last && y > HideBelow)
  {
  }

  /** Scrolling back to the top in steps of at most 5 pixels leaves a
      hidden navbar hidden. */
  lemma {:induction false} SlowScrollKeepsHidden(ys: seq<real>, last: real)
    requires forall k :: 0 <= k < |ys| ==> Abs(ys[k] - (if k == 0 then last else ys[k - 1])) <= MinDelta
    ensures ScrollAll(true, last, ys)
  {
    if ys != [] {
      var init := ys[..|ys| - 1];
      assert forall k :: 0 <= k < |init| ==> init[k] == ys[k];
      SlowScrollKeepsHidden(init, last);
    }
  }

  /** The hidden flag after a series of scroll positions. */
  function ScrollAll(hidden: bool, last: real, ys: seq<real>): bool {
    if ys == [] then hidden
    else
      var prev := if |ys| == 1 then last else ys[|ys| - 2];
      HiddenAfterScroll(ScrollAll(hidden, last, ys[..|ys| - 1]), prev, ys[|ys| - 1])
  }

  /** The `smartNavbar` component. */
  class SmartNavbar {
    var hasScrolled: bool
    var isHidden: bool
    var isInitialized: bool
    var lastScrollY: real

    /** `init()` at scroll position `y`. */
    constructor (y: real)
      ensures hasScrolled == (y > ScrollThreshold) && isHidden == (y > HideBelow)
      ensures lastScrollY == y && !isInitialized
    {
      hasScrolled := y > ScrollThreshold;
      isHidden := y > HideBelow;
      lastScrollY := y;
      isInitialized := false;
    }

    /** The delayed callback that enables transitions. */
    method EnableTransitions()
      modifies this`isInitialized
      ensures isInitialized
    {
      isInitialized := true;
    }

    /** `handleScroll()` with the window now at `y`. */
    method HandleScroll(y: real)
      modifies this`hasScrolled, this`isHidden, this`lastScrollY
      ensures hasScrolled == (y > ScrollThreshold)
      ensures isHidden == HiddenAfterScroll(old(isHidden), old(lastScrollY), y)
      ensures lastScrollY == y
    {
      var delta := Abs(y - lastScrollY);
      hasScrolled := y > ScrollThreshold;
      if delta > MinDelta {
        if y > lastScrollY && y > HideBelow {
          isHidden := true;
        } else if y < lastScrollY || y <= HideBelow {
          isHidden := false;
        }
      }
      lastScrollY := y;
    }
  }

  // ---------------------------------------------------------------------
  // Tabs

  /** `id.split('-')` and its last part: the text after the last hyphen, or
      the whole id when it has none. */
  function TabName(id: string): string {
    if id == [] || id[|id| - 1] == '-' then []
    else TabName(id[..|id| - 1]) + [id[|id| - 1]]
  }

  /** The tab name is the longest hyphen-free suffix of the id. */
  lemma {:induction false} TabNameSpec(id: string)
    ensures var r := TabName(id);
      && |r| <= |id| && r == id[|id| - |r|..]
      && '-' !in r
      && (|r| < |id| ==> id[|id| - |r| - 1] == '-')
  {
    if id != [] && id[|id| - 1] != '-' {
      var init, c := id[..|id| - 1], id[|id| - 1];
      TabNameSpec(init);
      var r := TabName(init);
      assert TabName(id) == r + [c];
      assert id[|id| - |r| - 1..] == r + [c] by {
        assert id[|id| - |r| - 1..] == init[|init| - |r|..] + [c];
      }
      assert '-' !in r + [c];
      if |r| < |init| {
        assert id[|id| - |r| - 2] == init[|init| - |r| - 1];
      }
    }
  }

  /** For ids of the form `tab-<group>-<tab>`, the tab name is recovered
      exactly when it holds no hyphen. */
  lemma {:induction false} TabNameOfId(group: string, name: string)
    ensures TabName("tab-" + group + "-" + name) == name <==> '-' !in name
  {
    var id := "tab-" + group + "-" + name;
    TabNameSpec(id);
    if '-' !in name {
      TabNameSuffix(id, name);
    }
  }

  /** A hyphen-free suffix right after a hyphen is the tab name. */
  lemma {:induction false} TabNameSuffix(id: string, name: string)
    requires '-' !in name && |name| < |id|
    requires id[|id| - |name|..] == name && id[|id| - |name| - 1] == '-'
    ensures TabName(id) == name
  {
    if name != [] {
      var init := id[..|id| - 1];
      assert init[|init| - |name[..|name| - 1]|..] == name[..|name| - 1];
      assert id[|id| - 1] == name[|name| - 1];
      TabNameSuffix(init, name[..|name| - 1]);
    }
  }

  /** The index of the first content whose `data-tab` is `name`. */
  function FirstWithTab(tabs: seq<string>, name: string): (r: Option<nat>)
    ensures r.Some? ==> r.value < |tabs| && tabs[r.value] == name
    ensures r.Some? ==> forall k :: 0 <= k < r.value ==> tabs[k] != name
    ensures r.None? ==> name !in tabs
  {
    if tabs == [] then None
    else if tabs[0] == name then Some(0)
    else
      var rest := FirstWithTab(tabs[1..], name);
      if rest.Some? then Some(rest.value + 1) else None
  }

  /** Exactly the panel `t` is displayed, or none when `t` is None. */
  predicate ShowsOnly(displayed: seq<bool>, t: Option<nat>) {
    forall k :: 0 <= k < |displayed| ==> displayed[k] == (t == Some(k))
  }

  /** A tab group: the `data-tab` of each content panel and whether each is
      displayed. */
  class TabGroup {
    const tabs: seq<string>
    var displayed: seq<bool>

    constructor (tabs: seq<string>)
      ensures this.tabs == tabs && |displayed| == |tabs|
      ensures forall k :: 0 <= k < |displayed| ==> !displayed[k]
    {
      this.tabs := tabs;
      displayed := seq(|tabs|, _ => false);
    }

    /** `showTabContent` for the radio input `inputId`: every panel is
        hidden, then the first panel named by the id's tab name is shown. */
    method ShowTabContent(inputId: string)
      requires |displayed| == |tabs|
      modifies this`displayed
      ensures |displayed| == |tabs|
      ensures ShowsOnly(displayed, FirstWithTab(tabs, TabName(inputId)))
    {
      var i := 0;
      while i < |displayed|
        invariant 0 <= i <= |displayed| == |tabs|
        invariant forall k :: 0 <= k < i ==> !displayed[k]
      {
        displayed := displayed[i := false];
        i := i + 1;
      }
      var target := FirstWithTab(tabs, TabName(inputId));
      if target.Some? {
        displayed := displayed[target.value := true];
      }
    }
  }
}
