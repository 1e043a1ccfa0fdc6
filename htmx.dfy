/** The HTMX response helpers: actions (toast, modal open/close, custom
    triggers, HTML content) combined into one response whose status, body,
    `HX-Trigger` and `HX-Reswap` headers are derived from the actions. */
module Htmx {
  import opened JsText

  // ---------------------------------------------------------------------
  // JSON values and insertion-ordered dictionaries

  datatype Json = JStr(s: string) | JBool(b: bool) | JObj(fields: seq<(string, Json)>)

  /** A Python dict: key/value pairs in insertion order. */
  type Dict = seq<(string, Json)>

  /** `d.get(k)`: the value of the first entry with key `k`. */
  function Lookup(d: Dict, k: string): Option<Json> {
    if d == [] then None else if d[0].0 == k then Some(d[0].1) else Lookup(d[1..], k)
  }

  /** `d[k] = v`: replaces the value of an existing key in place, or adds
      the key at the end. */
  function Put(d: Dict, k: string, v: Json): (r: Dict)
    ensures r != []
  {
    if d == [] then [(k, v)]
    else if d[0].0 == k then [(k, v)] + d[1..]
    else [d[0]] + Put(d[1..], k, v)
  }

  function Keys(d: Dict): seq<string> {
    if d == [] then [] else [d[0].0] + Keys(d[1..])
  }

  /** After `d[k] = v`, `k` maps to `v` and every other key keeps its value. */
  lemma {:induction false} PutLookup(d: Dict, k: string, v: Json, j: string)
    ensures Lookup(Put(d, k, v), j) == if j == k then Some(v) else Lookup(d, j)
  {
    if d != [] && d[0].0 != k {
      PutLookup(d[1..], k, v, j);
    }
  }

  /** Setting a key keeps the order of the existing keys and adds a new one
      last. */
  lemma {:induction false} PutKeys(d: Dict, k: string, v: Json)
    ensures Keys(Put(d, k, v)) == if k in Keys(d) then Keys(d) else Keys(d) + [k]
  {
    if d != [] && d[0].0 != k {
      PutKeys(d[1..], k, v);
    }
  }

  /** The value of the last entry of `e` with key `k`. */
  function LastLookup(e: Dict, k: string): Option<Json> {
    if e == [] then None
    else if e[|e| - 1].0 == k then Some(e[|e| - 1].1)
    else LastLookup(e[..|e| - 1], k)
  }

  /** `d.update(e)`, or `{**d, **e}`: the entries of `e` set one by one. */
  function Merge(d: Dict, e: Dict): (r: Dict)
    ensures r == [] <==> d == [] && e == []
  {
    if e == [] then d else Put(Merge(d, e[..|e| - 1]), e[|e| - 1].0, e[|e| - 1].1)
  }

  /** After an update, a key holds the value `e` gives it last, or else its
      value in `d`. */
  lemma {:induction false} MergeLookup(d: Dict, e: Dict, j: string)
    ensures Lookup(Merge(d, e), j) == if LastLookup(e, j).Some? then LastLookup(e, j) else Lookup(d, j)
  {
    if e != [] {
      MergeLookup(d, e[..|e| - 1], j);
      PutLookup(Merge(d, e[..|e| - 1]), e[|e| - 1].0, e[|e| - 1].1, j);
    }
  }

  // ---------------------------------------------------------------------
  // Actions

  /** The argument of `TriggerAction`: one event name or a list of them. */
  datatype TriggerArg = OneTrigger(name: string) | TriggerList(names: seq<string>)

  /** The actions. `PlainAction` is the base class, which yields nothing;
      a content action holds its HTML, already rendered when it came from a
      template. */
  datatype Action =
    | PlainAction
    | ContentAction(html: string)
    | TriggerAction(names: seq<string>)
    | ToastAction(content: Json, variant: string, extra: Dict)
    | ModalCloseAction(modalId: Json, resetForm: bool)
    | ModalOpenAction(modalId: Json)

  /** `TriggerAction(triggers)`: a single name becomes a one-element list. */
  function MakeTrigger(arg: TriggerArg): (a: Action)
    ensures a.TriggerAction?
    ensures arg.OneTrigger? ==> a.names == [arg.name]
    ensures arg.TriggerList? ==> a.names == arg.names
  {
    match arg
    case OneTrigger(name) => TriggerAction([name])
    case TriggerList(names) => TriggerAction(names)
  }

  datatype ToastKind = Success | Error | Warning | Info

  /** The fixed variant of each toast subclass. */
  function ToastOf(kind: ToastKind, content: Json, extra: Dict): (a: Action)
    ensures a.ToastAction? && a.content == content && a.extra == extra
    ensures a.variant == match kind case Success => "success" case Error => "error"
                                    case Warning => "warning" case Info => "info"
  {
    var variant := match kind case Success => "success" case Error => "error"
                              case Warning => "warning" case Info => "info";
    ToastAction(content, variant, extra)
  }

  /** The toast payload `{"content": ..., "type": variant, **extra}`. */
  function ToastPayload(content: Json, variant: string, extra: Dict): Dict {
    Merge([("content", content), ("type", JStr(variant))], extra)
  }

  /** `get_trigger_data()`. */
  function TriggerData(a: Action): Dict {
    match a
    case ToastAction(content, variant, extra) => [("toast", JObj(ToastPayload(content, variant, extra)))]
    case ModalCloseAction(id, reset) =>
      [("modalClose", JObj([("id", id)] + if reset then [("resetForm", JBool(true))] else []))]
    case ModalOpenAction(id) => [("modalOpen", JObj([("id", id)]))]
    case _ => []
  }

  /** `get_raw_triggers()`. */
  function RawTriggers(a: Action): seq<string> {
    if a.TriggerAction? then a.names else []
  }

  /** `get_content()`. */
  function ContentOf(a: Action): Option<string> {
    if a.ContentAction? then Some(a.html) else None
  }

  /** The toast's `type` is its variant unless an extra keyword argument
      named `type` overrides it; the same holds for `content`; every other
      extra key is carried as given. */
  lemma ToastPayloadFields(content: Json, variant: string, extra: Dict, k: string)
    ensures Lookup(ToastPayload(content, variant, extra), k) ==
      if LastLookup(extra, k).Some? then LastLookup(extra, k)
      else if k == "content" then Some(content)
      else if k == "type" then Some(JStr(variant))
      else None
  {
    var base := [("content", content), ("type", JStr(variant))];
    MergeLookup(base, extra, k);
    assert "content" != "type" by { assert "content"[0] != "type"[0]; }
    assert base[1..] == [("type", JStr(variant))];
    assert base[1..][1..] == [];
    if k == "content" {
      assert Lookup(base, k) == Some(content);
    } else if k == "type" {
      assert Lookup(base, k) == Lookup(base[1..], k) == Some(JStr(variant));
    } else {
      assert Lookup(base, k) == Lookup(base[1..], k) == Lookup(base[1..][1..], k) == None;
    }
  }

  /** `resetForm` is in the modal-close payload exactly when it was asked
      for, and the payload always names the modal. */
  lemma ModalClosePayload(id: Json, reset: bool)
    ensures var p := TriggerData(ModalCloseAction(id, reset));
      && |p| == 1 && p[0].0 == "modalClose" && p[0].1.JObj?
      && Lookup(p[0].1.fields, "id") == Some(id)
      && (Lookup(p[0].1.fields, "resetForm").Some? <==> reset)
  {
  }

  // ---------------------------------------------------------------------
  // What a list of actions yields

  /** `_collect_content()`: the first content in action order. */
  function FirstContent(actions: seq<Action>): Option<string> {
    if actions == [] then None
    else if ContentOf(actions[0]).Some? then ContentOf(actions[0])
    else FirstContent(actions[1..])
  }

  /** Some action yields trigger data or raw triggers. */
  predicate HasTriggers(actions: seq<Action>) {
    exists i :: 0 <= i < |actions| && Triggers(actions[i])
  }

  predicate Triggers(a: Action) {
    TriggerData(a) != [] || RawTriggers(a) != []
  }

  /** The trigger data of all actions merged in order. */
  function MergedData(actions: seq<Action>): Dict {
    if actions == [] then []
    else
      var data := TriggerData(actions[|actions| - 1]);
      var before := MergedData(actions[..|actions| - 1]);
      if data != [] then Merge(before, data) else before
  }

  /** All raw trigger names in order, duplicates kept. */
  function AllRaw(actions: seq<Action>): seq<string> {
    if actions == [] then [] else AllRaw(actions[..|actions| - 1]) + RawTriggers(actions[|actions| - 1])
  }

  /** The raw names added to the data with an empty payload, unless the key
      is already there. */
  function WithRaw(d: Dict, names: seq<string>): Dict {
    if names == [] then d
    else
      var before := WithRaw(d, names[..|names| - 1]);
      var name := names[|names| - 1];
      if Lookup(before, name).Some? then before else Put(before, name, JObj([]))
  }

  /** `", ".join(names)`. */
  function Join(names: seq<string>): string {
    if names == [] then ""
    else if |names| == 1 then names[0]
    else Join(names[..|names| - 1]) + ", " + names[|names| - 1]
  }

  /** The `HX-Trigger` header: a JSON object when any action has data, the
      joined names when there are only raw triggers. */
  datatype TriggerHeader = JsonHeader(data: Dict) | ListHeader(value: string)

  /** The header `_update_trigger_header` sets for these actions, None when
      it sets none. */
  function HeaderOf(actions: seq<Action>): Option<TriggerHeader> {
    if actions == [] then None
    else if MergedData(actions) != [] then Some(JsonHeader(WithRaw(MergedData(actions), AllRaw(actions))))
    else if AllRaw(actions) != [] then Some(ListHeader(Join(AllRaw(actions))))
    else None
  }

  /** The value `k` has in the trigger data of the last action that gives it
      one. */
  function LastData(actions: seq<Action>, k: string): Option<Json> {
    if actions == [] then None
    else if LastLookup(TriggerData(actions[|actions| - 1]), k).Some? then LastLookup(TriggerData(actions[|actions| - 1]), k)
    else LastData(actions[..|actions| - 1], k)
  }

  /** Merging keeps, for every key, the value of the last action carrying
      it: later actions override earlier ones. */
  lemma {:induction false} MergedDataLookup(actions: seq<Action>, k: string)
    ensures Lookup(MergedData(actions), k) == LastData(actions, k)
  {
    if actions != [] {
      var init := actions[..|actions| - 1];
      MergedDataLookup(init, k);
      MergeLookup(MergedData(init), TriggerData(actions[|actions| - 1]), k);
    }
  }

  /** Two toasts in one response leave only the second in the header. */
  lemma TwoToastsKeepLast(first: Action, second: Action)
    requires first.ToastAction? && second.ToastAction?
    ensures MergedData([first, second]) == [("toast", TriggerData(second)[0].1)]
  {
    var pf, ps := TriggerData(first)[0].1, TriggerData(second)[0].1;
    assert [first, second][..1] == [first];
    assert [first][..0] == [];
    assert MergedData([first]) == Merge([], [("toast", pf)]) == [("toast", pf)];
    assert Merge([("toast", pf)], [("toast", ps)]) == Put([("toast", pf)], "toast", ps);
  }

  /** A raw name maps to an empty payload unless some data already uses it
      as a key; data keys keep their values. */
  lemma {:induction false} WithRawLookup(d: Dict, names: seq<string>, k: string)
    ensures Lookup(WithRaw(d, names), k) ==
      if Lookup(d, k).Some? then Lookup(d, k) else if k in names then Some(JObj([])) else None
  {
    if names != [] {
      var init := names[..|names| - 1];
      var name := names[|names| - 1];
      WithRawLookup(d, init, k);
      assert k in names <==> k in init || k == name;
      var before := WithRaw(d, init);
      if Lookup(before, name).None? {
        PutLookup(before, name, JObj([]), k);
      }
    }
  }

  lemma {:induction false} MergedDataEmpty(actions: seq<Action>)
    ensures MergedData(actions) == [] <==> forall i :: 0 <= i < |actions| ==> TriggerData(actions[i]) == []
  {
    if actions != [] {
      var init := actions[..|actions| - 1];
      MergedDataEmpty(init);
      assert forall i :: 0 <= i < |init| ==> init[i] == actions[i];
    }
  }

  lemma {:induction false} AllRawEmpty(actions: seq<Action>)
    ensures AllRaw(actions) == [] <==> forall i :: 0 <= i < |actions| ==> RawTriggers(actions[i]) == []
  {
    if actions != [] {
      var init := actions[..|actions| - 1];
      AllRawEmpty(init);
      assert forall i :: 0 <= i < |init| ==> init[i] == actions[i];
    }
  }

  /** A header is set exactly when some action yields a trigger. */
  lemma HeaderIffTriggers(actions: seq<Action>)
    ensures HeaderOf(actions).Some? <==> HasTriggers(actions)
  {
    MergedDataEmpty(actions);
    AllRawEmpty(actions);
    if HasTriggers(actions) {
      var i :| 0 <= i < |actions| && Triggers(actions[i]);
    }
  }

  /** Appending an action never removes a trigger or a content. */
  lemma AppendKeeps(actions: seq<Action>, a: Action)
    ensures HasTriggers(actions + [a]) <==> HasTriggers(actions) || Triggers(a)
    ensures FirstContent(actions + [a]) == if FirstContent(actions).Some? then FirstContent(actions) else ContentOf(a)
  {
    if HasTriggers(actions) {
      var i :| 0 <= i < |actions| && Triggers(actions[i]);
      assert (actions + [a])[i] == actions[i];
    }
    if HasTriggers(actions + [a]) {
      var i :| 0 <= i < |actions + [a]| && Triggers((actions + [a])[i]);
      if i < |actions| {
        assert actions[i] == (actions + [a])[i];
      }
    }
    assert (actions + [a])[|actions|] == a;
    FirstContentAppend(actions, a);
  }

  lemma {:induction false} FirstContentAppend(actions: seq<Action>, a: Action)
    ensures FirstContent(actions + [a]) == if FirstContent(actions).Some? then FirstContent(actions) else ContentOf(a)
  {
    if actions != [] {
      assert (actions + [a])[1..] == actions[1..] + [a];
      FirstContentAppend(actions[1..], a);
    }
  }

  /** Once the actions set a header, adding one never unsets it. */
  lemma HeaderMonotone(actions: seq<Action>, a: Action)
    ensures HeaderOf(actions).Some? ==> HeaderOf(actions + [a]).Some?
  {
    AppendKeeps(actions, a);
    HeaderIffTriggers(actions);
    HeaderIffTriggers(actions + [a]);
  }

  // ---------------------------------------------------------------------
  // Responses

  /** What a response is made of: its actions, status code, body, the
      `HX-Trigger` header and whether `HX-Reswap: none` is set. */
  datatype ResponseState = ResponseState(actions: seq<Action>, status: int, body: string,
                                         trigger: Option<TriggerHeader>, reswapNone: bool)

  /** `HtmxResponse(actions, status)`: a 204 becomes 200 when there is
      content or a trigger; the body is the first content or ""; without
      content the swap is turned off. */
  function InitState(actions: seq<Action>, status: int): ResponseState {
    var content := FirstContent(actions);
    ResponseState(actions,
                  if status == 204 && (content.Some? || HasTriggers(actions)) then 200 else status,
                  if content.Some? then content.value else "",
                  HeaderOf(actions),
                  content.None?)
  }

  /** The state agrees with its actions: the header is theirs, the swap is
      off exactly when no action has content, and a 204 carries neither
      content nor trigger. */
  predicate Consistent(s: ResponseState) {
    && s.trigger == HeaderOf(s.actions)
    && (s.reswapNone <==> FirstContent(s.actions).None?)
    && (s.status == 204 ==> FirstContent(s.actions).None? && !HasTriggers(s.actions))
  }

  /** Every freshly built response is consistent. */
  lemma InitConsistent(actions: seq<Action>, status: int)
    ensures Consistent(InitState(actions, status))
  {
  }

  /** `add(action)` as written: the header is recomputed, and content from
      the action replaces the body and upgrades a 204, but `HX-Reswap: none`
      stays and a 204 stays when only a trigger is added. */
  function AddStateAsWritten(s: ResponseState, a: Action): ResponseState {
    var actions := s.actions + [a];
    var header := if HeaderOf(actions).Some? then HeaderOf(actions) else s.trigger;
    if ContentOf(a).Some? then
      s.(actions := actions, trigger := header, body := ContentOf(a).value,
         status := if s.status == 204 then 200 else s.status)
    else s.(actions := actions, trigger := header)
  }

  /** `add(action)`, corrected: content also turns the swap back on, and a
      trigger also upgrades a 204, as the constructor does. */
  function AddState(s: ResponseState, a: Action): ResponseState {
    var actions := s.actions + [a];
    var header := if HeaderOf(actions).Some? then HeaderOf(actions) else s.trigger;
    var status := if s.status == 204 && (ContentOf(a).Some? || HeaderOf(actions).Some?) then 200 else s.status;
    if ContentOf(a).Some? then
      s.(actions := actions, trigger := header, body := ContentOf(a).value, status := status, reswapNone := false)
    else s.(actions := actions, trigger := header, status := status)
  }

  /** Adding an action keeps a response consistent, and the added content,
      if any, becomes the body (last wins). */
  lemma AddPreservesConsistent(s: ResponseState, a: Action)
    requires Consistent(s)
    ensures Consistent(AddState(s, a))
    ensures ContentOf(a).Some? ==> AddState(s, a).body == ContentOf(a).value
    ensures ContentOf(a).None? ==> AddState(s, a).body == s.body
  {
    AppendKeeps(s.actions, a);
    HeaderIffTriggers(s.actions);
    HeaderIffTriggers(s.actions + [a]);
  }

  /** As written, adding content to a response that had none leaves
      `HX-Reswap: none` on it, so HTMX discards the new body. */
  lemma AddKeepsReswapNoneAsWritten()
    ensures var s := AddStateAsWritten(InitState([ToastAction(JStr("ok"), "info", [])], 204), ContentAction("<tr></tr>"));
      && s.body == "<tr></tr>" && s.reswapNone
      && !Consistent(s)
  {
    var s := AddStateAsWritten(InitState([ToastAction(JStr("ok"), "info", [])], 204), ContentAction("<tr></tr>"));
    assert [ToastAction(JStr("ok"), "info", [])][1..] == [];
    assert s.actions[1..] == [ContentAction("<tr></tr>")];
    assert FirstContent(s.actions).Some?;
  }

  /** As written, adding a trigger to an empty 204 response sets the
      `HX-Trigger` header but keeps the 204 the constructor avoids. */
  lemma AddTriggerKeeps204AsWritten()
    ensures var s := AddStateAsWritten(InitState([], 204), TriggerAction(["refresh"]));
      && s.status == 204 && s.trigger.Some?
      && !Consistent(s)
  {
    var s := AddStateAsWritten(InitState([], 204), TriggerAction(["refresh"]));
    assert s.actions == [TriggerAction(["refresh"])];
    assert s.actions[..0] == [];
    assert Triggers(s.actions[0]);
  }

  /** The constructor keeps the first content, `add` the last: the same two
      contents give different bodies. */
  lemma FirstVersusLastContent()
    ensures InitState([ContentAction("a"), ContentAction("b")], 204).body == "a"
    ensures AddState(InitState([ContentAction("a")], 204), ContentAction("b")).body == "b"
  {
  }

  /** `Content("")` empties the target: status 200, an empty body, and the
      swap left on. */
  lemma EmptyContentSwaps()
    ensures InitState([ContentAction("")], 204) == ResponseState([ContentAction("")], 200, "", None, false)
  {
    assert !HasTriggers([ContentAction("")]) by {
      assert forall i :: 0 <= i < 1 ==> !Triggers([ContentAction("")][i]);
    }
  }

  /** A response with only raw triggers sets them as a comma-separated
      list, keeping duplicates. */
  lemma RawOnlyHeader(name: string)
    ensures HeaderOf([TriggerAction([name, name])]) == Some(ListHeader(name + ", " + name))
  {
    var acts := [TriggerAction([name, name])];
    assert acts[..0] == [];
    assert MergedData(acts) == [];
    assert AllRaw(acts) == [name, name];
    assert [name, name][..1] == [name];
    assert Join([name, name]) == Join([name]) + ", " + name;
  }

  // ---------------------------------------------------------------------
  // The `+` operator

  /** An operand of `+`: an action, a response (its actions and status
      code), or anything else. */
  datatype Operand = ActionOperand(action: Action) | ResponseOperand(actions: seq<Action>, status: int) | OtherOperand

  /** The outcome of `+`: the arguments of the new response, or a
      `TypeError`. */
  datatype Sum = Combined(actions: seq<Action>, status: int) | TypeError

  /** `HtmxAction.__add__`/`__radd__` and `HtmxResponse.__add__`. */
  function Plus(l: Operand, r: Operand): Sum {
    match l
    case ActionOperand(a) =>
      (match r
       case ActionOperand(b) => Combined([a, b], 204)
       case ResponseOperand(bs, _) => Combined([a] + bs, 204)
       case OtherOperand => TypeError)
    case ResponseOperand(as_, status) =>
      (match r
       case ActionOperand(b) => Combined(as_ + [b], status)
       case ResponseOperand(bs, _) => Combined(as_ + bs, status)
       case OtherOperand => TypeError)
    case OtherOperand => TypeError
  }

  function ActionsOf(x: Operand): seq<Action>
    requires !x.OtherOperand?
  {
    if x.ActionOperand? then [x.action] else x.actions
  }

  /** `+` concatenates the two action lists in order, keeping the status of
      a response on the left, and fails exactly when an operand is neither
      an action nor a response. */
  lemma PlusConcatenates(l: Operand, r: Operand)
    ensures Plus(l, r).TypeError? <==> l.OtherOperand? || r.OtherOperand?
    ensures Plus(l, r).Combined? ==> Plus(l, r).actions == ActionsOf(l) + ActionsOf(r)
    ensures Plus(l, r).Combined? ==> Plus(l, r).status == if l.ResponseOperand? then l.status else 204
  {
  }

  /** The response `+` builds, as an operand for the next `+`. */
  function Built(s: Sum): Operand {
    if s.TypeError? then OtherOperand
    else var st := InitState(s.actions, s.status); ResponseOperand(st.actions, st.status)
  }

  /** Grouping does not change which actions a chain of `+` collects. */
  lemma PlusAssociatesActions(x: Operand, y: Operand, z: Operand)
    requires !x.OtherOperand? && !y.OtherOperand? && !z.OtherOperand?
    ensures Plus(Built(Plus(x, y)), z).actions == Plus(x, Built(Plus(y, z))).actions
  {
    PlusConcatenates(x, y);
    PlusConcatenates(y, z);
    assert ActionsOf(x) + ActionsOf(y) + ActionsOf(z) == ActionsOf(x) + (ActionsOf(y) + ActionsOf(z));
  }

  // ---------------------------------------------------------------------
  // The response object

  /** `_collect_content()`. */
  method CollectContent(actions: seq<Action>) returns (content: Option<string>)
    ensures content == FirstContent(actions)
  {
    var i := 0;
    while i < |actions|
      invariant 0 <= i <= |actions|
      invariant FirstContent(actions) == FirstContent(actions[i..])
    {
      if ContentOf(actions[i]).Some? {
        return ContentOf(actions[i]);
      }
      assert actions[i..][1..] == actions[i + 1..];
      i := i + 1;
    }
    return None;
  }

  /** `_has_triggers()`. */
  method ComputeHasTriggers(actions: seq<Action>) returns (b: bool)
    ensures b == HasTriggers(actions)
  {
    var i := 0;
    while i < |actions|
      invariant 0 <= i <= |actions|
      invariant forall j :: 0 <= j < i ==> !Triggers(actions[j])
    {
      if TriggerData(actions[i]) != [] || RawTriggers(actions[i]) != [] {
        return true;
      }
      i := i + 1;
    }
    return false;
  }

  /** The first loop of `_update_trigger_header`: `trigger_data.update`
      with each action's non-empty data. */
  method MergeTriggerData(actions: seq<Action>) returns (data: Dict)
    ensures data == MergedData(actions)
  {
    data := [];
    var i := 0;
    while i < |actions|
      invariant 0 <= i <= |actions|
      invariant data == MergedData(actions[..i])
    {
      assert actions[..i + 1][..i] == actions[..i];
      var d := TriggerData(actions[i]);
      if d != [] {
        data := Merge(data, d);
      }
      i := i + 1;
    }
    assert actions[..|actions|] == actions;
  }

  /** The second loop: `raw_triggers.extend` with each action's names. */
  method CollectRawTriggers(actions: seq<Action>) returns (raw: seq<string>)
    ensures raw == AllRaw(actions)
  {
    raw := [];
    var i := 0;
    while i < |actions|
      invariant 0 <= i <= |actions|
      invariant raw == AllRaw(actions[..i])
    {
      assert actions[..i + 1][..i] == actions[..i];
      raw := raw + RawTriggers(actions[i]);
      i := i + 1;
    }
    assert actions[..|actions|] == actions;
  }

  /** The third loop: each raw name not yet a key gets an empty payload. */
  method AddRawTriggers(merged: Dict, raw: seq<string>) returns (data: Dict)
    ensures data == WithRaw(merged, raw)
  {
    data := merged;
    var j := 0;
    while j < |raw|
      invariant 0 <= j <= |raw|
      invariant data == WithRaw(merged, raw[..j])
    {
      assert raw[..j + 1][..j] == raw[..j];
      if Lookup(data, raw[j]).None? {
        data := Put(data, raw[j], JObj([]));
      }
      j := j + 1;
    }
    assert raw[..|raw|] == raw;
  }

  /** `HtmxResponse`: the actions and what they made of the response. */
  class HtmxResponse {
    var actions: seq<Action>
    var statusCode: int
    var body: string
    var trigger: Option<TriggerHeader>
    var reswapNone: bool

    function State(): ResponseState
      reads this
    {
      ResponseState(actions, statusCode, body, trigger, reswapNone)
    }

    predicate Valid()
      reads this
    {
      Consistent(State())
    }

    constructor (actions: seq<Action>, status: int)
      ensures State() == InitState(actions, status) && Valid()
    {
      this.actions := actions;
      var content := CollectContent(actions);
      var hasTriggers := ComputeHasTriggers(actions);
      statusCode := if status == 204 && (content.Some? || hasTriggers) then 200 else status;
      body := if content.Some? then content.value else "";
      trigger := None;
      reswapNone := false;
      new;
      UpdateTriggerHeader();
      if content.None? {
        reswapNone := true;
      }
      InitConsistent(actions, status);
    }

    /** `_update_trigger_header()`: merge the data, collect the raw names,
        then set the header when there is anything to set. */
    method UpdateTriggerHeader()
      modifies this`trigger
      ensures trigger == if HeaderOf(actions).Some? then HeaderOf(actions) else old(trigger)
    {
      if actions == [] {
        return;
      }
      var data := MergeTriggerData(actions);
      var raw := CollectRawTriggers(actions);
      if data != [] || raw != [] {
        if data != [] {
          data := AddRawTriggers(data, raw);
          trigger := Some(JsonHeader(data));
        } else {
          trigger := Some(ListHeader(Join(raw)));
        }
      }
    }

    /** `add(action)`, with the corrections of `AddState`. */
    method Add(a: Action)
      requires Valid()
      modifies this
      ensures State() == AddState(old(State()), a) && Valid()
    {
      AddPreservesConsistent(State(), a);
      HeaderMonotone(actions, a);
      actions := actions + [a];
      UpdateTriggerHeader();
      var content := ContentOf(a);
      if content.Some? {
        body := content.value;
        reswapNone := false;
      }
      if statusCode == 204 && (content.Some? || trigger.Some?) {
        statusCode := 200;
      }
    }
  }
}
