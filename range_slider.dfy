/** The two-handle range slider of components.js (class RangeSlider).

    Pointer geometry is abstracted: a drag or a click is given as the
    fraction of the track width at which the pointer is. Everything else
    (snapping, clamping, handle separation, which handle a click moves, the
    keyboard rules and when a `rangechange` event is emitted) is modelled. */
module RangeSliders {
  import opened JsText

  datatype Handle = MinHandle | MaxHandle

  /** The `key` of a keydown event, as far as the slider distinguishes it. */
  datatype Key = ArrowLeft | ArrowDown | ArrowRight | ArrowUp | Home | End | OtherKey(name: string)

  /** The detail of a `rangechange` event. */
  datatype RangeChange = RangeChange(min: real, max: real)

  /** The fields of a slider that its handlers read and write. */
  datatype SliderState = SliderState(
    min: real, max: real, step: real,
    valueMin: real, valueMax: real,
    isDragging: bool, currentHandle: Option<Handle>)
  {
    /** Both handles inside the bounds and in order. */
    predicate Ordered() {
      min <= valueMin <= valueMax <= max
    }

    /** The detail of the event this state would emit. */
    function Change(): RangeChange {
      RangeChange(valueMin, valueMax)
    }
  }

  function Max(a: real, b: real): real { if a >= b then a else b }
  function Min(a: real, b: real): real { if a <= b then a else b }
  function Abs(a: real): real { if a >= 0.0 then a else -a }

  /** `Math.round`: the nearest integer, halves rounded towards +infinity. */
  function Round(x: real): (r: int)
    ensures r as real - 0.5 <= x < r as real + 0.5
  {
    (x + 0.5).Floor
  }

  /** True of a value that is a whole multiple of `step`. */
  predicate MultipleOf(v: real, step: real)
    requires step != 0.0
  {
    (v / step).Floor as real == v / step
  }

  /** `Math.round(value / step) * step`: the multiple of `step` nearest to
      `value`. */
  function Snap(value: real, step: real): (r: real)
    requires step != 0.0
    ensures MultipleOf(r, step)
    ensures Abs(r - value) <= Abs(step) / 2.0
  {
    var k := Round(value / step);
    SnapIsNearest(value, step, k);
    k as real * step
  }

  lemma SnapIsNearest(value: real, step: real, k: int)
    requires step != 0.0
    requires k as real - 0.5 <= value / step < k as real + 0.5
    ensures MultipleOf(k as real * step, step)
    ensures Abs(k as real * step - value) <= Abs(step) / 2.0
  {
    var q := value / step;
    assert value == q * step;
    assert k as real * step / step == k as real;
    var d := k as real - q;
    assert k as real * step - value == d * step;
    assert -0.5 < d <= 0.5;
    if step > 0.0 {
      assert d * step <= 0.5 * step;
      assert d * step >= -0.5 * step;
    } else {
      assert d * step >= 0.5 * step;
      assert d * step <= -0.5 * step;
    }
  }

  /** The value under the pointer during a drag: the fraction is clamped to
      the track, interpolated over [min, max], snapped to a multiple of step
      and clamped to [min, max]. */
  function DragTarget(s: SliderState, fraction: real): (r: real)
    requires s.step != 0.0
    ensures s.min <= s.max ==> s.min <= r <= s.max
    ensures r == s.min || r == s.max || MultipleOf(r, s.step)
  {
    var percent := Max(0.0, Min(1.0, fraction));
    var value := s.min + percent * (s.max - s.min);
    Max(s.min, Min(s.max, Snap(value, s.step)))
  }

  /** The new `valueMin` when the min handle is dragged: the value under the
      pointer, held back to one step below `valueMax` when there is room,
      and never below `min`. */
  function DragMinValue(s: SliderState, fraction: real): (r: real)
    requires s.step != 0.0
    ensures r >= s.min
    ensures s.min <= s.valueMax - s.step ==> r <= s.valueMax - s.step
    ensures s.min <= s.max && r != s.min ==> r == DragTarget(s, fraction) || r == s.valueMax - s.step
    ensures s.min <= s.max && s.min <= DragTarget(s, fraction) <= s.valueMax - s.step ==> r == DragTarget(s, fraction)
    ensures s.min <= s.valueMax - s.step < DragTarget(s, fraction) ==> r == s.valueMax - s.step
  {
    Max(s.min, Min(DragTarget(s, fraction), s.valueMax - s.step))
  }

  /** The new `valueMax` when the max handle is dragged: the value under the
      pointer, held back to one step above `valueMin` when there is room,
      and never above `max`. */
  function DragMaxValue(s: SliderState, fraction: real): (r: real)
    requires s.step != 0.0
    ensures r <= s.max
    ensures s.valueMin + s.step <= s.max ==> r >= s.valueMin + s.step
    ensures s.min <= s.max && r != s.max ==> r == DragTarget(s, fraction) || r == s.valueMin + s.step
    ensures s.min <= s.max && s.valueMin + s.step <= DragTarget(s, fraction) <= s.max ==> r == DragTarget(s, fraction)
    ensures DragTarget(s, fraction) < s.valueMin + s.step <= s.max ==> r == s.valueMin + s.step
  {
    Min(s.max, Max(DragTarget(s, fraction), s.valueMin + s.step))
  }

  // ---------------------------------------------------------------------
  // Transitions: the state after each handler, and whether it emits.

  function AfterStartDrag(s: SliderState, h: Handle): SliderState {
    s.(isDragging := true, currentHandle := Some(h))
  }

  function AfterStopDrag(s: SliderState): SliderState {
    if !s.isDragging then s else s.(isDragging := false, currentHandle := None)
  }

  /** `stopDrag` emits exactly when a drag was in progress. */
  predicate StopDragEmits(s: SliderState) {
    s.isDragging
  }

  function AfterDrag(s: SliderState, fraction: real): (r: SliderState)
    requires s.step != 0.0
  {
    if !s.isDragging || s.currentHandle.None? then s
    else if s.currentHandle.value == MinHandle then s.(valueMin := DragMinValue(s, fraction))
    else s.(valueMax := DragMaxValue(s, fraction))
  }

  /** The value a click on the track maps to (not clamped to the bounds). */
  function ClickTarget(s: SliderState, fraction: real): real
    requires s.step != 0.0
  {
    Snap(s.min + fraction * (s.max - s.min), s.step)
  }

  /** A click moves the min handle when it is strictly closer to the clicked
      value, and the max handle otherwise (ties included); the moved handle
      does not cross the other one. */
  function AfterTrackClick(s: SliderState, onHandle: bool, fraction: real): (r: SliderState)
    requires s.step != 0.0
  {
    if s.isDragging || onHandle then s
    else
      var v := ClickTarget(s, fraction);
      if Abs(v - s.valueMin) < Abs(v - s.valueMax) then s.(valueMin := Min(v, s.valueMax))
      else s.(valueMax := Max(v, s.valueMin))
  }

  predicate TrackClickEmits(s: SliderState, onHandle: bool) {
    !s.isDragging && !onHandle
  }

  function AfterKeydown(s: SliderState, key: Key, h: Handle): (r: SliderState) {
    match key
    case ArrowLeft | ArrowDown => StepHandle(s, h, -s.step)
    case ArrowRight | ArrowUp => StepHandle(s, h, s.step)
    case Home => if h == MinHandle then s.(valueMin := s.min) else s.(valueMax := s.min)
    case End => if h == MinHandle then s.(valueMin := s.max) else s.(valueMax := s.max)
    case OtherKey(_) => s
  }

  /** An arrow key moves the handle by `delta`, clamped to the bounds and to
      the other handle (the handles may meet). */
  function StepHandle(s: SliderState, h: Handle, delta: real): SliderState {
    if delta == 0.0 then s
    else if h == MinHandle then s.(valueMin := Max(s.min, Min(s.valueMax, s.valueMin + delta)))
    else s.(valueMax := Min(s.max, Max(s.valueMin, s.valueMax + delta)))
  }

  predicate KeydownEmits(key: Key) {
    !key.OtherKey?
  }

  /** `setRange`: each value is clamped into [min, max] on its own. */
  function AfterSetRange(s: SliderState, lo: real, hi: real): SliderState {
    s.(valueMin := Max(s.min, Min(s.max, lo)), valueMax := Min(s.max, Max(s.min, hi)))
  }

  /** `setMinMax`: new bounds, both values re-clamped into them. */
  function AfterSetMinMax(s: SliderState, lo: real, hi: real): SliderState {
    s.(min := lo, max := hi,
       valueMin := Max(lo, Min(hi, s.valueMin)), valueMax := Min(hi, Max(lo, s.valueMax)))
  }

  // ---------------------------------------------------------------------
  // Properties of the transitions.

  /** Dragging the min handle on 0..100 with step 5 and the max handle at 50
      stops the min handle at 45, one step short of the max handle. */
  lemma DragMinStopsOneStepShort()
    ensures var s := SliderState(0.0, 100.0, 5.0, 10.0, 50.0, true, Some(MinHandle));
      AfterDrag(s, 0.9).valueMin == 45.0 && AfterDrag(s, 0.9).valueMax == 50.0
  {
    var s := SliderState(0.0, 100.0, 5.0, 10.0, 50.0, true, Some(MinHandle));
    assert Round(90.0 / 5.0) == 18;
    assert DragTarget(s, 0.9) == 90.0;
  }

  /** A drag keeps the handles in order and at least one step apart, as long
      as the bounds leave room for that. */
  lemma {:induction false} DragKeepsSeparation(s: SliderState, fraction: real)
    requires s.step > 0.0 && s.isDragging
    requires s.Ordered() && s.min + s.step <= s.valueMax && s.valueMin + s.step <= s.max
    requires s.valueMin + s.step <= s.valueMax
    ensures var r := AfterDrag(s, fraction);
      r.Ordered() && r.valueMin + r.step <= r.valueMax
  {
    var r := AfterDrag(s, fraction);
    if s.currentHandle == Some(MinHandle) {
      assert r.valueMin == DragMinValue(s, fraction);
    } else if s.currentHandle == Some(MaxHandle) {
      assert r.valueMax == DragMaxValue(s, fraction);
    }
  }

  /** A drag changes nothing but the dragged handle's value, and nothing at
      all when no drag is in progress. */
  lemma DragTouchesOnlyCurrentHandle(s: SliderState, fraction: real)
    requires s.step != 0.0
    ensures var r := AfterDrag(s, fraction);
      r.min == s.min && r.max == s.max && r.step == s.step &&
      r.isDragging == s.isDragging && r.currentHandle == s.currentHandle &&
      (s.currentHandle != Some(MinHandle) || !s.isDragging ==> r.valueMin == s.valueMin) &&
      (s.currentHandle != Some(MaxHandle) || !s.isDragging ==> r.valueMax == s.valueMax)
  {
  }

  /** Arrow keys keep an ordered slider ordered. */
  lemma ArrowKeysKeepOrder(s: SliderState, key: Key, h: Handle)
    requires s.Ordered()
    requires key.ArrowLeft? || key.ArrowDown? || key.ArrowRight? || key.ArrowUp?
    ensures AfterKeydown(s, key, h).Ordered()
  {
  }

  /** Home on the max handle ignores the min handle: from an ordered state it
      can leave valueMax below valueMin. */
  lemma HomeOnMaxHandleCanCrossHandles()
    ensures var s := SliderState(0.0, 100.0, 1.0, 30.0, 70.0, false, None);
      s.Ordered() && !AfterKeydown(s, Home, MaxHandle).Ordered() &&
      AfterKeydown(s, Home, MaxHandle).valueMax == 0.0
  {
  }

  /** A click moves exactly one handle: the min handle iff it is strictly
      closer to the clicked value; the moved handle never passes the other. */
  lemma {:induction false} TrackClickMovesClosestHandle(s: SliderState, fraction: real)
    requires s.step != 0.0 && !s.isDragging
    ensures var r := AfterTrackClick(s, false, fraction); var v := ClickTarget(s, fraction);
      var minCloser := Abs(v - s.valueMin) < Abs(v - s.valueMax);
      (minCloser ==> r.valueMin == Min(v, s.valueMax) && r.valueMax == s.valueMax) &&
      (!minCloser ==> r.valueMax == Max(v, s.valueMin) && r.valueMin == s.valueMin) &&
      (s.valueMin <= s.valueMax ==> r.valueMin <= r.valueMax)
  {
  }

  /** A click is not clamped to the bounds: a click past the end of the track
      (fraction 1.5 on 0..100) moves the max handle to 150. */
  lemma TrackClickIsNotClamped()
    ensures var r := AfterTrackClick(SliderState(0.0, 100.0, 1.0, 0.0, 100.0, false, None), false, 1.5);
      r.valueMax == 150.0 && r.valueMin == 0.0
  {
    assert Round(150.0 / 1.0) == 150;
  }

  /** `setRange` clamps each value into the bounds but does not reorder
      them: with bounds 0..100, setRange(80, 20) leaves valueMin above
      valueMax. */
  lemma SetRangeDoesNotReorder()
    ensures var r := AfterSetRange(SliderState(0.0, 100.0, 1.0, 0.0, 100.0, false, None), 80.0, 20.0);
      r.valueMin == 80.0 && r.valueMax == 20.0
  {
  }

  /** Within well-formed bounds, `setRange` puts each value inside them and
      keeps any value that already was inside. */
  lemma SetRangeClamps(s: SliderState, lo: real, hi: real)
    requires s.min <= s.max
    ensures var r := AfterSetRange(s, lo, hi);
      s.min <= r.valueMin <= s.max && s.min <= r.valueMax <= s.max &&
      (s.min <= lo <= s.max ==> r.valueMin == lo) &&
      (s.min <= hi <= s.max ==> r.valueMax == hi)
  {
  }

  /** `setMinMax` then `setRange` with the same bounds (the reset a range
      filter performs) restores the slider to its full domain. */
  lemma ResetToDomain(s: SliderState, lo: real, hi: real)
    requires lo <= hi
    ensures var r := AfterSetRange(AfterSetMinMax(s, lo, hi), lo, hi);
      r.min == lo && r.max == hi && r.valueMin == lo && r.valueMax == hi && r.Ordered()
  {
  }

  // ---------------------------------------------------------------------
  // The widget object.

  class RangeSlider {
    var min: real
    var max: real
    var step: real
    var valueMin: real
    var valueMax: real
    var isDragging: bool
    var currentHandle: Option<Handle>
    /** The `rangechange` events dispatched so far, oldest first. */
    var events: seq<RangeChange>

    ghost predicate Valid()
      reads this
    {
      step != 0.0 && (isDragging <==> currentHandle.Some?)
    }

    function State(): SliderState
      reads this
    {
      SliderState(min, max, step, valueMin, valueMax, isDragging, currentHandle)
    }

    /** Built from the parsed `data-*` attributes of the container (None
        for an attribute that is absent or does not parse); a missing or
        zero attribute takes its default. */
    constructor (minAttr: Option<real>, maxAttr: Option<real>, stepAttr: Option<real>,
                 valueMinAttr: Option<real>, valueMaxAttr: Option<real>)
      ensures Valid() && events == []
      ensures min == OrDefault(minAttr, 0.0) && max == OrDefault(maxAttr, 100.0)
      ensures step == OrDefault(stepAttr, 1.0)
      ensures valueMin == OrDefault(valueMinAttr, min) && valueMax == OrDefault(valueMaxAttr, max)
      ensures !isDragging && currentHandle == None
    {
      var lo := OrDefault(minAttr, 0.0);
      var hi := OrDefault(maxAttr, 100.0);
      min := lo;
      max := hi;
      step := OrDefault(stepAttr, 1.0);
      valueMin := OrDefault(valueMinAttr, lo);
      valueMax := OrDefault(valueMaxAttr, hi);
      isDragging := false;
      currentHandle := None;
      events := [];
    }

    method TriggerChange()
      modifies this`events
      ensures events == old(events) + [State().Change()]
    {
      events := events + [RangeChange(valueMin, valueMax)];
    }

    method StartDrag(h: Handle)
      requires Valid()
      modifies this
      ensures Valid() && State() == AfterStartDrag(old(State()), h)
      ensures events == old(events)
    {
      isDragging := true;
      currentHandle := Some(h);
    }

    method StopDrag()
      requires Valid()
      modifies this
      ensures Valid() && State() == AfterStopDrag(old(State()))
      ensures events == old(events) + (if StopDragEmits(old(State())) then [State().Change()] else [])
    {
      if !isDragging {
        return;
      }
      isDragging := false;
      currentHandle := None;
      TriggerChange();
    }

    method OnDrag(fraction: real)
      requires Valid()
      modifies this
      ensures Valid() && State() == AfterDrag(old(State()), fraction)
      ensures events == old(events)
    {
      if !isDragging || currentHandle.None? {
        return;
      }
      var snapped := DragTarget(State(), fraction);
      if currentHandle.value == MinHandle {
        valueMin := Max(min, Min(snapped, valueMax - step));
      } else {
        valueMax := Min(max, Max(snapped, valueMin + step));
      }
    }

    method OnTrackClick(onHandle: bool, fraction: real)
      requires Valid()
      modifies this
      ensures Valid() && State() == AfterTrackClick(old(State()), onHandle, fraction)
      ensures events == old(events) +
        (if TrackClickEmits(old(State()), onHandle) then [State().Change()] else [])
    {
      if isDragging || onHandle {
        return;
      }
      var snapped := ClickTarget(State(), fraction);
      var distToMin := Abs(snapped - valueMin);
      var distToMax := Abs(snapped - valueMax);
      if distToMin < distToMax {
        valueMin := Min(snapped, valueMax);
      } else {
        valueMax := Max(snapped, valueMin);
      }
      TriggerChange();
    }

    method HandleKeydown(key: Key, h: Handle)
      requires Valid()
      modifies this
      ensures Valid() && State() == AfterKeydown(old(State()), key, h)
      ensures events == old(events) + (if KeydownEmits(key) then [State().Change()] else [])
    {
      var delta := 0.0;
      match key {
        case ArrowLeft | ArrowDown => delta := -step;
        case ArrowRight | ArrowUp => delta := step;
        case Home =>
          if h == MinHandle { valueMin := min; } else { valueMax := min; }
        case End =>
          if h == MinHandle { valueMin := max; } else { valueMax := max; }
        case OtherKey(_) => return;
      }
      if delta != 0.0 {
        if h == MinHandle {
          valueMin := Max(min, Min(valueMax, valueMin + delta));
        } else {
          valueMax := Min(max, Max(valueMin, valueMax + delta));
        }
      }
      TriggerChange();
    }

    method SetRange(lo: real, hi: real)
      requires Valid()
      modifies this
      ensures Valid() && State() == AfterSetRange(old(State()), lo, hi)
      ensures events == old(events) + [State().Change()]
    {
      valueMin := Max(min, Min(max, lo));
      valueMax := Min(max, Max(min, hi));
      TriggerChange();
    }

    method SetMinMax(lo: real, hi: real)
      requires Valid()
      modifies this
      ensures Valid() && State() == AfterSetMinMax(old(State()), lo, hi)
      ensures events == old(events)
    {
      min := lo;
      max := hi;
      valueMin := Max(lo, Min(hi, valueMin));
      valueMax := Min(hi, Max(lo, valueMax));
    }
  }
}
