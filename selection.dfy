/**
 * Marquee selection (`SelectionController` in src/DragSelectable/Providers/DragProvider.js):
 * the throttled recompute of the selected keys while the mouse moves with a selection
 * gesture in progress. The wall clock is the `now` argument.
 */
module Selection {
  import opened Wrappers
  import opened Elements
  import opened Geometry
  import opened Seqs
  import opened Store

  /** Milliseconds between two recomputes. */
  const SelectionUpdateInterval: int := 50

  /** The modifier keys of a mouse event. */
  datatype Modifiers = Modifiers(ctrl: bool, alt: bool, shift: bool)

  /** `isEventAppendMode(e)`: any of ctrl, alt or shift adds to the selection instead of replacing it. */
  predicate IsAppendMode(m: Modifiers) {
    m.ctrl || m.alt || m.shift
  }

  predicate Registered(items: map<Key, Item>, order: seq<Key>) {
    forall k :: k in order ==> k in items
  }

  /** Every item in `order` has been measured. */
  predicate AllMeasured(items: map<Key, Item>, order: seq<Key>)
    requires Registered(items, order)
  {
    forall k :: k in order ==> items[k].rect.Some?
  }

  /** The item under `k` was measured and overlaps the marquee. */
  predicate Overlaps(items: map<Key, Item>, k: Key, box: Rect)
    requires k in items
  {
    items[k].rect.Some? && BoxIntersects(box, items[k].rect.value)
  }

  /**
   * The `forEach` of `updateCollidingChildren` over the items in enumeration order,
   * starting from `start`: an overlapping item's key is pushed; in replace mode a
   * non-overlapping one is filtered out. An unmeasured item makes `boxIntersects` throw.
   */
  function Colliding(items: map<Key, Item>, order: seq<Key>, start: seq<Key>, box: Rect, appendMode: bool): Result<seq<Key>>
    requires Registered(items, order)
  {
    if order == [] then Ok(start)
    else
      match Colliding(items, Init(order), start, box, appendMode)
      case Err(e) => Err(e)
      case Ok(acc) =>
        var it := items[Last(order)];
        match it.rect
        case None => Err(TypeError)
        case Some(r) =>
          if BoxIntersects(box, r) then Ok(acc + [it.key])
          else if !appendMode then Ok(Without(acc, it.key))
          else Ok(acc)
  }

  /** The keys in `order` whose item overlaps the marquee, in order. */
  function Hits(items: map<Key, Item>, order: seq<Key>, box: Rect): (r: seq<Key>)
    requires Registered(items, order)
    ensures forall k :: k in r <==> k in order && Overlaps(items, k, box)
    ensures NoDup(order) ==> NoDup(r)
  {
    if order == [] then []
    else
      var acc := Hits(items, Init(order), box);
      var k := Last(order);
      assert order == Init(order) + [k];
      if Overlaps(items, k, box) then acc + [k] else acc
  }

  /** The loop of `updateCollidingChildren` that builds `newSelected`. */
  method CollectColliding(items: map<Key, Item>, order: seq<Key>, start: seq<Key>, box: Rect, appendMode: bool)
    returns (r: Result<seq<Key>>)
    requires Registered(items, order)
    ensures r == Colliding(items, order, start, box, appendMode)
  {
    var newSelected := start;
    var i := 0;
    while i < |order|
      invariant 0 <= i <= |order|
      invariant Colliding(items, order[..i], start, box, appendMode) == Ok(newSelected)
    {
      assert Init(order[..i + 1]) == order[..i];
      var it := items[order[i]];
      if it.rect.None? {
        r := Err(TypeError);
        assert Colliding(items, order[..i + 1], start, box, appendMode) == r;
        CollidingStaysErr(items, order, i + 1, start, box, appendMode);
        return;
      }
      if BoxIntersects(box, it.rect.value) {
        newSelected := newSelected + [it.key];
      } else if !appendMode {
        newSelected := Without(newSelected, it.key);
      }
      i := i + 1;
    }
    assert order[..i] == order;
    r := Ok(newSelected);
  }

  /** Once the walk has thrown, the rest of the walk does not matter. */
  lemma {:induction false} CollidingStaysErr(items: map<Key, Item>, order: seq<Key>, n: nat, start: seq<Key>, box: Rect, appendMode: bool)
    requires Registered(items, order) && n <= |order|
    requires Colliding(items, order[..n], start, box, appendMode).Err?
    ensures Colliding(items, order, start, box, appendMode) == Colliding(items, order[..n], start, box, appendMode)
    decreases |order| - n
  {
    if n < |order| {
      assert Init(order[..n + 1]) == order[..n];
      CollidingStaysErr(items, order, n + 1, start, box, appendMode);
    } else {
      assert order[..n] == order;
    }
  }

  /**
   * Replace mode over measured, well-keyed items: the result is exactly the keys whose
   * item overlaps the marquee, each once, in enumeration order.
   */
  lemma {:induction false} ReplaceModeSelectsExactlyOverlapping(items: map<Key, Item>, order: seq<Key>, box: Rect)
    requires Registered(items, order) && WellKeyed(items) && NoDup(order) && AllMeasured(items, order)
    ensures Colliding(items, order, [], box, false) == Ok(Hits(items, order, box))
  {
    if order != [] {
      NoDupInit(order);
      ReplaceModeSelectsExactlyOverlapping(items, Init(order), box);
      var k := Last(order);
      assert k !in Hits(items, Init(order), box);
    }
  }

  /** Append mode over measured, well-keyed items: the start list followed by the overlapping keys. */
  lemma {:induction false} AppendModeExtends(items: map<Key, Item>, order: seq<Key>, start: seq<Key>, box: Rect)
    requires Registered(items, order) && WellKeyed(items) && AllMeasured(items, order)
    ensures Colliding(items, order, start, box, true) == Ok(start + Hits(items, order, box))
  {
    if order != [] {
      AppendModeExtends(items, Init(order), start, box);
      var h := Hits(items, Init(order), box);
      assert (start + h) + [Last(order)] == start + (h + [Last(order)]);
    } else {
      assert start + [] == start;
    }
  }

  /** The recompute throws exactly when some item has not been measured. */
  lemma {:induction false} CollidingThrowsIffUnmeasured(items: map<Key, Item>, order: seq<Key>, start: seq<Key>, box: Rect, appendMode: bool)
    requires Registered(items, order)
    ensures Colliding(items, order, start, box, appendMode).Err? <==> !AllMeasured(items, order)
  {
    if order != [] {
      CollidingThrowsIffUnmeasured(items, Init(order), start, box, appendMode);
      assert order == Init(order) + [Last(order)];
    }
  }

  /** The raw `newSelected` list for a gesture started at `s.startPoint` and now at `endPoint`. */
  function Marquee(s: State, endPoint: Point, appendMode: bool): Result<seq<Key>>
    requires s.startPoint.Some?
  {
    Colliding(s.items, SortedKeys(s.items.Keys), if appendMode then s.selected else [],
              SelectionBoxRect(s.startPoint.value, endPoint), appendMode)
  }

  datatype MarqueeOutcome =
    | Throttled                  // too early, or no gesture in progress: nothing happens
    | Unchanged                  // recomputed, equal element-wise to the current selection
    | Dispatched(action: Action) // recomputed and different: SET_SELECTED with the de-duplicated list
    | Threw                      // an unmeasured item

  /** The comparison with the current selection and the dispatch that follows it. */
  function Decide(selected: seq<Key>, raw: Result<seq<Key>>): MarqueeOutcome {
    match raw
    case Err(_) => Threw
    case Ok(ns) => if ns == selected then Unchanged else Dispatched(SetSelected(Dedup(ns)))
  }

  /** The store after the recompute's dispatch, if any, through the reducer. */
  function Apply(s: State, out: MarqueeOutcome): Result<State> {
    if out.Dispatched? then Reduce(s, out.action) else Ok(s)
  }

  predicate Measured(s: State) {
    forall k :: k in s.items ==> s.items[k].rect.Some?
  }

  /**
   * After a recompute in replace mode the selection is exactly the registered keys whose
   * item overlaps the marquee, without duplicates; nothing else in the store changes.
   */
  lemma ReplaceModeResult(s: State, endPoint: Point)
    requires s.startPoint.Some? && WellKeyed(s.items) && Measured(s)
    ensures var out := Decide(s.selected, Marquee(s, endPoint, false));
      var box := SelectionBoxRect(s.startPoint.value, endPoint);
      !out.Threw? && Apply(s, out).Ok? &&
      var t := Apply(s, out).value;
      NoDup(t.selected) && t == s.(selected := t.selected) &&
      forall k :: k in t.selected <==> k in s.items && Overlaps(s.items, k, box)
  {
    var order := SortedKeys(s.items.Keys);
    var box := SelectionBoxRect(s.startPoint.value, endPoint);
    ReplaceModeSelectsExactlyOverlapping(s.items, order, box);
  }

  /**
   * After a recompute in append mode every previously selected key is still selected and
   * every overlapping key is selected; a dispatched selection has no duplicates.
   */
  lemma AppendModeResult(s: State, endPoint: Point)
    requires s.startPoint.Some? && WellKeyed(s.items) && Measured(s)
    ensures var out := Decide(s.selected, Marquee(s, endPoint, true));
      var box := SelectionBoxRect(s.startPoint.value, endPoint);
      !out.Threw? && Apply(s, out).Ok? &&
      var t := Apply(s, out).value;
      t == s.(selected := t.selected) &&
      (forall k :: k in s.selected ==> k in t.selected) &&
      (forall k :: k in s.items && Overlaps(s.items, k, box) ==> k in t.selected) &&
      (out.Dispatched? ==> NoDup(t.selected))
  {
    var order := SortedKeys(s.items.Keys);
    var box := SelectionBoxRect(s.startPoint.value, endPoint);
    AppendModeExtends(s.items, order, s.selected, box);
    var raw := s.selected + Hits(s.items, order, box);
    assert Marquee(s, endPoint, true) == Ok(raw);
    if raw != s.selected {
      SetSelectedOnlySelects(s, Dedup(raw));
    }
  }

  lemma SetSelectedOnlySelects(s: State, keys: seq<Key>)
    ensures Apply(s, Dispatched(SetSelected(keys))) == Ok(s.(selected := keys))
  {
  }

  /** The component's mutable `nextSelectionUpdate` ref and the recompute that reads and advances it. */
  class SelectionController {
    var nextSelectionUpdate: int

    constructor ()
      ensures nextSelectionUpdate == 0
    {
      nextSelectionUpdate := 0;
    }

    /**
     * `updateCollidingChildren` for a mouse at `endPoint` at time `now`, over the store
     * snapshot `s`. Too early (`now < nextSelectionUpdate`) or with no gesture in progress
     * it does nothing; otherwise it pushes the deadline to `now + 50` and recomputes.
     */
    method UpdateCollidingChildren(s: State, endPoint: Point, now: int, mods: Modifiers) returns (out: MarqueeOutcome)
      modifies this
      ensures old(nextSelectionUpdate) > now || s.startPoint.None? ==>
        out == Throttled && nextSelectionUpdate == old(nextSelectionUpdate)
      ensures old(nextSelectionUpdate) <= now && s.startPoint.Some? ==>
        nextSelectionUpdate == now + SelectionUpdateInterval &&
        out == Decide(s.selected, Marquee(s, endPoint, IsAppendMode(mods)))
    {
      if nextSelectionUpdate > now || s.startPoint.None? {
        return Throttled;
      }
      nextSelectionUpdate := now + SelectionUpdateInterval;
      var appendMode := IsAppendMode(mods);
      var start := if appendMode then s.selected else [];
      var box := SelectionBoxRect(s.startPoint.value, endPoint);
      var raw := CollectColliding(s.items, SortedKeys(s.items.Keys), start, box, appendMode);
      match raw {
        case Err(_) =>
          out := Threw;
        case Ok(newSelected) =>
          if |newSelected| == |s.selected| && forall i :: 0 <= i < |s.selected| ==> s.selected[i] == newSelected[i] {
            out := Unchanged;
          } else {
            out := Dispatched(SetSelected(Dedup(newSelected)));
          }
      }
    }
  }
}
