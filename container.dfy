/**
 * The input rules of a selectable container (src/DragSelectable/DragSelectableContainer.js):
 * what a click or a mouse-down dispatches, how the container registers its children as
 * items, and when it reports a change of highlight.
 */
module ContainerInput {
  import opened Wrappers
  import opened Elements
  import opened Geometry
  import opened Seqs
  import opened Decimal
  import opened Store
  import opened Selection

  // ---------------------------------------------------------------------------
  // Click

  /**
   * The `onClick` of a rendered child whose key is `key`, with `selected` the selection the
   * children were rendered with: with a modifier it toggles; without one a selected item
   * is deselected and an unselected one becomes the only selection.
   */
  function ClickAction(selected: seq<Key>, key: Key, mods: Modifiers): Action {
    if IsAppendMode(mods) then
      if key in selected then RemoveSelect(key) else AddSelect(key)
    else
      if key in selected then RemoveSelect(key) else SetSelected([key])
  }

  /** A click with ctrl, alt or shift flips the clicked key and keeps every other selected key. */
  lemma ModifierClickToggles(s: State, key: Key, mods: Modifiers)
    requires IsAppendMode(mods) && NoDup(s.selected)
    ensures Reduce(s, ClickAction(s.selected, key, mods)).Ok?
    ensures var t := Reduce(s, ClickAction(s.selected, key, mods)).value;
      t == s.(selected := t.selected) && NoDup(t.selected) &&
      (key in t.selected <==> key !in s.selected) &&
      (forall k :: k != key ==> (k in t.selected <==> k in s.selected))
  {
    SelectToggles(s, key);
    SelectionStaysDuplicateFree(s, ClickAction(s.selected, key, mods));
  }

  /** A plain click deselects a selected item alone, or makes an unselected item the sole selection. */
  lemma PlainClickSelectsOnly(s: State, key: Key, mods: Modifiers)
    requires !IsAppendMode(mods)
    ensures Reduce(s, ClickAction(s.selected, key, mods)).Ok?
    ensures var t := Reduce(s, ClickAction(s.selected, key, mods)).value;
      t == s.(selected := t.selected) &&
      (key in s.selected ==> key !in t.selected && forall k :: k != key ==> (k in t.selected <==> k in s.selected)) &&
      (key !in s.selected ==> t.selected == [key])
  {
    SelectToggles(s, key);
  }

  // ---------------------------------------------------------------------------
  // Mouse-down

  /** The item under a drag handle and the pointer's offset inside it (found by a DOM walk). */
  datatype Grab = Grab(key: Key, offset: Point)

  datatype MouseDownEvent = MouseDownEvent(
    onDragHandle: bool,     // the target carries the class `drag-handle`
    button: int,
    which: int,
    mods: Modifiers,
    page: Point,
    onContainerRoot: bool,  // the target is the root element of a registered container
    grabbed: Option<Grab>,  // `None`: the walk found no registered item above the target
    layout: Layout)

  /**
   * `onMouseDown` of the container whose ref is `ref`; with `noSelection` the handler is
   * not attached at all. A drag handle starts a drag (and the walk that finds no item ends
   * in `null.getBoundingClientRect()`); button or which 2 is ignored; anything else begins
   * a selection gesture.
   */
  function MouseDownAction(ref: Ref, noSelection: bool, e: MouseDownEvent): Result<Option<Action>> {
    if noSelection then Ok(None)
    else if e.onDragHandle then
      match e.grabbed
      case None => Err(TypeError)
      case Some(g) => Ok(Some(BeginDrag(ref, e.page, g.offset, g.key, e.layout)))
    else if e.button == 2 || e.which == 2 then Ok(None)
    else Ok(Some(BeginSelection(e.page, IsAppendMode(e.mods), e.onContainerRoot, e.layout)))
  }

  /**
   * What a mouse-down does to the store: a `noSelection` container and button 2 change
   * nothing; a drag handle never begins a selection; any other press on a measured board
   * starts a gesture at the pressed point and clears the selection exactly when it is a
   * plain press on a container root.
   */
  lemma MouseDownRouting(s: State, ref: Ref, noSelection: bool, e: MouseDownEvent)
    ensures noSelection ==> MouseDownAction(ref, noSelection, e) == Ok(None)
    ensures e.onDragHandle ==>
      var r := MouseDownAction(ref, noSelection, e);
      r.Ok? && r.value.Some? ==> r.value.value.BeginDrag? && r.value.value.draggedItemKey == e.grabbed.value.key
    ensures !noSelection && !e.onDragHandle && (e.button == 2 || e.which == 2) ==>
      MouseDownAction(ref, noSelection, e) == Ok(None)
    ensures !noSelection && !e.onDragHandle && e.button != 2 && e.which != 2 && ItemsMounted(s.items, e.layout) ==>
      var r := MouseDownAction(ref, noSelection, e);
      r.Ok? && r.value.Some? && Reduce(s, r.value.value).Ok? &&
      var t := Reduce(s, r.value.value).value;
      t.startPoint == Some(e.page) && t.items.Keys == s.items.Keys &&
      t.selected == (if !IsAppendMode(e.mods) && e.onContainerRoot then [] else s.selected)
  {
  }

  // ---------------------------------------------------------------------------
  // Registering the children as items

  /** A child element: its React `key`, its props, and the ref created for it. */
  datatype Child = Child(key: nat, props: Props, ref: Ref)

  function ElementKeys(children: seq<Child>): seq<nat> {
    seq(|children|, i requires 0 <= i < |children| => children[i].key)
  }

  /** The ids of the children, which become their item keys. */
  function ChildIds(children: seq<Child>): set<Key> {
    set i | 0 <= i < |children| :: children[i].props.id
  }

  /** SET_CONTAINER_ITEMS with one `{key: props.id, ref, node}` entry per child. */
  function Registration(ref: Ref, children: seq<Child>): (a: Action)
    ensures a.SetContainerItems? && a.containerRef == ref && EntryKeys(a.entries) == ChildIds(children)
  {
    var entries := seq(|children|, i requires 0 <= i < |children| => ItemEntry(children[i].props.id, children[i].ref, children[i].props));
    assert forall k :: k in EntryKeys(entries) ==> k in ChildIds(children) by {
      forall k | k in EntryKeys(entries) ensures k in ChildIds(children) {
        var e :| e in entries && e.key == k;
        var i :| 0 <= i < |entries| && entries[i] == e;
        assert children[i].props.id == k;
      }
    }
    assert forall k :: k in ChildIds(children) ==> k in EntryKeys(entries) by {
      forall k | k in ChildIds(children) ensures k in EntryKeys(entries) {
        var i :| 0 <= i < |children| && children[i].props.id == k;
        assert entries[i].key == k;
      }
    }
    SetContainerItems(ref, entries)
  }

  /** After a registration the container owns exactly its children's ids, each item stamped with its ref. */
  lemma RegistrationOwnsChildren(s: State, ref: Ref, children: seq<Child>)
    ensures Reduce(s, Registration(ref, children)).Ok?
    ensures var t := Reduce(s, Registration(ref, children)).value;
      OwnedKeys(t.items, ref) == ChildIds(children) &&
      (forall k :: k in ChildIds(children) ==> k in t.items && t.items[k].containerRef == ref) &&
      t.containers == s.containers && t.selected == s.selected
  {
    var a := Registration(ref, children);
    SetContainerItemsReplaces(s, ref, a.entries);
  }

  /** `childrenItems.map(e => e.key).join('')`: the element keys run together without a separator. */
  function JoinedKeys(keys: seq<nat>): (r: string)
    ensures keys == [] <==> r == []
    ensures |r| >= |keys|
    ensures forall i :: 0 <= i < |r| ==> '0' <= r[i] <= '9'
  {
    if keys == [] then [] else JoinedKeys(Init(keys)) + NatToString(Last(keys))
  }

  /** Joining one more key appends its decimal digits and nothing else, not even a separator. */
  lemma JoinedKeysSnoc(keys: seq<nat>, k: nat)
    ensures JoinedKeys(keys + [k]) == JoinedKeys(keys) + NatToString(k)
  {
    assert Init(keys + [k]) == keys;
  }

  /** Two different key lists with the same joined string. */
  lemma JoinedKeysCollide()
    ensures [1, 13] != [11, 3] && JoinedKeys([1, 13]) == JoinedKeys([11, 3])
  {
    JoinedKeysSnoc([], 1);
    JoinedKeysSnoc([1], 13);
    JoinedKeysSnoc([], 11);
    JoinedKeysSnoc([11], 3);
    DigitStrings();
  }

  lemma DigitStrings()
    ensures NatToString(1) == "1" && NatToString(3) == "3"
    ensures NatToString(11) == "11" && NatToString(13) == "13"
  {
    assert NatToString(11) == NatToString(1) + [Digit(1)];
    assert NatToString(13) == NatToString(1) + [Digit(3)];
  }

  /**
   * The registration memo as written: it is rebuilt only when the joined key string
   * differs from the one it was last built for. Yields the new memo key and the dispatch.
   */
  function MemoAsWritten(ref: Ref, prev: Option<string>, children: seq<Child>): (Option<string>, Option<Action>) {
    var id := JoinedKeys(ElementKeys(children));
    if prev == Some(id) then (prev, None) else (Some(id), Some(Registration(ref, children)))
  }

  /**
   * The registration memo keyed by the key list itself: rebuilt whenever the list of
   * element keys changes.
   */
  function Memo(ref: Ref, prev: Option<seq<nat>>, children: seq<Child>): (Option<seq<nat>>, Option<Action>) {
    var keys := ElementKeys(children);
    if prev == Some(keys) then (prev, None) else (Some(keys), Some(Registration(ref, children)))
  }

  /** The store owns, for `ref`, exactly the keys of the children the memo was built for. */
  predicate Synced(s: State, ref: Ref, memo: Option<seq<nat>>) {
    memo.Some? ==> OwnedKeys(s.items, ref) == Elems(memo.value)
  }

  /** Children whose element key is their id, as every caller renders them (`key={id} id={id}`). */
  predicate KeyedById(children: seq<Child>) {
    forall i :: 0 <= i < |children| ==> children[i].key == children[i].props.id
  }

  lemma ElementKeysAreIds(children: seq<Child>)
    requires KeyedById(children)
    ensures Elems(ElementKeys(children)) == ChildIds(children)
  {
    var ks := ElementKeys(children);
    assert forall k :: k in Elems(ks) ==> k in ChildIds(children) by {
      forall k | k in Elems(ks) ensures k in ChildIds(children) {
        var i :| 0 <= i < |ks| && ks[i] == k;
        assert children[i].props.id == k;
      }
    }
    assert forall k :: k in ChildIds(children) ==> k in Elems(ks) by {
      forall k | k in ChildIds(children) ensures k in Elems(ks) {
        var i :| 0 <= i < |children| && children[i].props.id == k;
        assert ks[i] == k;
      }
    }
  }

  /** The list-keyed memo keeps the store in step with the rendered children on every render. */
  lemma MemoKeepsStoreSynced(s: State, ref: Ref, prev: Option<seq<nat>>, children: seq<Child>)
    requires Synced(s, ref, prev) && KeyedById(children)
    ensures var (memo, dispatched) := Memo(ref, prev, children);
      var t := if dispatched.Some? then Reduce(s, dispatched.value).value else s;
      memo == Some(ElementKeys(children)) &&
      (dispatched.Some? ==> Reduce(s, dispatched.value).Ok?) &&
      Synced(t, ref, memo) && OwnedKeys(t.items, ref) == ChildIds(children)
  {
    ElementKeysAreIds(children);
    var (memo, dispatched) := Memo(ref, prev, children);
    if dispatched.Some? {
      RegistrationOwnsChildren(s, ref, children);
    }
  }

  /**
   * The joined-string memo misses a change of children: a container registered for keys
   * [1, 13] that now renders [11, 3] dispatches nothing, so the store still owns {1, 13}.
   */
  lemma MemoAsWrittenMissesChange(s: State, ref: Ref, children: seq<Child>)
    requires KeyedById(children) && ElementKeys(children) == [11, 3]
    requires OwnedKeys(s.items, ref) == {1, 13}
    ensures MemoAsWritten(ref, Some(JoinedKeys([1, 13])), children).1 == None
    ensures OwnedKeys(s.items, ref) != ChildIds(children)
    ensures Memo(ref, Some([1, 13]), children).1.Some?
  {
    JoinedKeysCollide();
    ElementKeysAreIds(children);
    assert 11 in Elems(ElementKeys(children)) by { assert ElementKeys(children)[0] == 11; }
  }

  // ---------------------------------------------------------------------------
  // Highlight change

  /** The report for one render: the flag, when it differs from the last one seen (`undefined` at first). */
  function Notice(last: Option<bool>, highlighted: bool): Option<bool> {
    if last != Some(highlighted) then Some(highlighted) else None
  }

  /** The flags reported over successive renders that see the flags `hs`. */
  function Reports(last: Option<bool>, hs: seq<bool>): (r: seq<bool>)
    ensures |r| <= |hs|
  {
    if hs == [] then []
    else
      var seen := if |hs| == 1 then last else Some(hs[|hs| - 2]);
      Reports(last, Init(hs)) + (match Notice(seen, Last(hs)) case Some(b) => [b] case None => [])
  }

  /**
   * A container reports only changes: no two successive reports are equal, the first
   * differs from what was seen before, and the latest report is the current flag.
   */
  lemma {:induction false} ReportsOnlyChanges(last: Option<bool>, hs: seq<bool>)
    ensures var r := Reports(last, hs);
      (forall i :: 0 <= i < |r| - 1 ==> r[i] != r[i + 1]) &&
      (r != [] ==> last != Some(r[0]) && r[|r| - 1] == hs[|hs| - 1]) &&
      (hs != [] && r == [] ==> last == Some(hs[|hs| - 1]))
  {
    if hs != [] {
      ReportsOnlyChanges(last, Init(hs));
      var r0 := Reports(last, Init(hs));
      if |hs| >= 2 {
        assert Last(Init(hs)) == hs[|hs| - 2];
      }
    }
  }

  /** The first render reports the flag even when it is false, since `undefined !== false`. */
  lemma FirstRenderReports(h: bool)
    ensures Notice(None, h) == Some(h)
  {
  }

  /** The mutable refs of one mounted container. */
  class ContainerView {
    const ref: Ref
    var lastHighlightedState: Option<bool>
    var registeredKeys: Option<seq<nat>>

    constructor (ref: Ref)
      ensures this.ref == ref && lastHighlightedState == None && registeredKeys == None
    {
      this.ref := ref;
      lastHighlightedState := None;
      registeredKeys := None;
    }

    /** The highlight check at the top of each render; `hasHandler`: `onHighlightChange` is a function. */
    method NoticeHighlight(s: State, hasHandler: bool) returns (reported: Option<bool>)
      modifies this
      ensures lastHighlightedState == Some(s.highlighted == Some(ref))
      ensures reported == if hasHandler then Notice(old(lastHighlightedState), s.highlighted == Some(ref)) else None
      ensures registeredKeys == old(registeredKeys)
    {
      var highlighted := s.highlighted == Some(ref);
      reported := None;
      if lastHighlightedState != Some(highlighted) {
        if hasHandler {
          reported := Some(highlighted);
        }
        lastHighlightedState := Some(highlighted);
      }
    }

    /**
     * The item-registration memo in its corrected form, keyed by the list of element keys
     * (`Memo`); the joined-string key of the component is `MemoAsWritten`.
     */
    method RegisterItems(children: seq<Child>) returns (dispatched: Option<Action>)
      modifies this
      ensures (registeredKeys, dispatched) == Memo(ref, old(registeredKeys), children)
      ensures lastHighlightedState == old(lastHighlightedState)
    {
      var keys := ElementKeys(children);
      if registeredKeys == Some(keys) {
        dispatched := None;
      } else {
        dispatched := Some(Registration(ref, children));
        registeredKeys := Some(keys);
      }
    }
  }
}
