/**
 * The shared drag/select store of src/DragSelectable/Providers/DragProvider.js:
 * its state record, its actions and its reducer, with the registry, selection and
 * drag-begin facts the reducer guarantees.
 *
 * DOM measurement (`getElPageRect`) is replaced by a `Layout` that the measuring actions
 * carry: the page rectangle of every mounted element, by ref. A ref missing from it is
 * an element that is not mounted (`ref.current === null`), and measuring it throws.
 */
module Store {
  import opened Wrappers
  import opened Elements
  import opened Geometry
  import opened Seqs
  import opened Decimal

  /** The ghost stack shows at most this many dragged tags. */
  const MaxStackSize: nat := 3

  /** Priority of a container registered without one. */
  const DefaultPriority: int := 0

  /** A registered drop zone; `rect` is set only by the measuring actions. */
  datatype Container = Container(ref: Ref, onAdd: HandlerId, onRemove: HandlerId, priority: int, rect: Option<Rect>)

  /** A registered item, owned by the container whose ref is `containerRef`. */
  datatype Item = Item(key: Key, ref: Ref, containerRef: Ref, node: Props, rect: Option<Rect>)

  /** `{key, ref, node}` as a container hands its children to SET_CONTAINER_ITEMS. */
  datatype ItemEntry = ItemEntry(key: Key, ref: Ref, node: Props)

  /** The drag session: the BEGIN_DRAG payload plus the ghost stack and the moving keys. */
  datatype Drag = Drag(ref: Ref, start: Point, dragOffset: Point, draggedItemKey: Key,
                       shadows: seq<Props>, items: seq<Key>)

  /** The store. `None` stands for both `undefined` and `null`. */
  datatype State = State(
    containers: seq<Container>,
    items: map<Key, Item>,
    selected: seq<Key>,
    startPoint: Option<Point>,
    drag: Option<Drag>,
    highlighted: Option<Ref>)

  /** Page rectangles of the mounted elements. */
  type Layout = map<Ref, Rect>

  datatype Action =
    | SetContainer(ref: Ref, onAdd: HandlerId, onRemove: HandlerId, priority: Option<int>)
    | RemoveContainer(ref: Ref)
    | SetContainerItems(containerRef: Ref, entries: seq<ItemEntry>)
    | AddContainerItem(key: Key, ref: Ref, containerRef: Ref, node: Props)
    | RemoveContainerItem(key: Key, containerRef: Ref)
      // `onContainerRoot`: the mouse-down target is the root element of a registered container
    | BeginSelection(point: Point, appendMode: bool, onContainerRoot: bool, layout: Layout)
    | EndSelection
    | SetSelected(keys: seq<Key>)
    | AddSelect(key: Key)
    | RemoveSelect(key: Key)
    | BeginDrag(ref: Ref, start: Point, dragOffset: Point, draggedItemKey: Key, layout: Layout)
    | EndDrag
    | CalcRect(layout: Layout)
    | SetHighlighted(target: Option<Ref>)
    | Unhandled(name: string)

  /** `initState` */
  const InitState: State := State([], map[], [], None, None, None)

  // ---------------------------------------------------------------------------
  // Registry invariants

  function Refs(cs: seq<Container>): (r: seq<Ref>)
    ensures |r| == |cs| && forall i :: 0 <= i < |cs| ==> r[i] == cs[i].ref
  {
    seq(|cs|, i requires 0 <= i < |cs| => cs[i].ref)
  }

  /** No two registered containers share a ref. */
  predicate UniqueRefs(cs: seq<Container>) {
    NoDup(Refs(cs))
  }

  /** Every item is stored under its own key. */
  predicate WellKeyed(items: map<Key, Item>) {
    forall k :: k in items ==> items[k].key == k
  }

  predicate WellFormed(s: State) {
    UniqueRefs(s.containers) && WellKeyed(s.items)
  }

  /** The keys of the items owned by container `c`. */
  function OwnedKeys(items: map<Key, Item>, c: Ref): set<Key> {
    set k | k in items && items[k].containerRef == c
  }

  // ---------------------------------------------------------------------------
  // Containers

  /** `cs.filter(e => !taken.includes(e.ref))` */
  function DropRefs(cs: seq<Container>, taken: seq<Ref>): (r: seq<Container>)
    ensures forall c :: c in r <==> c in cs && c.ref !in taken
    ensures forall rf :: rf in Refs(r) ==> rf in Refs(cs) && rf !in taken
    ensures UniqueRefs(cs) ==> UniqueRefs(r)
  {
    if cs == [] then []
    else
      var rest := DropRefs(cs[1..], taken);
      RefsCons(cs[0], cs[1..]);
      assert cs == [cs[0]] + cs[1..];
      if cs[0].ref in taken then rest
      else
        RefsCons(cs[0], rest);
        if UniqueRefs(cs) then
          NoDupTail(Refs(cs));
          NoDupCons(cs[0].ref, Refs(rest));
          [cs[0]] + rest
        else [cs[0]] + rest
  }

  /** The filter keeps the registration order: it works piecewise over a concatenation. */
  lemma {:induction false} DropRefsConcat(a: seq<Container>, b: seq<Container>, taken: seq<Ref>)
    ensures DropRefs(a + b, taken) == DropRefs(a, taken) + DropRefs(b, taken)
  {
    if a == [] {
      assert a + b == b;
    } else {
      assert (a + b)[0] == a[0] && (a + b)[1..] == a[1..] + b;
      DropRefsConcat(a[1..], b, taken);
      if a[0].ref !in taken {
        ConsAssoc(a[0], DropRefs(a[1..], taken), DropRefs(b, taken));
      }
    }
  }

  lemma RefsCons(c: Container, cs: seq<Container>)
    ensures Refs([c] + cs) == [c.ref] + Refs(cs)
  {
  }

  /** The reduce of SET_CONTAINER: keep each record unless an earlier one has its ref. */
  function KeepFirstPerRef(acc: seq<Container>, xs: seq<Container>): (r: seq<Container>)
    ensures UniqueRefs(acc) ==> UniqueRefs(r)
    ensures acc <= r
    ensures forall rf :: rf in Refs(r) <==> rf in Refs(acc) || rf in Refs(xs)
    decreases xs
  {
    if xs == [] then acc
    else
      var acc' := if xs[0].ref in Refs(acc) then acc else acc + [xs[0]];
      assert Refs(acc') == if xs[0].ref in Refs(acc) then Refs(acc) else Refs(acc) + [xs[0].ref];
      assert forall rf :: rf in Refs(xs) <==> rf == xs[0].ref || rf in Refs(xs[1..]);
      KeepFirstPerRef(acc', xs[1..])
  }

  lemma {:induction false} DropRefsIgnoresAbsent(ys: seq<Container>, taken: seq<Ref>, rf: Ref)
    requires rf !in Refs(ys)
    ensures DropRefs(ys, taken + [rf]) == DropRefs(ys, taken)
  {
    if ys != [] {
      assert Refs(ys[1..]) == Refs(ys)[1..];
      DropRefsIgnoresAbsent(ys[1..], taken, rf);
    }
  }

  /** Over records with distinct refs, the reduce appends those whose ref is not yet taken. */
  lemma {:induction false} KeepFirstPerRefAppendsFresh(acc: seq<Container>, xs: seq<Container>)
    requires UniqueRefs(xs)
    ensures KeepFirstPerRef(acc, xs) == acc + DropRefs(xs, Refs(acc))
    decreases xs
  {
    if xs == [] {
      assert acc + [] == acc;
    } else {
      assert Refs(xs[1..]) == Refs(xs)[1..];
      KeepFirstPerRefAppendsFresh(if xs[0].ref in Refs(acc) then acc else acc + [xs[0]], xs[1..]);
      if xs[0].ref in Refs(acc) {
        TakenStep(acc, xs);
      } else {
        FreshStep(acc, xs);
      }
    }
  }

  /** One step of the reduce over a record whose ref is already taken. */
  lemma TakenStep(acc: seq<Container>, xs: seq<Container>)
    requires xs != [] && xs[0].ref in Refs(acc)
    requires KeepFirstPerRef(acc, xs[1..]) == acc + DropRefs(xs[1..], Refs(acc))
    ensures KeepFirstPerRef(acc, xs) == acc + DropRefs(xs, Refs(acc))
  {
    assert KeepFirstPerRef(acc, xs) == KeepFirstPerRef(acc, xs[1..]);
    assert DropRefs(xs, Refs(acc)) == DropRefs(xs[1..], Refs(acc));
  }

  /** One step of the reduce over a record whose ref is fresh and occurs nowhere later. */
  lemma FreshStep(acc: seq<Container>, xs: seq<Container>)
    requires xs != [] && xs[0].ref !in Refs(acc) && UniqueRefs(xs)
    requires KeepFirstPerRef(acc + [xs[0]], xs[1..]) == (acc + [xs[0]]) + DropRefs(xs[1..], Refs(acc + [xs[0]]))
    ensures KeepFirstPerRef(acc, xs) == acc + DropRefs(xs, Refs(acc))
  {
    RefsSnoc(acc, xs[0]);
    FreshNotLater(xs);
    DropRefsIgnoresAbsent(xs[1..], Refs(acc), xs[0].ref);
    KeepFresh(acc, xs);
    DropFresh(xs, Refs(acc));
    SnocAssoc(acc, xs[0], DropRefs(xs[1..], Refs(acc)));
  }

  lemma DropFresh(xs: seq<Container>, taken: seq<Ref>)
    requires xs != [] && xs[0].ref !in taken
    ensures DropRefs(xs, taken) == [xs[0]] + DropRefs(xs[1..], taken)
  {
  }

  lemma RefsSnoc(acc: seq<Container>, c: Container)
    ensures Refs(acc + [c]) == Refs(acc) + [c.ref]
  {
  }

  lemma FreshNotLater(xs: seq<Container>)
    requires xs != [] && UniqueRefs(xs)
    ensures xs[0].ref !in Refs(xs[1..])
  {
    assert Refs(xs[1..]) == Refs(xs)[1..];
  }

  lemma KeepFresh(acc: seq<Container>, xs: seq<Container>)
    requires xs != [] && xs[0].ref !in Refs(acc)
    ensures KeepFirstPerRef(acc, xs) == KeepFirstPerRef(acc + [xs[0]], xs[1..])
  {
  }

  /**
   * SET_CONTAINER: the new record goes first and every ref is kept once. The registered
   * refs are the old ones plus the new one; if the old list had distinct refs, the
   * result is the new record followed by the other containers in their old order.
   */
  function RegisterContainer(cs: seq<Container>, c: Container): (r: seq<Container>)
    ensures UniqueRefs(r)
    ensures r != [] && r[0] == c
    ensures forall rf :: rf in Refs(r) <==> rf == c.ref || rf in Refs(cs)
    ensures UniqueRefs(cs) ==> r == [c] + DropRefs(cs, [c.ref])
  {
    assert UniqueRefs([c]);
    RegisterContainerShape(cs, c);
    KeepFirstPerRef([c], cs)
  }

  lemma {:induction false} RegisterContainerShape(cs: seq<Container>, c: Container)
    ensures UniqueRefs(cs) ==> KeepFirstPerRef([c], cs) == [c] + DropRefs(cs, [c.ref])
  {
    if UniqueRefs(cs) {
      KeepFirstPerRefAppendsFresh([c], cs);
      assert Refs([c]) == [c.ref];
    }
  }

  /** Registering the same record twice is registering it once. */
  lemma {:induction false} RegisterContainerIdempotent(cs: seq<Container>, c: Container)
    ensures RegisterContainer(RegisterContainer(cs, c), c) == RegisterContainer(cs, c)
  {
    var once := RegisterContainer(cs, c);
    var rest := once[1..];
    assert once == [c] + rest;
    assert c.ref !in Refs(rest) by {
      var rs := Refs(once);
      assert rs[0] == c.ref;
      assert forall i :: 0 <= i < |rest| ==> Refs(rest)[i] == rs[i + 1];
    }
    DropLeadingRef(c, rest);
  }

  lemma DropLeadingRef(c: Container, rest: seq<Container>)
    requires c.ref !in Refs(rest)
    ensures DropRefs([c] + rest, [c.ref]) == rest
  {
    assert ([c] + rest)[1..] == rest;
    assert [] + [c.ref] == [c.ref];
    DropRefsIgnoresAbsent(rest, [], c.ref);
    DropRefsKeepsAll(rest);
  }

  lemma {:induction false} DropRefsKeepsAll(cs: seq<Container>)
    ensures DropRefs(cs, []) == cs
  {
    if cs != [] {
      DropRefsKeepsAll(cs[1..]);
    }
  }

  // ---------------------------------------------------------------------------
  // Items

  /** The items not owned by container `c`, unchanged. */
  function WithoutOwned(items: map<Key, Item>, c: Ref): (r: map<Key, Item>)
    ensures forall k :: k in r <==> k in items && items[k].containerRef != c
    ensures forall k :: k in r ==> r[k] == items[k]
  {
    map k | k in items && items[k].containerRef != c :: items[k]
  }

  function Stamp(e: ItemEntry, c: Ref): Item {
    Item(e.key, e.ref, c, e.node, None)
  }

  function EntryKeys(es: seq<ItemEntry>): set<Key> {
    set e | e in es :: e.key
  }

  /** The reduce of SET_CONTAINER_ITEMS: each entry, stamped with `c`, stored under its key. */
  function InsertEntries(base: map<Key, Item>, c: Ref, es: seq<ItemEntry>): (r: map<Key, Item>)
    ensures forall k :: k in r <==> k in base || k in EntryKeys(es)
    ensures forall k :: k in r && k !in EntryKeys(es) ==> r[k] == base[k]
    ensures forall k :: k in r && k in EntryKeys(es) ==>
      r[k].containerRef == c && r[k].key == k && r[k].rect.None? &&
      ItemEntry(k, r[k].ref, r[k].node) in es
  {
    if es == [] then base
    else
      var e := Last(es);
      assert es == Init(es) + [e];
      assert EntryKeys(es) == EntryKeys(Init(es)) + {e.key};
      InsertEntries(base, c, Init(es))[e.key := Stamp(e, c)]
  }

  /** REMOVE_CONTAINER_ITEM: the key goes only if the named container owns it. */
  function RemoveOwnedItem(items: map<Key, Item>, key: Key, c: Ref): (r: map<Key, Item>)
    ensures forall k :: k in r <==> k in items && !(k == key && items[k].containerRef == c)
    ensures forall k :: k in r ==> r[k] == items[k]
  {
    if key in items && items[key].containerRef == c then items - {key} else items
  }

  /** A JavaScript value as `===` sees it: `Object.entries` yields string keys, ids are numbers. */
  datatype JsValue = JsNumber(n: int) | JsString(str: string)

  /**
   * REMOVE_CONTAINER_ITEM as written: each entry's key, a string, is compared with `===`
   * against the payload key, which callers pass as the numeric id.
   */
  function RemoveContainerItemAsWritten(items: map<Key, Item>, key: Key, c: Ref): map<Key, Item> {
    map k | k in items && !(JsString(NatToString(k)) == JsNumber(key) && items[k].containerRef == c) :: items[k]
  }

  /** As written the action never removes anything, even the owned item it names. */
  lemma RemoveContainerItemAsWrittenIsNoop(items: map<Key, Item>, key: Key, c: Ref)
    ensures RemoveContainerItemAsWritten(items, key, c) == items
    ensures key in items && items[key].containerRef == c ==> key !in RemoveOwnedItem(items, key, c)
  {
  }

  // ---------------------------------------------------------------------------
  // Measurement

  predicate ContainersMounted(cs: seq<Container>, layout: Layout) {
    forall i :: 0 <= i < |cs| ==> cs[i].ref in layout
  }

  predicate ItemsMounted(items: map<Key, Item>, layout: Layout) {
    forall k :: k in items ==> items[k].ref in layout
  }

  /** `containers.map(e => ({...e, rect: getElPageRect(e.ref.current)}))` */
  function MeasureContainers(cs: seq<Container>, layout: Layout): (r: Result<seq<Container>>)
    ensures r.Ok? <==> ContainersMounted(cs, layout)
    ensures r.Ok? ==> (|r.value| == |cs| && Refs(r.value) == Refs(cs) &&
      forall i :: 0 <= i < |cs| ==> r.value[i].rect == Some(layout[cs[i].ref]))
  {
    if ContainersMounted(cs, layout) then
      Ok(seq(|cs|, i requires 0 <= i < |cs| => cs[i].(rect := Some(layout[cs[i].ref]))))
    else Err(TypeError)
  }

  /** Every item re-measured, as BEGIN_SELECTION and CALC_RECT do. */
  function MeasureItems(items: map<Key, Item>, layout: Layout): (r: Result<map<Key, Item>>)
    ensures r.Ok? <==> ItemsMounted(items, layout)
    ensures r.Ok? ==> (r.value.Keys == items.Keys &&
      forall k :: k in items ==> r.value[k] == items[k].(rect := Some(layout[items[k].ref])))
  {
    if ItemsMounted(items, layout) then
      Ok(map k | k in items :: items[k].(rect := Some(layout[items[k].ref])))
    else Err(TypeError)
  }

  // ---------------------------------------------------------------------------
  // Drag begin: the ghost stack

  /**
   * The reduce of BEGIN_DRAG over the items in enumeration order: the dragged item's node
   * is put in front, every other selected item's node at the back.
   */
  function ShadowFold(items: map<Key, Item>, order: seq<Key>, dragged: Key, selected: seq<Key>): seq<Props>
    requires forall k :: k in order ==> k in items
  {
    if order == [] then []
    else
      var acc := ShadowFold(items, Init(order), dragged, selected);
      var it := items[Last(order)];
      if it.key == dragged then [it.node] + acc
      else if it.key in selected then acc + [it.node]
      else acc
  }

  /** The selected keys other than the dragged one, in enumeration order. */
  function SelectedKeys(order: seq<Key>, dragged: Key, selected: seq<Key>): (r: seq<Key>)
    ensures forall k :: k in r <==> k in order && k != dragged && k in selected
    ensures NoDup(order) ==> NoDup(r)
  {
    if order == [] then []
    else
      var acc := SelectedKeys(Init(order), dragged, selected);
      var k := Last(order);
      assert order == Init(order) + [k];
      if k != dragged && k in selected then acc + [k] else acc
  }

  /** The nodes of the selected items other than the dragged one, in enumeration order. */
  function SelectedNodes(items: map<Key, Item>, order: seq<Key>, dragged: Key, selected: seq<Key>): (r: seq<Props>)
    requires forall k :: k in order ==> k in items
    ensures |r| == |SelectedKeys(order, dragged, selected)|
  {
    if order == [] then []
    else
      var acc := SelectedNodes(items, Init(order), dragged, selected);
      var k := Last(order);
      if k != dragged && k in selected then acc + [items[k].node] else acc
  }

  /** The ghost stack, top-most last: the first `MaxStackSize` of the fold, reversed. */
  function Shadows(items: map<Key, Item>, dragged: Key, selected: seq<Key>): seq<Props> {
    var all := ShadowFold(items, SortedKeys(items.Keys), dragged, selected);
    Reverse(all[..Min(MaxStackSize, |all|)])
  }

  /** The fold is the dragged node (when registered) followed by the other selected nodes. */
  lemma {:induction false} ShadowFoldShape(items: map<Key, Item>, order: seq<Key>, dragged: Key, selected: seq<Key>)
    requires WellKeyed(items) && NoDup(order)
    requires forall k :: k in order ==> k in items
    ensures ShadowFold(items, order, dragged, selected) ==
      (if dragged in order then [items[dragged].node] else []) + SelectedNodes(items, order, dragged, selected)
  {
    if order != [] {
      var p, k := Init(order), Last(order);
      NoDupInit(order);
      ShadowFoldShape(items, p, dragged, selected);
      assert order == p + [k];
      var head := if dragged in p then [items[dragged].node] else [];
      var mid := SelectedNodes(items, p, dragged, selected);
      if k == dragged {
        assert head == [];
      } else if k in selected {
        assert (dragged in order) == (dragged in p);
        assert (head + mid) + [items[k].node] == head + (mid + [items[k].node]);
      } else {
        assert (dragged in order) == (dragged in p);
      }
    }
  }

  // ---------------------------------------------------------------------------
  // The reducer

  predicate MeasurementFails(s: State, a: Action) {
    match a
    case BeginSelection(_, _, _, layout) => !ItemsMounted(s.items, layout)
    case BeginDrag(_, _, _, _, layout) => !ContainersMounted(s.containers, layout)
    case CalcRect(layout) => !ContainersMounted(s.containers, layout) || !ItemsMounted(s.items, layout)
    case _ => false
  }

  /** BEGIN_SELECTION: re-measure every item, record the start point, and clear the selection on a plain press on a container root. */
  function BeginSelectionStep(s: State, point: Point, appendMode: bool, onContainerRoot: bool, layout: Layout): (r: Result<State>)
    ensures r.Err? <==> !ItemsMounted(s.items, layout)
    ensures r.Ok? ==>
      r.value.startPoint == Some(point) && r.value.containers == s.containers &&
      r.value.selected == (if !appendMode && onContainerRoot then [] else s.selected)
  {
    match MeasureItems(s.items, layout)
    case Err(e) => Err(e)
    case Ok(measured) =>
      Ok(s.(startPoint := Some(point),
            selected := if !appendMode && onContainerRoot then [] else s.selected,
            items := measured))
  }

  /** BEGIN_DRAG: the ghost stack, the de-duplicated moving list, and the containers re-measured. */
  function BeginDragStep(s: State, ref: Ref, start: Point, dragOffset: Point, dragged: Key, layout: Layout): (r: Result<State>)
    ensures r.Err? <==> !ContainersMounted(s.containers, layout)
  {
    var shadows := Shadows(s.items, dragged, s.selected);
    var selected := Dedup([dragged] + s.selected);
    match MeasureContainers(s.containers, layout)
    case Err(e) => Err(e)
    case Ok(measured) =>
      Ok(s.(selected := selected, containers := measured,
            drag := Some(Drag(ref, start, dragOffset, dragged, shadows, selected))))
  }

  /** CALC_RECT: containers and items re-measured. */
  function CalcRectStep(s: State, layout: Layout): (r: Result<State>)
    ensures r.Err? <==> !ContainersMounted(s.containers, layout) || !ItemsMounted(s.items, layout)
  {
    match MeasureContainers(s.containers, layout)
    case Err(e) => Err(e)
    case Ok(cs) =>
      match MeasureItems(s.items, layout)
      case Err(e) => Err(e)
      case Ok(items) => Ok(s.(containers := cs, items := items))
  }

  /**
   * `reducer(state, action)`. It throws for an unknown action type and when a measuring
   * action meets an unmounted element; otherwise it yields the next state.
   */
  function Reduce(s: State, a: Action): (r: Result<State>)
    ensures r.Err? <==> a.Unhandled? || MeasurementFails(s, a)
    ensures a.Unhandled? ==> r == Err(UnhandledAction)
  {
    match a
    case SetContainer(ref, onAdd, onRemove, priority) =>
      var p := match priority case Some(v) => v case None => DefaultPriority;
      Ok(s.(containers := RegisterContainer(s.containers, Container(ref, onAdd, onRemove, p, None))))
    case RemoveContainer(ref) =>
      Ok(s.(containers := DropRefs(s.containers, [ref]), items := WithoutOwned(s.items, ref)))
    case SetContainerItems(c, entries) =>
      Ok(s.(items := InsertEntries(WithoutOwned(s.items, c), c, entries)))
    case AddContainerItem(key, ref, c, node) =>
      Ok(s.(items := s.items[key := Item(key, ref, c, node, None)]))
    case RemoveContainerItem(key, c) =>
      Ok(s.(items := RemoveOwnedItem(s.items, key, c)))
    case BeginSelection(point, appendMode, onContainerRoot, layout) =>
      BeginSelectionStep(s, point, appendMode, onContainerRoot, layout)
    case EndSelection =>
      Ok(s.(startPoint := None))
    case SetSelected(keys) =>
      Ok(s.(selected := keys))
    case AddSelect(key) =>
      if key in s.selected then Ok(s) else Ok(s.(selected := s.selected + [key]))
    case RemoveSelect(key) =>
      Ok(s.(selected := Without(s.selected, key)))
    case BeginDrag(ref, start, dragOffset, dragged, layout) =>
      BeginDragStep(s, ref, start, dragOffset, dragged, layout)
    case EndDrag =>
      Ok(s.(drag := None, highlighted := None))
    case CalcRect(layout) =>
      CalcRectStep(s, layout)
    case SetHighlighted(target) =>
      Ok(s.(highlighted := target))
    case Unhandled(_) =>
      Err(UnhandledAction)
  }

  // ---------------------------------------------------------------------------
  // What the reducer guarantees

  /** Container refs stay distinct and every item stays under its own key. */
  lemma ReducePreservesWellFormed(s: State, a: Action)
    requires WellFormed(s)
    ensures Reduce(s, a).Ok? ==> WellFormed(Reduce(s, a).value)
  {
  }

  /**
   * A duplicate-free selection stays duplicate-free under every action, provided a
   * SET_SELECTED payload is itself duplicate-free.
   */
  lemma SelectionStaysDuplicateFree(s: State, a: Action)
    requires NoDup(s.selected)
    requires a.SetSelected? ==> NoDup(a.keys)
    ensures Reduce(s, a).Ok? ==> NoDup(Reduce(s, a).value.selected)
  {
    if a.AddSelect? && a.key !in s.selected {
      assert NoDup(s.selected + [a.key]);
    }
  }

  /**
   * ADD_SELECT leaves the state as it was when the key is already selected and otherwise
   * appends the key; REMOVE_SELECT drops every occurrence of the key and nothing else.
   */
  lemma SelectToggles(s: State, key: Key)
    ensures key in s.selected ==> Reduce(s, AddSelect(key)) == Ok(s)
    ensures key !in s.selected ==> Reduce(s, AddSelect(key)) == Ok(s.(selected := s.selected + [key]))
    ensures Reduce(s, RemoveSelect(key)).Ok? &&
      var t := Reduce(s, RemoveSelect(key)).value;
      key !in t.selected && (forall k :: k != key ==> (k in t.selected <==> k in s.selected)) &&
      t.selected == Without(s.selected, key) && t == s.(selected := t.selected)
  {
  }

  /**
   * REMOVE_CONTAINER removes the container with that ref and every item it owns; all
   * other containers and items are unchanged. The selection, the drag, the start point
   * and the highlight are not touched, so a removed container can stay highlighted.
   */
  lemma RemoveContainerCascades(s: State, ref: Ref)
    ensures Reduce(s, RemoveContainer(ref)).Ok?
    ensures var t := Reduce(s, RemoveContainer(ref)).value;
      ref !in Refs(t.containers) && t.containers == DropRefs(s.containers, [ref]) &&
      (forall c :: c in t.containers <==> c in s.containers && c.ref != ref) &&
      OwnedKeys(t.items, ref) == {} &&
      (forall k :: k in t.items <==> k in s.items && s.items[k].containerRef != ref) &&
      (forall k :: k in t.items ==> t.items[k] == s.items[k]) &&
      t.selected == s.selected && t.drag == s.drag && t.startPoint == s.startPoint &&
      t.highlighted == s.highlighted
  {
  }

  /**
   * SET_CONTAINER_ITEMS replaces what the container owns: afterwards it owns exactly the
   * given keys, each stored from one of the given entries; items of other containers
   * whose keys are not among the entries are unchanged.
   */
  lemma SetContainerItemsReplaces(s: State, c: Ref, entries: seq<ItemEntry>)
    ensures Reduce(s, SetContainerItems(c, entries)).Ok?
    ensures var t := Reduce(s, SetContainerItems(c, entries)).value;
      OwnedKeys(t.items, c) == EntryKeys(entries) &&
      (forall k :: k in EntryKeys(entries) ==>
         k in t.items && t.items[k].key == k && ItemEntry(k, t.items[k].ref, t.items[k].node) in entries) &&
      (forall k :: k in s.items && s.items[k].containerRef != c && k !in EntryKeys(entries) ==>
         k in t.items && t.items[k] == s.items[k]) &&
      t.containers == s.containers && t.selected == s.selected
  {
    var t := Reduce(s, SetContainerItems(c, entries)).value;
    var base := WithoutOwned(s.items, c);
    assert forall k :: k in OwnedKeys(t.items, c) ==> k in EntryKeys(entries);
  }

  /**
   * REMOVE_CONTAINER_ITEM, in the reducer's corrected form (`RemoveOwnedItem`), deletes the
   * key only when the named container owns it.
   */
  lemma RemoveContainerItemOnlyOwned(s: State, key: Key, c: Ref)
    ensures Reduce(s, RemoveContainerItem(key, c)).Ok?
    ensures var t := Reduce(s, RemoveContainerItem(key, c)).value;
      (key in s.items && s.items[key].containerRef == c ==> key !in t.items) &&
      (forall k :: k in s.items && !(k == key && s.items[k].containerRef == c) ==>
         k in t.items && t.items[k] == s.items[k]) &&
      t.items.Keys <= s.items.Keys
  {
  }

  /**
   * BEGIN_DRAG seeds the moving set from the selection: the dragged key first, then the
   * previous selection without duplicates, and the same list becomes the selection.
   */
  lemma BeginDragSeedsFromSelection(s: State, ref: Ref, start: Point, offset: Point, dragged: Key, layout: Layout)
    requires ContainersMounted(s.containers, layout)
    ensures Reduce(s, BeginDrag(ref, start, offset, dragged, layout)).Ok?
    ensures var t := Reduce(s, BeginDrag(ref, start, offset, dragged, layout)).value;
      t.drag.Some? && t.drag.value.items == t.selected &&
      t.selected != [] && t.selected[0] == dragged && NoDup(t.selected) &&
      (forall k :: k in t.selected <==> k == dragged || k in s.selected) &&
      (NoDup(s.selected) ==> t.selected == [dragged] + Without(s.selected, dragged))
  {
    var selected := Dedup([dragged] + s.selected);
    var t := Reduce(s, BeginDrag(ref, start, offset, dragged, layout));
    assert t == BeginDragStep(s, ref, start, offset, dragged, layout);
    assert t.Ok? && t.value.selected == selected && t.value.drag.Some? && t.value.drag.value.items == selected;
    assert ([dragged] + s.selected)[0] == dragged;
    assert forall k :: k in [dragged] + s.selected <==> k == dragged || k in s.selected;
    if NoDup(s.selected) {
      DedupFront(dragged, s.selected);
    }
  }

  /**
   * The ghost stack holds at most `MaxStackSize` nodes, and the dragged item's node, when
   * that item is registered, is the last one: it is drawn on top.
   */
  lemma ShadowStackBounded(s: State, ref: Ref, start: Point, offset: Point, dragged: Key, layout: Layout)
    requires WellKeyed(s.items)
    requires ContainersMounted(s.containers, layout)
    ensures Reduce(s, BeginDrag(ref, start, offset, dragged, layout)).Ok?
    ensures var d := Reduce(s, BeginDrag(ref, start, offset, dragged, layout)).value.drag.value;
      |d.shadows| <= MaxStackSize &&
      (dragged in s.items ==> d.shadows != [] && Last(d.shadows) == s.items[dragged].node)
  {
    var order := SortedKeys(s.items.Keys);
    assert Reduce(s, BeginDrag(ref, start, offset, dragged, layout)) == BeginDragStep(s, ref, start, offset, dragged, layout);
    ShadowFoldShape(s.items, order, dragged, s.selected);
  }

  /**
   * When every moving key is registered and the selection is duplicate-free, the ghost
   * stack has exactly `min(N, MaxStackSize)` nodes for `N` moving items.
   */
  lemma ShadowStackSize(s: State, ref: Ref, start: Point, offset: Point, dragged: Key, layout: Layout)
    requires WellKeyed(s.items) && NoDup(s.selected)
    requires ContainersMounted(s.containers, layout)
    requires dragged in s.items && forall k :: k in s.selected ==> k in s.items
    ensures Reduce(s, BeginDrag(ref, start, offset, dragged, layout)).Ok?
    ensures var d := Reduce(s, BeginDrag(ref, start, offset, dragged, layout)).value.drag.value;
      |d.shadows| == Min(MaxStackSize, |d.items|)
  {
    assert Reduce(s, BeginDrag(ref, start, offset, dragged, layout)) == BeginDragStep(s, ref, start, offset, dragged, layout);
    DedupFront(dragged, s.selected);
    ShadowsCount(s.items, dragged, s.selected);
  }

  lemma ShadowsCount(items: map<Key, Item>, dragged: Key, selected: seq<Key>)
    requires WellKeyed(items) && NoDup(selected)
    requires dragged in items && forall k :: k in selected ==> k in items
    ensures |Shadows(items, dragged, selected)| == Min(MaxStackSize, 1 + |Without(selected, dragged)|)
  {
    var order := SortedKeys(items.Keys);
    ShadowFoldShape(items, order, dragged, selected);
    var others := SelectedKeys(order, dragged, selected);
    var rest := Without(selected, dragged);
    SameElemsSameLength(others, rest);
    assert |ShadowFold(items, order, dragged, selected)| == 1 + |rest|;
  }

  /** END_DRAG ends the session and clears the highlight, and changes nothing else. */
  lemma EndDragClears(s: State)
    ensures Reduce(s, EndDrag) == Ok(s.(drag := None, highlighted := None))
  {
  }

  /**
   * Register a container, hand it its items, unregister it: the container is gone and no
   * item is left for it, whatever the registry held before.
   */
  lemma RegisterThenUnregister(s: State, c: Ref, onAdd: HandlerId, onRemove: HandlerId, entries: seq<ItemEntry>)
    ensures
      var t1 := Reduce(s, SetContainer(c, onAdd, onRemove, None));
      t1.Ok? &&
      var t2 := Reduce(t1.value, SetContainerItems(c, entries));
      t2.Ok? && OwnedKeys(t2.value.items, c) == EntryKeys(entries) &&
      var t3 := Reduce(t2.value, RemoveContainer(c));
      t3.Ok? && c !in Refs(t3.value.containers) && OwnedKeys(t3.value.items, c) == {}
  {
    var t1 := Reduce(s, SetContainer(c, onAdd, onRemove, None)).value;
    SetContainerItemsReplaces(t1, c, entries);
    var t2 := Reduce(t1, SetContainerItems(c, entries)).value;
    RemoveContainerCascades(t2, c);
  }

  /** `getSelectedItems(state)`: the item of every selected key, `undefined` for a stale one. */
  function SelectedItems(s: State): (r: seq<Option<Item>>)
    ensures |r| == |s.selected|
    ensures forall i :: 0 <= i < |r| ==> (r[i].Some? <==> s.selected[i] in s.items)
    ensures forall i :: 0 <= i < |r| && r[i].Some? ==> r[i].value == s.items[s.selected[i]]
  {
    seq(|s.selected|, i requires 0 <= i < |s.selected| =>
      if s.selected[i] in s.items then Some(s.items[s.selected[i]]) else None)
  }
}
