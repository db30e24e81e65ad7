/**
 * Drop resolution (`DragController` in src/DragSelectable/Providers/DragProvider.js):
 * choosing the container under the pointer, the highlight that follows the pointer, and
 * the release that offers the moving items to the target and prepares, but does not run,
 * the removals from their sources.
 */
module Drop {
  import opened Wrappers
  import opened Elements
  import opened Geometry
  import opened Seqs
  import opened Store

  // ---------------------------------------------------------------------------
  // The container under the pointer

  /** The container was measured and strictly contains the point. */
  predicate Contains(c: Container, pos: Point) {
    c.rect.Some? && Intersects(pos, c.rect.value)
  }

  /**
   * Index form of `getSelectedContainer`: filter by the strict hit test, stable sort by
   * descending priority, take the head. Walking the list and replacing the candidate only
   * on a strictly larger priority gives the same head. A container without a rect makes the
   * hit test throw.
   */
  function SelectedIndex(cs: seq<Container>, pos: Point): (r: Result<Option<nat>>)
    ensures r.Err? <==> exists i :: 0 <= i < |cs| && cs[i].rect.None?
    ensures r.Err? ==> r.error == TypeError
    ensures r.Ok? && r.value.None? ==> forall j :: 0 <= j < |cs| ==> !Contains(cs[j], pos)
    ensures r.Ok? && r.value.Some? ==> (
      var i := r.value.value;
      i < |cs| && Contains(cs[i], pos) &&
      (forall j :: 0 <= j < i && Contains(cs[j], pos) ==> cs[j].priority < cs[i].priority) &&
      (forall j :: i < j < |cs| && Contains(cs[j], pos) ==> cs[j].priority <= cs[i].priority))
  {
    if cs == [] then Ok(None)
    else
      var n := |cs| - 1;
      assert forall j :: 0 <= j < n ==> Init(cs)[j] == cs[j];
      match SelectedIndex(Init(cs), pos)
      case Err(e) => Err(e)
      case Ok(best) =>
        if cs[n].rect.None? then Err(TypeError)
        else if Contains(cs[n], pos) && (best.None? || cs[n].priority > cs[best.value].priority) then Ok(Some(n))
        else Ok(best)
  }

  /** `getSelectedContainer(containers, mousePos)`; `None` is the `undefined` of an empty filter. */
  function SelectedContainer(cs: seq<Container>, pos: Point): (r: Result<Option<Container>>)
    ensures r.Ok? && r.value.Some? ==> r.value.value in cs && Contains(r.value.value, pos)
  {
    match SelectedIndex(cs, pos)
    case Err(e) => Err(e)
    case Ok(None) => Ok(None)
    case Ok(Some(i)) => Ok(Some(cs[i]))
  }

  /** Every container has been measured. */
  predicate AllMeasured(cs: seq<Container>) {
    forall i :: 0 <= i < |cs| ==> cs[i].rect.Some?
  }

  /**
   * A container of strictly highest priority among those under the pointer is chosen,
   * wherever it sits in the list: a priority-5 overlay above a default-priority (0) container.
   */
  lemma HighestPriorityWins(cs: seq<Container>, pos: Point, i: nat)
    requires AllMeasured(cs) && i < |cs| && Contains(cs[i], pos)
    requires forall j :: 0 <= j < |cs| && j != i && Contains(cs[j], pos) ==> cs[j].priority < cs[i].priority
    ensures SelectedContainer(cs, pos) == Ok(Some(cs[i]))
  {
    var r := SelectedIndex(cs, pos);
    assert r.Ok?;
    assert r.value.Some?;
  }

  /** Among equal priorities the earliest registered record in list order wins. */
  lemma FirstWinsTies(cs: seq<Container>, pos: Point, i: nat, j: nat)
    requires AllMeasured(cs) && i < j < |cs| && Contains(cs[i], pos) && Contains(cs[j], pos)
    requires cs[i].priority == cs[j].priority
    requires forall k :: 0 <= k < |cs| && Contains(cs[k], pos) ==> cs[k].priority <= cs[i].priority
    ensures SelectedIndex(cs, pos).Ok? && SelectedIndex(cs, pos).value.Some? &&
            SelectedIndex(cs, pos).value.value <= i
  {
    var r := SelectedIndex(cs, pos);
    assert r.Ok?;
    assert r.value.Some?;
  }

  // ---------------------------------------------------------------------------
  // The pieces of a release

  /** `containers.find(({ref}) => ref === r)` */
  function FindContainer(cs: seq<Container>, r: Ref): (c: Option<Container>)
    ensures c.Some? <==> r in Refs(cs)
    ensures c.Some? ==> c.value in cs && c.value.ref == r
  {
    if cs == [] then None
    else if cs[0].ref == r then Some(cs[0])
    else
      assert Refs(cs) == [cs[0].ref] + Refs(cs[1..]);
      FindContainer(cs[1..], r)
  }

  /** `state.drag.items.map(key => state.items[key])`; an unregistered key yields `undefined`, which the next step destructures. */
  function MovingItems(items: map<Key, Item>, keys: seq<Key>): (r: Result<seq<Item>>)
    ensures r.Ok? <==> forall k :: k in keys ==> k in items
    ensures r.Ok? ==> |r.value| == |keys| && forall i :: 0 <= i < |keys| ==> r.value[i] == items[keys[i]]
  {
    if forall k :: k in keys ==> k in items then
      Ok(seq(|keys|, i requires 0 <= i < |keys| => items[keys[i]]))
    else Err(TypeError)
  }

  /** The owners of the moving items, one per item. */
  function Owners(moving: seq<Item>): (r: seq<Ref>)
    ensures |r| == |moving| && forall i :: 0 <= i < |moving| ==> r[i] == moving[i].containerRef
  {
    seq(|moving|, i requires 0 <= i < |moving| => moving[i].containerRef)
  }

  /**
   * The `reduce` that collects the source containers: each owner once, in order of first
   * appearance, never the target.
   */
  function Sources(moving: seq<Item>, target: Ref): (r: seq<Ref>)
    ensures NoDup(r)
    ensures forall c :: c in r <==> c != target && c in Owners(moving)
  {
    if moving == [] then []
    else
      var acc := Sources(Init(moving), target);
      var o := Last(moving).containerRef;
      assert Owners(moving) == Owners(Init(moving)) + [o];
      if o in acc || o == target then acc else acc + [o]
  }

  /** The payloads (`node.props`) of the moving items owned by `c`, in order. */
  function PayloadsFrom(moving: seq<Item>, c: Ref): (r: seq<Props>)
    ensures r == [] <==> c !in Owners(moving)
  {
    if moving == [] then []
    else
      var it := Last(moving);
      assert Owners(moving) == Owners(Init(moving)) + [it.containerRef];
      PayloadsFrom(Init(moving), c) + (if it.containerRef == c then [it.node] else [])
  }

  /** The payloads of the moving items not owned by `c`, in order: the add-set. */
  function PayloadsNotFrom(moving: seq<Item>, c: Ref): (r: seq<Props>)
    ensures r == [] <==> forall i :: 0 <= i < |moving| ==> moving[i].containerRef == c
  {
    if moving == [] then []
    else
      var it := Last(moving);
      assert forall i :: 0 <= i < |moving| - 1 ==> Init(moving)[i] == moving[i];
      PayloadsNotFrom(Init(moving), c) + (if it.containerRef != c then [it.node] else [])
  }

  /** The payloads of the moving items, in order. */
  function Payloads(moving: seq<Item>): seq<Props> {
    if moving == [] then [] else Payloads(Init(moving)) + [Last(moving).node]
  }

  /** Every moving payload goes either to the target's owner side or to the add-set, once. */
  lemma {:induction false} PayloadsPartition(moving: seq<Item>, c: Ref)
    ensures multiset(PayloadsFrom(moving, c)) + multiset(PayloadsNotFrom(moving, c)) == multiset(Payloads(moving))
  {
    if moving != [] {
      PayloadsPartition(Init(moving), c);
    }
  }

  /** A prepared `container.onRemove(removeItems)`; `container` is `None` when the source is no longer registered. */
  datatype RemoveCall = RemoveCall(source: Ref, container: Option<Container>, items: seq<Props>)

  /** The `confirm` continuation handed to the target: the prepared removals, not yet run. */
  datatype PendingMove = PendingMove(removals: seq<RemoveCall>)

  /** `targetCotainer.onAdd(addItems, confirm)` */
  datatype AddCall = AddCall(onAdd: HandlerId, items: seq<Props>, confirm: PendingMove)

  /** What a release does: the store actions dispatched, in order, the `onAdd` call made, and a throw. */
  datatype DropOutcome = DropOutcome(dispatched: seq<Action>, add: Option<AddCall>, error: Option<JsError>)

  /** The sources of prepared removals, in order. */
  function SourceRefs(rs: seq<RemoveCall>): (r: seq<Ref>)
    ensures |r| == |rs| && forall i :: 0 <= i < |rs| ==> r[i] == rs[i].source
  {
    seq(|rs|, i requires 0 <= i < |rs| => rs[i].source)
  }

  /**
   * The `forEach` over the sources that fills `removeCalls`: one call per source that owns
   * a moving item, in source order.
   */
  function Removals(cs: seq<Container>, moving: seq<Item>, srcs: seq<Ref>): (r: seq<RemoveCall>)
    ensures |r| <= |srcs|
    ensures forall c :: c in SourceRefs(r) <==> c in srcs && c in Owners(moving)
    ensures NoDup(srcs) ==> NoDup(SourceRefs(r))
    ensures forall i :: 0 <= i < |r| ==>
      r[i].items != [] && r[i].container == FindContainer(cs, r[i].source) && r[i].items == PayloadsFrom(moving, r[i].source)
  {
    if srcs == [] then []
    else
      var acc := Removals(cs, moving, Init(srcs));
      var src := Last(srcs);
      var items := PayloadsFrom(moving, src);
      assert srcs == Init(srcs) + [src];
      if |items| > 0 then
        var r := acc + [RemoveCall(src, FindContainer(cs, src), items)];
        assert SourceRefs(r) == SourceRefs(acc) + [src];
        r
      else acc
  }

  /**
   * `onMouseUp` over the store snapshot `s` the handler closed over. END_DRAG always goes
   * first; without a container under the pointer nothing else happens; otherwise the target
   * is offered the items it does not own, with the removals from their owners held back in
   * the confirm continuation, and SET_SELECTED [] follows when anything was to move. The
   * target's `onAdd` is foreign code: `thrown` is what it throws, if anything, and a throw
   * escapes the handler before SET_SELECTED is dispatched.
   */
  function MouseUp(s: State, pos: Point, thrown: Option<JsError>): DropOutcome
    requires s.drag.Some?
  {
    match SelectedContainer(s.containers, pos)
    case Err(e) => DropOutcome([EndDrag], None, Some(e))
    case Ok(None) => DropOutcome([EndDrag], None, None)
    case Ok(Some(target)) =>
      match MovingItems(s.items, s.drag.value.items)
      case Err(e) => DropOutcome([EndDrag], None, Some(e))
      case Ok(moving) =>
        var removals := Removals(s.containers, moving, Sources(moving, target.ref));
        var targetContainer := FindContainer(s.containers, target.ref).value;
        var addItems := PayloadsNotFrom(moving, targetContainer.ref);
        var wasModified := |removals| > 0 || |addItems| > 0;
        var add := if |addItems| > 0 then Some(AddCall(targetContainer.onAdd, addItems, PendingMove(removals))) else None;
        if add.Some? && thrown.Some? then DropOutcome([EndDrag], add, thrown)
        else DropOutcome([EndDrag] + (if wasModified then [SetSelected([])] else []), add, None)
  }

  /** The release handler, with the `forEach` and the `wasModified` flag of the source. */
  method OnMouseUp(s: State, pos: Point, thrown: Option<JsError>) returns (out: DropOutcome)
    requires s.drag.Some?
    ensures out == MouseUp(s, pos, thrown)
  {
    var dispatched := [EndDrag];
    var found := SelectedContainer(s.containers, pos);
    if found.Err? {
      return DropOutcome(dispatched, None, Some(found.error));
    }
    if found.value.None? {
      return DropOutcome(dispatched, None, None);
    }
    var target := found.value.value;
    var containerItems := MovingItems(s.items, s.drag.value.items);
    if containerItems.Err? {
      return DropOutcome(dispatched, None, Some(containerItems.error));
    }
    var moving := containerItems.value;
    var removeCalls, wasModified := PrepareRemovals(s.containers, moving, Sources(moving, target.ref));
    var targetContainer := FindContainer(s.containers, target.ref).value;
    var addItems := PayloadsNotFrom(moving, targetContainer.ref);
    var add: Option<AddCall> := None;
    if |addItems| > 0 {
      wasModified := true;
      add := Some(AddCall(targetContainer.onAdd, addItems, PendingMove(removeCalls)));
      if thrown.Some? {
        return DropOutcome(dispatched, add, thrown);
      }
    }
    if wasModified {
      dispatched := dispatched + [SetSelected([])];
    }
    out := DropOutcome(dispatched, add, None);
  }

  /** The `forEach` of `onMouseUp` that fills `removeCalls` and raises `wasModified`. */
  method PrepareRemovals(cs: seq<Container>, moving: seq<Item>, containers: seq<Ref>)
    returns (removeCalls: seq<RemoveCall>, wasModified: bool)
    ensures removeCalls == Removals(cs, moving, containers)
    ensures wasModified <==> removeCalls != []
  {
    wasModified := false;
    removeCalls := [];
    for i := 0 to |containers|
      invariant removeCalls == Removals(cs, moving, containers[..i])
      invariant wasModified <==> removeCalls != []
    {
      assert Init(containers[..i + 1]) == containers[..i];
      var containerRef := containers[i];
      var container := FindContainer(cs, containerRef);
      var removeItems := PayloadsFrom(moving, containerRef);
      if |removeItems| > 0 {
        wasModified := true;
        removeCalls := removeCalls + [RemoveCall(containerRef, container, removeItems)];
      }
    }
    assert containers[..|containers|] == containers;
  }

  // ---------------------------------------------------------------------------
  // The confirm step

  /** An `onRemove(items)` invocation. */
  datatype Invocation = Invocation(handler: HandlerId, items: seq<Props>)

  /** The calls a confirm made, and the error it stopped at. */
  datatype ConfirmRun = ConfirmRun(calls: seq<Invocation>, error: Option<JsError>)

  /**
   * `removeCalls.forEach(fn => fn())`: the prepared removals run in order; one whose
   * source is no longer registered throws, and the ones after it do not run.
   */
  function Confirm(rs: seq<RemoveCall>): (r: ConfirmRun)
    ensures r.error.None? <==> forall i :: 0 <= i < |rs| ==> rs[i].container.Some?
    ensures r.error.Some? ==> r.error == Some(TypeError) && |r.calls| < |rs| && rs[|r.calls|].container.None?
    ensures |r.calls| <= |rs| && forall i :: 0 <= i < |r.calls| ==>
      rs[i].container.Some? && r.calls[i] == Invocation(rs[i].container.value.onRemove, rs[i].items)
    ensures r.error.None? ==> |r.calls| == |rs|
  {
    if rs == [] then ConfirmRun([], None)
    else
      match rs[0].container
      case None => ConfirmRun([], Some(TypeError))
      case Some(c) =>
        var rest := Confirm(rs[1..]);
        ConfirmRun([Invocation(c.onRemove, rs[0].items)] + rest.calls, rest.error)
  }

  /** All payloads handed to the given `onRemove` calls. */
  function Removed(calls: seq<Invocation>): multiset<Props> {
    if calls == [] then multiset{} else Removed(Init(calls)) + multiset(Last(calls).items)
  }

  /** All payloads of the prepared removals. */
  function Planned(rs: seq<RemoveCall>): multiset<Props> {
    if rs == [] then multiset{} else Planned(Init(rs)) + multiset(Last(rs).items)
  }

  /** The payloads the moving items owned by each of `srcs` contribute. */
  function FromSources(moving: seq<Item>, srcs: seq<Ref>): multiset<Props> {
    if srcs == [] then multiset{} else FromSources(moving, Init(srcs)) + multiset(PayloadsFrom(moving, Last(srcs)))
  }

  lemma {:induction false} RemovedIsPlanned(calls: seq<Invocation>, rs: seq<RemoveCall>)
    requires |calls| == |rs| && forall i :: 0 <= i < |rs| ==> calls[i].items == rs[i].items
    ensures Removed(calls) == Planned(rs)
  {
    if rs != [] {
      RemovedIsPlanned(Init(calls), Init(rs));
    }
  }

  lemma {:induction false} PlannedFromSources(cs: seq<Container>, moving: seq<Item>, srcs: seq<Ref>)
    ensures Planned(Removals(cs, moving, srcs)) == FromSources(moving, srcs)
  {
    if srcs != [] {
      PlannedFromSources(cs, moving, Init(srcs));
      var acc := Removals(cs, moving, Init(srcs));
      var items := PayloadsFrom(moving, Last(srcs));
      if |items| > 0 {
        var r := acc + [RemoveCall(Last(srcs), FindContainer(cs, Last(srcs)), items)];
        assert Init(r) == acc;
      }
    }
  }

  /** One more moving item adds its payload to its owner's share, if its owner is among `srcs`. */
  lemma {:induction false} FromSourcesGrow(moving: seq<Item>, it: Item, srcs: seq<Ref>)
    requires NoDup(srcs)
    ensures FromSources(moving + [it], srcs) ==
      FromSources(moving, srcs) + (if it.containerRef in srcs then multiset{it.node} else multiset{})
  {
    if srcs != [] {
      NoDupInit(srcs);
      FromSourcesGrow(moving, it, Init(srcs));
      PayloadsFromSnoc(moving, it, Last(srcs));
      FromSourcesUnfold(moving + [it], srcs);
      FromSourcesUnfold(moving, srcs);
      InitOrLast(srcs, it.containerRef);
    }
  }

  lemma FromSourcesUnfold(moving: seq<Item>, srcs: seq<Ref>)
    requires srcs != []
    ensures FromSources(moving, srcs) == FromSources(moving, Init(srcs)) + multiset(PayloadsFrom(moving, Last(srcs)))
  {
  }

  /** One more moving item adds its payload to its owner's list of payloads. */
  lemma PayloadsFromSnoc(moving: seq<Item>, it: Item, c: Ref)
    ensures multiset(PayloadsFrom(moving + [it], c)) ==
      multiset(PayloadsFrom(moving, c)) + (if it.containerRef == c then multiset{it.node} else multiset{})
  {
    assert Init(moving + [it]) == moving && Last(moving + [it]) == it;
  }

  /** The sources together hold exactly the add-set: what is offered is what would be removed. */
  lemma {:induction false} SourcesHoldAddSet(moving: seq<Item>, target: Ref)
    ensures FromSources(moving, Sources(moving, target)) == multiset(PayloadsNotFrom(moving, target))
  {
    if moving != [] {
      var m := Init(moving);
      var it := Last(moving);
      assert moving == m + [it];
      SourcesHoldAddSet(m, target);
      var srcs := Sources(m, target);
      var o := it.containerRef;
      FromSourcesGrow(m, it, srcs);
      if !(o in srcs || o == target) {
        var srcs' := srcs + [o];
        assert Init(srcs') == srcs;
        assert o !in Owners(m);
        assert PayloadsFrom(moving, o) == [it.node];
      }
    }
  }

  // ---------------------------------------------------------------------------
  // What a release guarantees

  /** Every release dispatches END_DRAG first; with no container under the pointer, nothing else happens. */
  lemma ReleaseEndsDrag(s: State, pos: Point, thrown: Option<JsError>)
    requires s.drag.Some?
    ensures var out := MouseUp(s, pos, thrown);
      |out.dispatched| >= 1 && out.dispatched[0] == EndDrag &&
      (SelectedContainer(s.containers, pos) == Ok(None) ==> out == DropOutcome([EndDrag], None, None))
  {
  }

  /** The container `find` returns for the target's ref is the target itself. */
  lemma TargetFound(s: State, pos: Point, target: Container)
    requires SelectedContainer(s.containers, pos) == Ok(Some(target)) && UniqueRefs(s.containers)
    ensures FindContainer(s.containers, target.ref) == Some(target)
  {
    var t := FindContainer(s.containers, target.ref).value;
    var a :| 0 <= a < |s.containers| && s.containers[a] == t;
    var b :| 0 <= b < |s.containers| && s.containers[b] == target;
    assert Refs(s.containers)[a] == Refs(s.containers)[b];
  }

  /**
   * With a target and registered moving keys: the target's `onAdd` is offered exactly the
   * moving payloads it does not own, and `selected` is cleared iff that offer is made and
   * `onAdd` returns; a throw from `onAdd` is the release's throw.
   */
  lemma ReleaseOffersAddSet(s: State, pos: Point, target: Container, thrown: Option<JsError>)
    requires s.drag.Some? && SelectedContainer(s.containers, pos) == Ok(Some(target))
    requires UniqueRefs(s.containers) && forall k :: k in s.drag.value.items ==> k in s.items
    ensures var out := MouseUp(s, pos, thrown);
      var addItems := PayloadsNotFrom(MovingItems(s.items, s.drag.value.items).value, target.ref);
      (out.add.Some? <==> addItems != []) &&
      (out.add.Some? ==> out.add.value.items == addItems && out.add.value.onAdd == target.onAdd) &&
      out.error == (if out.add.Some? then thrown else None) &&
      (out.add.Some? && thrown.None? ==> out.dispatched == [EndDrag, SetSelected([])]) &&
      (out.add.None? || thrown.Some? ==> out.dispatched == [EndDrag])
  {
    TargetFound(s, pos, target);
    var moving := MovingItems(s.items, s.drag.value.items).value;
    var rs := Removals(s.containers, moving, Sources(moving, target.ref));
    if |rs| > 0 {
      var c := rs[0].source;
      assert c in SourceRefs(rs);
      var i :| 0 <= i < |moving| && Owners(moving)[i] == c;
      assert moving[i].containerRef != target.ref;
    }
  }

  /**
   * The removals held back in the confirm continuation come from the distinct owners of
   * moving items other than the target, each with exactly the payloads it owns.
   */
  lemma ReleasePreparesRemovals(s: State, pos: Point, target: Container, thrown: Option<JsError>)
    requires s.drag.Some? && SelectedContainer(s.containers, pos) == Ok(Some(target))
    requires UniqueRefs(s.containers) && forall k :: k in s.drag.value.items ==> k in s.items
    requires MouseUp(s, pos, thrown).add.Some?
    ensures var rs := MouseUp(s, pos, thrown).add.value.confirm.removals;
      var moving := MovingItems(s.items, s.drag.value.items).value;
      NoDup(SourceRefs(rs)) &&
      (forall c :: c in SourceRefs(rs) <==> c != target.ref && c in Owners(moving)) &&
      (forall i :: 0 <= i < |rs| ==> rs[i].items == PayloadsFrom(moving, rs[i].source))
  {
    TargetFound(s, pos, target);
  }

  /** A drop onto the container that owns every moving item changes nothing but ending the drag. */
  lemma SameContainerDropIsNoop(s: State, pos: Point, target: Container, thrown: Option<JsError>)
    requires s.drag.Some? && SelectedContainer(s.containers, pos) == Ok(Some(target))
    requires UniqueRefs(s.containers)
    requires forall k :: k in s.drag.value.items ==> k in s.items && s.items[k].containerRef == target.ref
    ensures MouseUp(s, pos, thrown) == DropOutcome([EndDrag], None, None)
  {
    ReleaseOffersAddSet(s, pos, target, thrown);
  }

  /**
   * Nothing is removed before confirm: the release dispatches only END_DRAG and
   * SET_SELECTED, which leave the registered containers and items as they were.
   */
  lemma ReleaseKeepsRegistry(s: State, pos: Point, thrown: Option<JsError>)
    requires s.drag.Some?
    ensures var out := MouseUp(s, pos, thrown);
      forall i :: 0 <= i < |out.dispatched| ==>
        (out.dispatched[i] == EndDrag || out.dispatched[i] == SetSelected([])) &&
        Reduce(s, out.dispatched[i]).Ok? &&
        Reduce(s, out.dispatched[i]).value.containers == s.containers &&
        Reduce(s, out.dispatched[i]).value.items == s.items
  {
    ReleaseDispatches(s, pos, thrown);
    ReleaseActionsKeepRegistry(s);
  }

  lemma ReleaseDispatches(s: State, pos: Point, thrown: Option<JsError>)
    requires s.drag.Some?
    ensures MouseUp(s, pos, thrown).dispatched == [EndDrag] || MouseUp(s, pos, thrown).dispatched == [EndDrag, SetSelected([])]
  {
    match SelectedContainer(s.containers, pos)
    case Err(_) =>
    case Ok(None) =>
    case Ok(Some(target)) =>
      match MovingItems(s.items, s.drag.value.items)
      case Err(_) =>
      case Ok(moving) =>
        assert [EndDrag] + [SetSelected([])] == [EndDrag, SetSelected([])];
        assert [EndDrag] + [] == [EndDrag];
  }

  lemma ReleaseActionsKeepRegistry(s: State)
    ensures Reduce(s, EndDrag).Ok? && Reduce(s, EndDrag).value.containers == s.containers
      && Reduce(s, EndDrag).value.items == s.items
    ensures Reduce(s, SetSelected([])).Ok? && Reduce(s, SetSelected([])).value.containers == s.containers
      && Reduce(s, SetSelected([])).value.items == s.items
  {
  }

  /**
   * When the target calls confirm and every source is still registered, the sources'
   * `onRemove` handlers together receive exactly the payloads the target was offered.
   */
  lemma ConfirmRemovesWhatWasAdded(s: State, pos: Point, thrown: Option<JsError>)
    requires s.drag.Some?
    requires MouseUp(s, pos, thrown).add.Some?
    requires Confirm(MouseUp(s, pos, thrown).add.value.confirm.removals).error.None?
    ensures var add := MouseUp(s, pos, thrown).add.value;
      Removed(Confirm(add.confirm.removals).calls) == multiset(add.items)
  {
    var target := SelectedContainer(s.containers, pos).value.value;
    var moving := MovingItems(s.items, s.drag.value.items).value;
    var srcs := Sources(moving, target.ref);
    var rs := Removals(s.containers, moving, srcs);
    RemovedIsPlanned(Confirm(rs).calls, rs);
    PlannedFromSources(s.containers, moving, srcs);
    SourcesHoldAddSet(moving, target.ref);
  }

  // ---------------------------------------------------------------------------
  // Highlight while dragging

  /** `selectedContainerRef.current`: `null` at first, `undefined` once set from an empty hit. */
  datatype Slot = Null | Undefined | Elem(ref: Ref)

  /** The element of the container under the pointer, as `onMouseMove` reads it. */
  function ElementOf(sel: Option<Container>): Slot {
    match sel
    case None => Undefined
    case Some(c) => Elem(c.ref)
  }

  datatype Tracked = Tracked(slot: Slot, dispatched: seq<Action>)

  /** One pointer move: SET_HIGHLIGHTED with the container under the pointer, if it changed. */
  function Track(last: Slot, cs: seq<Container>, pos: Point): (r: Result<Tracked>)
    ensures r.Err? <==> SelectedContainer(cs, pos).Err?
  {
    match SelectedContainer(cs, pos)
    case Err(e) => Err(e)
    case Ok(sel) =>
      var el := ElementOf(sel);
      if el != last then
        Ok(Tracked(el, [SetHighlighted(if sel.Some? then Some(sel.value.ref) else None)]))
      else Ok(Tracked(last, []))
  }

  /** A second move over the same containers at the same point dispatches nothing. */
  lemma TrackSettles(last: Slot, cs: seq<Container>, pos: Point)
    requires Track(last, cs, pos).Ok?
    ensures var t := Track(last, cs, pos).value;
      Track(t.slot, cs, pos) == Ok(Tracked(t.slot, [])) && |t.dispatched| <= 1 &&
      (t.dispatched == [] <==> t.slot == last)
  {
  }

  /** A dispatched highlight names the container under the pointer, and the store records it. */
  lemma TrackHighlightsTarget(s: State, last: Slot, pos: Point)
    requires Track(last, s.containers, pos).Ok? && Track(last, s.containers, pos).value.dispatched != []
    ensures var sel := SelectedContainer(s.containers, pos).value;
      var a := Track(last, s.containers, pos).value.dispatched[0];
      Reduce(s, a) == Ok(s.(highlighted := if sel.Some? then Some(sel.value.ref) else None)) &&
      (sel.Some? ==> Contains(sel.value, pos))
  {
  }

  /** The first move over no container still dispatches, since `undefined !== null`. */
  lemma FirstMoveOverNothingDispatches(cs: seq<Container>, pos: Point)
    requires SelectedContainer(cs, pos) == Ok(None)
    ensures Track(Null, cs, pos) == Ok(Tracked(Undefined, [SetHighlighted(None)]))
  {
  }

  /** The controller's mutable ref to the last highlighted container element. */
  class DragController {
    var selectedContainerRef: Slot

    constructor ()
      ensures selectedContainerRef == Null
    {
      selectedContainerRef := Null;
    }

    /** `onMouseMove` over the store snapshot `s`. */
    method OnMouseMove(s: State, pos: Point) returns (r: Result<seq<Action>>)
      modifies this
      ensures r.Err? <==> Track(old(selectedContainerRef), s.containers, pos).Err?
      ensures r.Err? ==> selectedContainerRef == old(selectedContainerRef)
      ensures r.Ok? ==> Track(old(selectedContainerRef), s.containers, pos) == Ok(Tracked(selectedContainerRef, r.value))
    {
      var currSelected := SelectedContainer(s.containers, pos);
      if currSelected.Err? {
        return Err(currSelected.error);
      }
      var currContainerEl := ElementOf(currSelected.value);
      if currContainerEl != selectedContainerRef {
        r := Ok([SetHighlighted(if currSelected.value.Some? then Some(currSelected.value.value.ref) else None)]);
        selectedContainerRef := currContainerEl;
      } else {
        r := Ok([]);
      }
    }
  }
}
