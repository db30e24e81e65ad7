/**
 * The earlier, single-phase drag store (src/DragProvider.js): containers with optional
 * highlight callbacks, a drag record that remembers the container it started from, and a
 * release that calls the source's `onRemove` and then the target's `onAdd` at once.
 */
module LegacyStore {
  import opened Wrappers
  import opened Elements
  import opened Geometry
  import opened Seqs

  const MaxStackSize: nat := 3

  /** A handler slot holds a function or something else (`typeof func === 'function'` fails). */
  type Handler = Option<HandlerId>

  datatype LContainer = LContainer(ref: Ref, onAdd: Handler, onRemove: Handler,
                                   onHighlightBegin: Handler, onHighlightEnd: Handler)

  /** `{node, key}` as the dragged items are handed over. */
  datatype DragItem = DragItem(node: Props, key: Key)

  datatype LDrag = LDrag(ref: Ref, start: Point, dragOffset: Point, items: seq<DragItem>, fromContainer: Ref)

  datatype LState = LState(containers: seq<LContainer>, drag: Option<LDrag>, focus: Option<nat>)

  datatype LAction =
    | LSetContainer(c: LContainer)
    | LRemoveContainer(ref: Ref)
    | LBeginDrag(ref: Ref, start: Point, dragOffset: Point, items: seq<DragItem>)
    | LEndDrag
    | LSetFocus(focus: nat)
    | LUnhandled(name: string)

  /** A call of one of the handlers, with its argument list. */
  datatype Call = HighlightBegin(handler: HandlerId, items: seq<DragItem>) | Payload(handler: HandlerId, props: seq<Props>)

  /** The next state and the callback the reducer invoked on the way, if any. */
  datatype Step = Step(state: LState, invoked: Option<Call>)

  const LInitState: LState := LState([], None, None)

  function LRefs(cs: seq<LContainer>): (r: seq<Ref>)
    ensures |r| == |cs| && forall i :: 0 <= i < |cs| ==> r[i] == cs[i].ref
  {
    seq(|cs|, i requires 0 <= i < |cs| => cs[i].ref)
  }

  /** The `reduce` of SET_CONTAINER: a record is kept unless an earlier one has its ref. */
  function KeepFirst(acc: seq<LContainer>, xs: seq<LContainer>): (r: seq<LContainer>)
    ensures NoDup(LRefs(acc)) ==> NoDup(LRefs(r))
    ensures acc <= r
    ensures forall rf :: rf in LRefs(r) <==> rf in LRefs(acc) || rf in LRefs(xs)
    ensures forall c :: c in r ==> c in acc || c in xs
    decreases xs
  {
    if xs == [] then acc
    else
      var acc' := if xs[0].ref in LRefs(acc) then acc else acc + [xs[0]];
      assert LRefs(acc') == if xs[0].ref in LRefs(acc) then LRefs(acc) else LRefs(acc) + [xs[0].ref];
      assert forall rf :: rf in LRefs(xs) <==> rf == xs[0].ref || rf in LRefs(xs[1..]);
      KeepFirst(acc', xs[1..])
  }

  /** SET_CONTAINER: the new record in front, then one record per ref. */
  function LRegister(cs: seq<LContainer>, c: LContainer): (r: seq<LContainer>)
    ensures NoDup(LRefs(r)) && r != [] && r[0] == c
    ensures forall rf :: rf in LRefs(r) <==> rf == c.ref || rf in LRefs(cs)
    ensures forall d :: d in r ==> d == c || (d in cs && d.ref != c.ref)
  {
    assert LRefs([c]) == [c.ref];
    var r := KeepFirst([c], cs);
    assert forall d :: d in r ==> d == c || d in cs;
    assert forall i :: 1 <= i < |r| ==> r[i].ref != c.ref by {
      forall i | 1 <= i < |r| ensures r[i].ref != c.ref {
        assert LRefs(r)[0] == c.ref && LRefs(r)[i] == r[i].ref;
      }
    }
    assert forall d :: d in r && d != c ==> d.ref != c.ref by {
      forall d | d in r && d != c ensures d.ref != c.ref {
        var i :| 0 <= i < |r| && r[i] == d;
        assert i != 0;
      }
    }
    r
  }

  /** REMOVE_CONTAINER: every record with that ref goes, and only those. */
  function LUnregister(cs: seq<LContainer>, ref: Ref): (r: seq<LContainer>)
    ensures forall c :: c in r <==> c in cs && c.ref != ref
  {
    if cs == [] then []
    else (if cs[0].ref != ref then [cs[0]] else []) + LUnregister(cs[1..], ref)
  }

  /** `containers.find(({ref}) => ref === r)` */
  function LFind(cs: seq<LContainer>, r: Ref): (c: Option<LContainer>)
    ensures c.Some? <==> r in LRefs(cs)
    ensures c.Some? ==> c.value in cs && c.value.ref == r
  {
    if cs == [] then None
    else if cs[0].ref == r then Some(cs[0])
    else
      assert LRefs(cs) == [cs[0].ref] + LRefs(cs[1..]);
      LFind(cs[1..], r)
  }

  /**
   * `reducer(state, action)`. BEGIN_DRAG reads a field of the container it finds, so an
   * unregistered ref throws there, and it calls that container's `onHighlightBegin` with the
   * dragged items when that is a function. Unknown action types throw.
   */
  function LReduce(s: LState, a: LAction): (r: Result<Step>)
    ensures r.Err? <==> a.LUnhandled? || (a.LBeginDrag? && a.ref !in LRefs(s.containers))
  {
    match a
    case LSetContainer(c) => Ok(Step(s.(containers := LRegister(s.containers, c)), None))
    case LRemoveContainer(ref) => Ok(Step(s.(containers := LUnregister(s.containers, ref)), None))
    case LBeginDrag(ref, start, offset, items) =>
      (match LFind(s.containers, ref)
       case None => Err(TypeError)
       case Some(c) =>
         var invoked := match c.onHighlightBegin case Some(h) => Some(HighlightBegin(h, items)) case None => None;
         Ok(Step(s.(drag := Some(LDrag(ref, start, offset, items, c.ref))), invoked)))
    case LEndDrag => Ok(Step(s.(drag := None), None))
    case LSetFocus(f) => Ok(Step(s.(focus := Some(f)), None))
    case LUnhandled(_) => Err(UnhandledAction)
  }

  /**
   * SET_CONTAINER keeps one record per ref and the newest registration wins, while
   * REMOVE_CONTAINER drops only the records with that ref; neither touches the drag.
   */
  lemma LRegistryUpdates(s: LState, c: LContainer, ref: Ref)
    ensures LReduce(s, LSetContainer(c)).Ok? && LReduce(s, LRemoveContainer(ref)).Ok?
    ensures var t := LReduce(s, LSetContainer(c)).value.state;
      NoDup(LRefs(t.containers)) && LFind(t.containers, c.ref) == Some(c) &&
      (forall d :: d in s.containers && d.ref != c.ref && NoDup(LRefs(s.containers)) ==> d in t.containers) &&
      t.drag == s.drag
    ensures var t := LReduce(s, LRemoveContainer(ref)).value.state;
      ref !in LRefs(t.containers) && (forall d :: d in s.containers && d.ref != ref ==> d in t.containers) &&
      t.drag == s.drag
  {
    var t := LReduce(s, LSetContainer(c)).value.state;
    assert LRefs(t.containers)[0] == c.ref;
    LFindFirst(t.containers, c);
    if NoDup(LRefs(s.containers)) {
      KeepsOthers(s.containers, c);
    }
    var u := LReduce(s, LRemoveContainer(ref)).value.state;
    assert forall i :: 0 <= i < |u.containers| ==> LRefs(u.containers)[i] != ref;
  }

  lemma LFindFirst(cs: seq<LContainer>, c: LContainer)
    requires cs != [] && cs[0] == c
    ensures LFind(cs, c.ref) == Some(c)
  {
  }

  /** Under unique refs every other record survives a registration. */
  lemma {:induction false} KeepsOthers(cs: seq<LContainer>, c: LContainer)
    requires NoDup(LRefs(cs))
    ensures forall d :: d in cs && d.ref != c.ref ==> d in LRegister(cs, c)
  {
    forall d | d in cs && d.ref != c.ref
      ensures d in LRegister(cs, c)
    {
      var r := LRegister(cs, c);
      assert d.ref in LRefs(r) by { assert d.ref in LRefs(cs) by { var i :| 0 <= i < |cs| && cs[i] == d; assert LRefs(cs)[i] == d.ref; } }
      var j :| 0 <= j < |r| && LRefs(r)[j] == d.ref;
      var e := r[j];
      assert e in r;
      assert e != c;
      assert e in cs;
      var a :| 0 <= a < |cs| && cs[a] == e;
      var b :| 0 <= b < |cs| && cs[b] == d;
      assert LRefs(cs)[a] == LRefs(cs)[b];
    }
  }

  /**
   * BEGIN_DRAG records the payload and, as `fromContainer`, the ref of the container it
   * names, calling that container's `onHighlightBegin` with the dragged items; END_DRAG
   * clears the drag; SET_FOCUS records the focus; any other action type throws.
   */
  lemma LDragLifecycle(s: LState, ref: Ref, start: Point, offset: Point, items: seq<DragItem>, f: nat, name: string)
    ensures ref in LRefs(s.containers) ==>
      var r := LReduce(s, LBeginDrag(ref, start, offset, items));
      var c := LFind(s.containers, ref).value;
      r.Ok? && r.value.state.drag == Some(LDrag(ref, start, offset, items, ref)) &&
      r.value.state.containers == s.containers &&
      r.value.invoked == (if c.onHighlightBegin.Some? then Some(HighlightBegin(c.onHighlightBegin.value, items)) else None)
    ensures ref !in LRefs(s.containers) ==> LReduce(s, LBeginDrag(ref, start, offset, items)) == Err(TypeError)
    ensures LReduce(s, LEndDrag) == Ok(Step(s.(drag := None), None))
    ensures LReduce(s, LSetFocus(f)) == Ok(Step(s.(focus := Some(f)), None))
    ensures LReduce(s, LUnhandled(name)) == Err(UnhandledAction)
  {
  }

  // ---------------------------------------------------------------------------
  // The drag controller

  /**
   * The release's `find`: the first container in list order whose element strictly
   * contains the point; an unmounted element met before that one throws.
   */
  function FirstUnder(cs: seq<LContainer>, layout: map<Ref, Rect>, pos: Point): (r: Result<Option<LContainer>>)
    ensures r.Ok? && r.value.Some? ==>
      r.value.value in cs && r.value.value.ref in layout && Intersects(pos, layout[r.value.value.ref])
    ensures r == Ok(None) ==> forall c :: c in cs ==> c.ref in layout && !Intersects(pos, layout[c.ref])
    ensures (forall c :: c in cs ==> c.ref in layout) ==> r.Ok?
  {
    if cs == [] then Ok(None)
    else if cs[0].ref !in layout then Err(TypeError)
    else if Intersects(pos, layout[cs[0].ref]) then Ok(Some(cs[0]))
    else FirstUnder(cs[1..], layout, pos)
  }

  /** `call(func)`: the handler receives the dragged items' props, if it is a function. */
  function CallWith(h: Handler, items: seq<DragItem>): seq<Call> {
    match h
    case None => []
    case Some(id) => [Payload(id, seq(|items|, i requires 0 <= i < |items| => items[i].node))]
  }

  datatype LDropOutcome = LDropOutcome(dispatched: seq<LAction>, calls: seq<Call>, error: Option<JsError>)

  /**
   * `onMouseUp` over the snapshot `s`: END_DRAG, then, over a container other than the
   * drag's source, the source's `onRemove` and the target's `onAdd`, both at once.
   */
  function LMouseUp(s: LState, layout: map<Ref, Rect>, pos: Point): LDropOutcome
    requires s.drag.Some?
  {
    match FirstUnder(s.containers, layout, pos)
    case Err(e) => LDropOutcome([LEndDrag], [], Some(e))
    case Ok(None) => LDropOutcome([LEndDrag], [], None)
    case Ok(Some(target)) =>
      if target.ref == s.drag.value.fromContainer then LDropOutcome([LEndDrag], [], None)
      else
        match LFind(s.containers, s.drag.value.fromContainer)
        case None => LDropOutcome([LEndDrag], [], Some(TypeError))
        case Some(from) =>
          LDropOutcome([LEndDrag], CallWith(from.onRemove, s.drag.value.items) + CallWith(target.onAdd, s.drag.value.items), None)
  }

  /**
   * A release over a registered container other than the source calls the source's
   * `onRemove` and then the target's `onAdd`, each with the dragged items' props and each
   * only if it is a function; over the source or over no container neither is called.
   */
  lemma LReleaseMovesAtOnce(s: LState, layout: map<Ref, Rect>, pos: Point)
    requires s.drag.Some? && FirstUnder(s.containers, layout, pos).Ok?
    requires s.drag.value.fromContainer in LRefs(s.containers)
    ensures var out := LMouseUp(s, layout, pos);
      var sel := FirstUnder(s.containers, layout, pos).value;
      var d := s.drag.value;
      out.dispatched == [LEndDrag] && out.error.None? &&
      (sel.None? || sel.value.ref == d.fromContainer ==> out.calls == []) &&
      (sel.Some? && sel.value.ref != d.fromContainer ==>
        var from := LFind(s.containers, d.fromContainer).value;
        |out.calls| <= 2 && from.ref == d.fromContainer &&
        (from.onRemove.Some? ==> out.calls[0] == Payload(from.onRemove.value, NodesOf(d.items))) &&
        (sel.value.onAdd.Some? ==> out.calls[|out.calls| - 1] == Payload(sel.value.onAdd.value, NodesOf(d.items))) &&
        |out.calls| == (if from.onRemove.Some? then 1 else 0) + (if sel.value.onAdd.Some? then 1 else 0))
  {
  }

  /** The props of the dragged items, in order. */
  function NodesOf(items: seq<DragItem>): (r: seq<Props>)
    ensures |r| == |items| && forall i :: 0 <= i < |items| ==> r[i] == items[i].node
  {
    seq(|items|, i requires 0 <= i < |items| => items[i].node)
  }

  /** A point on a container's edge is not inside it: a release there reaches no container. */
  lemma LEdgeIsOutside(c: LContainer, layout: map<Ref, Rect>, pos: Point)
    requires c.ref in layout && (pos.x == layout[c.ref].left || pos.y == layout[c.ref].top)
    ensures FirstUnder([c], layout, pos) == Ok(None)
  {
    IntersectsExcludesEdges(pos, layout[c.ref]);
  }

  /** The preview: up to three ghosts from the front of the dragged items, and the first item's node on top. */
  function Preview(items: seq<DragItem>): (r: Result<(seq<Props>, Props)>)
    ensures r.Ok? <==> items != []
    ensures r.Ok? ==> (|r.value.0| <= MaxStackSize && |r.value.0| == Min(MaxStackSize, |items|) &&
      (forall i :: 0 <= i < |r.value.0| ==> r.value.0[i] == items[i].node) && r.value.1 == items[0].node)
  {
    var ghosts := items[..Min(MaxStackSize, |items|)];
    if items == [] then Err(TypeError)
    else Ok((NodesOf(ghosts), items[0].node))
  }
}
