/**
 * The room lists that the drop handlers drive (src/Components/UnassignedView.js, with the
 * same `siteReducer` and `genSites` repeated in src/App.js): append with projection,
 * remove by id, the generated rooms, and the unassigned list's drop callbacks.
 */
module Sites {
  import opened Wrappers
  import opened Elements
  import opened Decimal
  import opened Geometry
  import opened Seqs
  import opened Store
  import opened Drop

  /** A room as the lists keep it: the four projected fields of an item's props. */
  datatype Site = Site(id: nat, title: string, subtitle: string, group: nat)

  /** `({id, title, subtitle, group}) => ({id, title, subtitle, group})` */
  function Project(p: Props): Site {
    Site(p.id, p.title, p.subtitle, p.group)
  }

  function Projected(ps: seq<Props>): (r: seq<Site>)
    ensures |r| == |ps| && forall i :: 0 <= i < |ps| ==> r[i] == Project(ps[i])
  {
    seq(|ps|, i requires 0 <= i < |ps| => Project(ps[i]))
  }

  /** The ids named by a payload. */
  function PayloadIds(ps: seq<Props>): set<nat> {
    set i | 0 <= i < |ps| :: ps[i].id
  }

  /** `sites.filter(e => !payload.some(x => x.id === e.id))` */
  function KeepUnlisted(sites: seq<Site>, ps: seq<Props>): (r: seq<Site>)
    ensures forall x :: x in r <==> x in sites && x.id !in PayloadIds(ps)
    ensures |r| <= |sites|
    ensures (forall x :: x in sites ==> x.id !in PayloadIds(ps)) ==> r == sites
    ensures (forall x :: x in sites ==> x.id in PayloadIds(ps)) ==> r == []
  {
    if sites == [] then []
    else
      var rest := KeepUnlisted(sites[1..], ps);
      assert sites == [sites[0]] + sites[1..];
      if sites[0].id in PayloadIds(ps) then rest else [sites[0]] + rest
  }

  /** The filter keeps the original order: it works piecewise over a concatenation. */
  lemma {:induction false} KeepUnlistedKeepsOrder(a: seq<Site>, b: seq<Site>, ps: seq<Props>)
    ensures KeepUnlisted(a + b, ps) == KeepUnlisted(a, ps) + KeepUnlisted(b, ps)
  {
    if a != [] {
      var ab := a + b;
      assert ab[0] == a[0] && ab[1..] == a[1..] + b;
      KeepUnlistedKeepsOrder(a[1..], b, ps);
      var ra, rb := KeepUnlisted(a[1..], ps), KeepUnlisted(b, ps);
      if a[0].id in PayloadIds(ps) {
        assert KeepUnlisted(ab, ps) == ra + rb;
        assert KeepUnlisted(a, ps) == ra;
      } else {
        assert KeepUnlisted(ab, ps) == [a[0]] + (ra + rb);
        assert KeepUnlisted(a, ps) == [a[0]] + ra;
        ConsAssoc(a[0], ra, rb);
      }
    } else {
      assert a + b == b;
    }
  }

  datatype SiteAction = Add(payload: seq<Props>) | Remove(payload: seq<Props>) | OtherSiteAction(name: string)

  /** `siteReducer(state, action)` */
  function SiteReduce(sites: seq<Site>, a: SiteAction): (r: Result<seq<Site>>)
    ensures r.Err? <==> a.OtherSiteAction?
  {
    match a
    case Add(ps) => Ok(sites + Projected(ps))
    case Remove(ps) => Ok(KeepUnlisted(sites, ps))
    case OtherSiteAction(_) => Err(UnhandledAction)
  }

  /**
   * ADD leaves the existing rooms in front and appends one projected room per payload
   * entry; REMOVE keeps exactly the rooms whose id no payload entry names; anything else throws.
   */
  lemma SiteReduceSemantics(sites: seq<Site>, ps: seq<Props>, name: string)
    ensures var r := SiteReduce(sites, Add(ps)).value;
      |r| == |sites| + |ps| && r[..|sites|] == sites &&
      forall i :: 0 <= i < |ps| ==> r[|sites| + i] == Site(ps[i].id, ps[i].title, ps[i].subtitle, ps[i].group)
    ensures var r := SiteReduce(sites, Remove(ps)).value;
      |r| <= |sites| && (forall x :: x in r ==> x.id !in PayloadIds(ps)) &&
      (forall x :: x in sites && x.id !in PayloadIds(ps) ==> x in r)
    ensures SiteReduce(sites, OtherSiteAction(name)) == Err(UnhandledAction)
  {
  }

  /** Removing what was just added restores the list, when the added ids were not in it. */
  lemma {:induction false} AddThenRemove(sites: seq<Site>, ps: seq<Props>)
    requires forall x :: x in sites ==> x.id !in PayloadIds(ps)
    ensures SiteReduce(SiteReduce(sites, Add(ps)).value, Remove(ps)) == Ok(sites)
  {
    var added := Projected(ps);
    KeepUnlistedKeepsOrder(sites, added, ps);
    assert forall x :: x in added ==> x.id in PayloadIds(ps) by {
      forall x | x in added ensures x.id in PayloadIds(ps) {
        var i :| 0 <= i < |added| && added[i] == x;
        assert ps[i].id == x.id;
      }
    }
    assert sites + [] == sites;
  }

  // ---------------------------------------------------------------------------
  // Generated rooms

  const RoomType: string := "Stayover"

  /** The room number, with a leading zero below ten. */
  function Pad(num: nat): (s: string)
    ensures (|s| >= 2 && s[0] == '0') <==> num < 10
  {
    if num < 10 then "0" + NatToString(num) else NatToString(num)
  }

  /** `${floor + 1}${num < 10 ? `0${num}` : num}` for room `i`, two floors. */
  function Title(i: nat): string {
    NatToString(i % 2 + 1) + Pad(i / 2)
  }

  /** `genSites(count)` with the single room type. */
  function GenSites(count: nat): seq<Site> {
    seq(count, i requires 0 <= i < count => Site(i, Title(i), RoomType, i % 2))
  }

  lemma {:induction false} PadInjective(a: nat, b: nat)
    requires Pad(a) == Pad(b)
    ensures a == b
  {
    if a < 10 && b < 10 {
      assert Pad(a)[1..] == NatToString(a) && Pad(b)[1..] == NatToString(b);
      NatToStringInjective(a, b);
    } else if a >= 10 && b >= 10 {
      NatToStringInjective(a, b);
    }
  }

  /**
   * Generated rooms have ids `0..count-1` in order, alternate between floor groups 0 and
   * 1, and carry pairwise different titles made of the floor digit and at least two
   * digits of room number.
   */
  lemma GenSitesShape(count: nat)
    ensures var r := GenSites(count);
      |r| == count &&
      (forall i :: 0 <= i < count ==> r[i].id == i && r[i].group == i % 2 && r[i].subtitle == RoomType) &&
      (forall i :: 0 <= i < count ==>
         |r[i].title| >= 3 && r[i].title[0] == Digit(i % 2 + 1) && r[i].title[1..] == Pad(i / 2)) &&
      (forall i, j :: 0 <= i < j < count ==> r[i].title != r[j].title)
  {
    var r := GenSites(count);
    forall i, j | 0 <= i < j < count
      ensures r[i].title != r[j].title
    {
      if r[i].title == r[j].title {
        TitleInjective(i, j);
      }
    }
  }

  lemma TitleInjective(i: nat, j: nat)
    requires Title(i) == Title(j)
    ensures i == j
  {
    assert NatToString(i % 2 + 1) == [Digit(i % 2 + 1)];
    assert NatToString(j % 2 + 1) == [Digit(j % 2 + 1)];
    assert Title(i)[0] == Title(j)[0];
    assert i % 2 == j % 2;
    assert Title(i)[1..] == Pad(i / 2) && Title(j)[1..] == Pad(j / 2);
    PadInjective(i / 2, j / 2);
  }

  /** The first generated room is "100", the second "200", and the 32nd "215". */
  lemma FirstRooms()
    ensures GenSites(32)[0].title == "100" && GenSites(32)[1].title == "200" && GenSites(32)[31].title == "215"
  {
    var r := GenSites(32);
    assert NatToString(0) == "0" && NatToString(1) == "1" && NatToString(2) == "2";
    assert NatToString(15) == "15" by { assert NatToString(15) == NatToString(1) + [Digit(5)]; }
    assert r[0].title == Title(0) == NatToString(1) + ("0" + NatToString(0));
    assert r[1].title == Title(1) == NatToString(2) + ("0" + NatToString(0));
    assert r[31].title == Title(31) == NatToString(2) + NatToString(15);
  }

  // ---------------------------------------------------------------------------
  // The unassigned list as a drop target and source

  /**
   * The unassigned list's `onAdd(added, done)`: ADD the payload, then call `done` at once,
   * which runs the removals prepared by the release.
   */
  function UnassignedOnAdd(sites: seq<Site>, added: seq<Props>, done: PendingMove): (Result<seq<Site>>, ConfirmRun) {
    (SiteReduce(sites, Add(added)), Confirm(done.removals))
  }

  /** The unassigned list's `onRemove(removed)`: REMOVE the payload. */
  function UnassignedOnRemove(sites: seq<Site>, removed: seq<Props>): Result<seq<Site>> {
    SiteReduce(sites, Remove(removed))
  }

  /**
   * A release over the unassigned list: it gains one room per offered item at its end,
   * and because it confirms at once, the sources' `onRemove` calls receive exactly the
   * offered payloads whenever every source is still registered.
   */
  lemma UnassignedAcceptsAndConfirms(sites: seq<Site>, s: State, pos: Point, thrown: Option<JsError>)
    requires s.drag.Some? && MouseUp(s, pos, thrown).add.Some?
    requires forall i :: 0 <= i < |MouseUp(s, pos, thrown).add.value.confirm.removals| ==>
      MouseUp(s, pos, thrown).add.value.confirm.removals[i].container.Some?
    ensures var add := MouseUp(s, pos, thrown).add.value;
      var (list, run) := UnassignedOnAdd(sites, add.items, add.confirm);
      list.Ok? && |list.value| == |sites| + |add.items| && list.value[..|sites|] == sites &&
      run.error.None? && Removed(run.calls) == multiset(add.items)
  {
    ConfirmRemovesWhatWasAdded(s, pos, thrown);
  }

  /**
   * A release whose target is the unassigned list: its `onAdd` runs the confirm at once, so
   * `onAdd` throws exactly when a source is no longer registered, and then the release
   * ends before SET_SELECTED [] and the selection is kept.
   */
  lemma UnassignedReleaseClearsIffConfirmed(sites: seq<Site>, s: State, pos: Point)
    requires s.drag.Some? && MouseUp(s, pos, None).add.Some?
    ensures var add := MouseUp(s, pos, None).add.value;
      var removals := add.confirm.removals;
      var out := MouseUp(s, pos, UnassignedOnAdd(sites, add.items, add.confirm).1.error);
      out.add == Some(add) &&
      ((forall i :: 0 <= i < |removals| ==> removals[i].container.Some?) ==>
         out.dispatched == [EndDrag, SetSelected([])] && out.error.None?) &&
      ((exists i :: 0 <= i < |removals| && removals[i].container.None?) ==>
         out.dispatched == [EndDrag] && out.error == Some(TypeError))
  {
    var add := MouseUp(s, pos, None).add.value;
    var thrown := Confirm(add.confirm.removals).error;
    ReleaseDispatches(s, pos, None);
    assert MouseUp(s, pos, None).dispatched == [EndDrag, SetSelected([])];
  }

  // ---------------------------------------------------------------------------
  // A drop between the two floor lists

  /**
   * Both floor lists of the unassigned view share one `onAdd`/`onRemove` pair over the same
   * room list, so a drop from one floor onto the other runs ADD and then, through the
   * immediate confirm, REMOVE of the same payload on that list. Every room with a dropped
   * id goes: the copies just added and the originals alike.
   */
  lemma AddThenRemoveDropsListed(sites: seq<Site>, ps: seq<Props>)
    ensures SiteReduce(SiteReduce(sites, Add(ps)).value, Remove(ps)) == Ok(KeepUnlisted(sites, ps))
  {
    var added := Projected(ps);
    KeepUnlistedKeepsOrder(sites, added, ps);
    ProjectedAllListed(ps);
    assert KeepUnlisted(sites, ps) + [] == KeepUnlisted(sites, ps);
  }

  /** Every projected room carries an id the payload names. */
  lemma ProjectedAllListed(ps: seq<Props>)
    ensures forall x :: x in Projected(ps) ==> x.id in PayloadIds(ps)
  {
    forall x | x in Projected(ps) ensures x.id in PayloadIds(ps) {
      var i :| 0 <= i < |ps| && Projected(ps)[i] == x;
      assert ps[i].id == x.id;
    }
  }

  /** Room 100, dropped from the first floor onto the second, is no longer in the list. */
  lemma FloorToFloorDropLosesRoom(p: Props)
    requires p.id == 0
    ensures SiteReduce(SiteReduce([Site(0, "100", RoomType, 0)], Add([p])).value, Remove([p])) == Ok([])
  {
    AddThenRemoveDropsListed([Site(0, "100", RoomType, 0)], [p]);
    assert 0 in PayloadIds([p]) by { assert [p][0].id == 0; }
  }

  /**
   * The drop onto the unassigned list with the confirm run first: the sources' removals,
   * then ADD of the offered payload.
   */
  function ConfirmThenAdd(sites: seq<Site>, ps: seq<Props>): Result<seq<Site>> {
    match SiteReduce(sites, Remove(ps))
    case Err(e) => Err(e)
    case Ok(kept) => SiteReduce(kept, Add(ps))
  }

  /**
   * With the confirm run first, every dropped room is in the list afterwards, whichever
   * list it came from; the other rooms stay; nothing else appears; and on a list that did not
   * hold the dropped rooms it is the plain append.
   */
  lemma ConfirmThenAddKeepsDropped(sites: seq<Site>, ps: seq<Props>)
    ensures ConfirmThenAdd(sites, ps).Ok?
    ensures var r := ConfirmThenAdd(sites, ps).value;
      (forall i :: 0 <= i < |ps| ==> Project(ps[i]) in r) &&
      (forall x :: x in sites && x.id !in PayloadIds(ps) ==> x in r) &&
      (forall x :: x in r ==> x in Projected(ps) || (x in sites && x.id !in PayloadIds(ps))) &&
      ((forall x :: x in sites ==> x.id !in PayloadIds(ps)) ==> r == sites + Projected(ps))
  {
    var kept := KeepUnlisted(sites, ps);
    assert ConfirmThenAdd(sites, ps) == Ok(kept + Projected(ps));
    forall i | 0 <= i < |ps| ensures Project(ps[i]) in kept + Projected(ps) {
      assert (kept + Projected(ps))[|kept| + i] == Project(ps[i]);
    }
  }

  /**
   * `assignSelectedToWorker`: the props of the selected items, in selection order; a
   * selected key with no registered item is destructured as `undefined` and throws.
   */
  function AssignSelected(s: State): (r: Result<seq<Props>>)
    ensures r.Ok? <==> forall k :: k in s.selected ==> k in s.items
    ensures r.Ok? ==> (|r.value| == |s.selected| &&
      forall i :: 0 <= i < |s.selected| ==> r.value[i] == s.items[s.selected[i]].node)
  {
    var items := SelectedItems(s);
    if forall i :: 0 <= i < |items| ==> items[i].Some? then
      Ok(seq(|items|, i requires 0 <= i < |items| => items[i].value.node))
    else Err(TypeError)
  }

  /**
   * The `done` built by `assignSelectedToWorker` removes from the list exactly the rooms
   * whose id is the id of a selected item, and keeps every other room.
   */
  lemma AssignDoneRemovesSelected(sites: seq<Site>, s: State)
    requires AssignSelected(s).Ok?
    ensures var ps := AssignSelected(s).value;
      var r := SiteReduce(sites, Remove(ps)).value;
      (forall x :: x in r ==> forall k :: k in s.selected ==> x.id != s.items[k].node.id) &&
      (forall x :: x in sites && (forall k :: k in s.selected ==> x.id != s.items[k].node.id) ==> x in r)
  {
    var ps := AssignSelected(s).value;
    assert forall k :: k in s.selected ==> s.items[k].node.id in PayloadIds(ps) by {
      forall k | k in s.selected ensures s.items[k].node.id in PayloadIds(ps) {
        var i :| 0 <= i < |s.selected| && s.selected[i] == k;
        assert ps[i].id == s.items[k].node.id;
      }
    }
    assert forall n :: n in PayloadIds(ps) ==> exists k :: k in s.selected && s.items[k].node.id == n by {
      forall n | n in PayloadIds(ps) ensures exists k :: k in s.selected && s.items[k].node.id == n {
        var i :| 0 <= i < |ps| && ps[i].id == n;
        assert s.selected[i] in s.selected;
      }
    }
  }
}
