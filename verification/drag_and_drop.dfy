/**
 * The pointer drag-and-drop hook shared by the games: a registry of drop zones,
 * a hit test over it, and a drag session driven by pointer-down, pointer-move and
 * pointer-up/pointer-cancel.
 *
 * The browser is abstracted away: a zone's element is replaced by the bounding
 * rectangle it reports, and the drop callback is replaced by the `Drop` event the
 * end of a drag emits (the game then applies its own handler to it).
 */
module DragAndDrop {
  import opened Wrappers

  type ItemId = string
  type ZoneId = string

  /** The bounding rectangle of a zone's element, in viewport coordinates. */
  datatype Rect = Rect(left: int, right: int, top: int, bottom: int)

  /** Point containment with all four edges inclusive. */
  predicate Contains(r: Rect, x: int, y: int) {
    r.left <= x <= r.right && r.top <= y <= r.bottom
  }

  /** One registered drop zone: its id, its element's rectangle and its acceptance predicate. */
  datatype Zone = Zone(id: ZoneId, rect: Rect, accepts: ItemId -> bool)

  predicate UniqueIds(zones: seq<Zone>) {
    forall i, j :: 0 <= i < j < |zones| ==> zones[i].id != zones[j].id
  }

  /**
   * The registry is an insertion-ordered map from zone id to zone, as a sequence
   * with at most one entry per id.
   */
  type Registry = zones: seq<Zone> | UniqueIds(zones)

  /** Position of the entry for `id`, if any. */
  function IndexOf(zones: seq<Zone>, id: ZoneId): (r: Option<nat>)
    ensures r.Some? ==> r.value < |zones| && zones[r.value].id == id
    ensures r.Some? ==> forall j :: 0 <= j < r.value ==> zones[j].id != id
    ensures r.None? <==> forall j :: 0 <= j < |zones| ==> zones[j].id != id
  {
    if |zones| == 0 then None
    else if zones[0].id == id then Some(0)
    else match IndexOf(zones[1..], id)
      case None => None
      case Some(k) => Some(k + 1)
  }

  /** The zone registered under `id`, if any. */
  function Lookup(zones: seq<Zone>, id: ZoneId): Option<Zone>
  {
    match IndexOf(zones, id)
    case None => None
    case Some(i) => Some(zones[i])
  }

  /** The registry's entries other than the one for `id`, in their order. */
  function Without(zones: seq<Zone>, id: ZoneId): (r: seq<Zone>)
    ensures |r| <= |zones|
    ensures forall z :: z in r ==> z in zones && z.id != id
  {
    if |zones| == 0 then []
    else if zones[0].id == id then Without(zones[1..], id)
    else [zones[0]] + Without(zones[1..], id)
  }

  lemma {:induction false} WithoutKeepsUnique(zones: seq<Zone>, id: ZoneId)
    requires UniqueIds(zones)
    ensures UniqueIds(Without(zones, id))
  {
    if |zones| > 0 {
      WithoutKeepsUnique(zones[1..], id);
      if zones[0].id != id {
        forall z | z in Without(zones[1..], id) ensures z.id != zones[0].id {
          var k :| 1 <= k < |zones| && zones[k] == z;
        }
      }
    }
  }

  lemma {:induction false} WithoutAbsent(zones: seq<Zone>, id: ZoneId)
    requires forall j :: 0 <= j < |zones| ==> zones[j].id != id
    ensures Without(zones, id) == zones
  {
    if |zones| > 0 {
      WithoutAbsent(zones[1..], id);
    }
  }

  /** Removing an entry leaves the lookup of every other id unchanged. */
  lemma {:induction false} WithoutLookup(zones: seq<Zone>, id: ZoneId, other: ZoneId)
    requires UniqueIds(zones)
    ensures Lookup(Without(zones, id), id).None?
    ensures other != id ==> Lookup(Without(zones, id), other) == Lookup(zones, other)
  {
    if |zones| > 0 {
      WithoutLookup(zones[1..], id, other);
    }
  }

  /** Replacing the entry at `i` in place does not disturb the other entries' order. */
  lemma {:induction false} WithoutReplaced(zones: seq<Zone>, i: nat, z: Zone)
    requires i < |zones| && zones[i].id == z.id
    ensures Without(zones[i := z], z.id) == Without(zones, z.id)
  {
    if i > 0 {
      assert zones[i := z][1..] == zones[1..][i - 1 := z];
      WithoutReplaced(zones[1..], i - 1, z);
    } else {
      assert zones[i := z][1..] == zones[1..];
    }
  }

  lemma {:induction false} LookupAppend(zones: seq<Zone>, z: Zone, other: ZoneId)
    requires forall j :: 0 <= j < |zones| ==> zones[j].id != z.id
    ensures other == z.id ==> IndexOf(zones + [z], other) == Some(|zones|)
    ensures other != z.id ==> Lookup(zones + [z], other) == Lookup(zones, other)
  {
    if |zones| > 0 {
      assert (zones + [z])[1..] == zones[1..] + [z];
      LookupAppend(zones[1..], z, other);
    }
  }

  lemma {:induction false} SameIdsSameIndex(a: seq<Zone>, b: seq<Zone>, id: ZoneId)
    requires |a| == |b| && forall j :: 0 <= j < |a| ==> a[j].id == b[j].id
    ensures IndexOf(a, id) == IndexOf(b, id)
  {
    if |a| > 0 {
      SameIdsSameIndex(a[1..], b[1..], id);
    }
  }

  /** Replacing the entry for an id in place keeps ids unique and every position and other lookup. */
  lemma ReplaceInPlace(reg: Registry, i: nat, z: Zone)
    requires i < |reg| && reg[i].id == z.id
    ensures UniqueIds(reg[i := z])
    ensures forall other :: IndexOf(reg[i := z], other) == IndexOf(reg, other)
    ensures Without(reg[i := z], z.id) == Without(reg, z.id)
  {
    var r := reg[i := z];
    assert forall j :: 0 <= j < |r| ==> r[j].id == reg[j].id;
    WithoutReplaced(reg, i, z);
    forall other ensures IndexOf(r, other) == IndexOf(reg, other) {
      SameIdsSameIndex(r, reg, other);
    }
  }

  /** Appending an entry for a new id keeps ids unique, puts it last, and leaves other lookups alone. */
  lemma AppendNew(reg: Registry, z: Zone)
    requires IndexOf(reg, z.id).None?
    ensures UniqueIds(reg + [z])
    ensures IndexOf(reg + [z], z.id) == Some(|reg|)
    ensures forall other :: other != z.id ==> Lookup(reg + [z], other) == Lookup(reg, other)
    ensures Without(reg + [z], z.id) == Without(reg, z.id)
  {
    var r := reg + [z];
    forall other ensures other == z.id ==> IndexOf(r, other) == Some(|reg|)
      ensures other != z.id ==> Lookup(r, other) == Lookup(reg, other)
    {
      LookupAppend(reg, z, other);
    }
    WithoutSuffix(reg, z);
  }

  /** `Map.set` on the registry: replace in place when `id` is present, else append. */
  function SetZone(reg: Registry, id: ZoneId, rect: Rect, accepts: ItemId -> bool): (r: Registry)
    ensures Lookup(r, id) == Some(Zone(id, rect, accepts))
    ensures IndexOf(reg, id).Some? ==> IndexOf(r, id) == IndexOf(reg, id) && |r| == |reg|
    ensures IndexOf(reg, id).None? ==> IndexOf(r, id) == Some(|reg|) && |r| == |reg| + 1
    ensures forall other :: other != id ==> Lookup(r, other) == Lookup(reg, other)
    ensures Without(r, id) == Without(reg, id)
  {
    var z := Zone(id, rect, accepts);
    match IndexOf(reg, id)
    case Some(i) =>
      ReplaceInPlace(reg, i, z);
      reg[i := z]
    case None =>
      AppendNew(reg, z);
      reg + [z]
  }

  lemma {:induction false} WithoutSuffix(zones: seq<Zone>, z: Zone)
    ensures Without(zones + [z], z.id) == Without(zones, z.id)
  {
    if |zones| > 0 {
      assert (zones + [z])[1..] == zones[1..] + [z];
      WithoutSuffix(zones[1..], z);
    } else {
      assert Without([z], z.id) == Without([z][1..], z.id);
    }
  }

  /** `Map.delete` on the registry. */
  function DeleteZone(reg: Registry, id: ZoneId): (r: Registry)
    ensures Lookup(r, id).None?
    ensures forall other :: other != id ==> Lookup(r, other) == Lookup(reg, other)
    ensures |r| == if IndexOf(reg, id).Some? then |reg| - 1 else |reg|
    ensures Without(r, id) == Without(reg, id)
  {
    WithoutKeepsUnique(reg, id);
    var r: Registry := Without(reg, id);
    forall other ensures other != id ==> Lookup(r, other) == Lookup(reg, other)
      ensures Lookup(r, id).None?
    {
      WithoutLookup(reg, id, other);
    }
    WithoutSize(reg, id);
    WithoutIdempotent(reg, id);
    r
  }

  lemma {:induction false} WithoutSize(zones: seq<Zone>, id: ZoneId)
    requires UniqueIds(zones)
    ensures |Without(zones, id)| == if IndexOf(zones, id).Some? then |zones| - 1 else |zones|
  {
    if |zones| > 0 {
      WithoutSize(zones[1..], id);
      if zones[0].id == id {
        WithoutAbsent(zones[1..], id);
      }
    }
  }

  lemma {:induction false} WithoutIdempotent(zones: seq<Zone>, id: ZoneId)
    ensures Without(Without(zones, id), id) == Without(zones, id)
  {
    if |zones| > 0 {
      WithoutIdempotent(zones[1..], id);
      if zones[0].id != id {
        assert ([zones[0]] + Without(zones[1..], id))[1..] == Without(zones[1..], id);
      }
    }
  }

  /**
   * `registerDropZone(id, element, acceptsFn)`: a present element (here, its
   * rectangle) inserts or replaces the entry for `id`; a missing element removes it.
   */
  function RegisterDropZone(reg: Registry, id: ZoneId, element: Option<Rect>, accepts: ItemId -> bool): (r: Registry)
    ensures element.Some? ==> Lookup(r, id) == Some(Zone(id, element.value, accepts))
    ensures element.None? ==> Lookup(r, id).None?
    ensures forall other :: other != id ==> Lookup(r, other) == Lookup(reg, other)
    ensures Without(r, id) == Without(reg, id)
  {
    match element
    case Some(rect) => SetZone(reg, id, rect, accepts)
    case None => DeleteZone(reg, id)
  }

  /** A zone qualifies when its rectangle contains the point and it accepts the item. */
  predicate Qualifies(z: Zone, x: int, y: int, item: ItemId) {
    Contains(z.rect, x, y) && z.accepts(item)
  }

  /** Position of the first qualifying zone, scanning in registry order. */
  function FirstHit(zones: seq<Zone>, x: int, y: int, item: ItemId): (r: Option<nat>)
    ensures r.Some? ==> r.value < |zones| && Qualifies(zones[r.value], x, y, item)
    ensures r.Some? ==> forall j :: 0 <= j < r.value ==> !Qualifies(zones[j], x, y, item)
    ensures r.None? <==> forall j :: 0 <= j < |zones| ==> !Qualifies(zones[j], x, y, item)
  {
    if |zones| == 0 then None
    else if Qualifies(zones[0], x, y, item) then Some(0)
    else match FirstHit(zones[1..], x, y, item)
      case None => None
      case Some(k) => Some(k + 1)
  }

  /** `findActiveDropZone(x, y, itemId)`: the id of the first qualifying zone, or `null`. */
  function FindActiveDropZone(reg: Registry, x: int, y: int, item: ItemId): (r: Option<ZoneId>)
    ensures r.Some? ==> exists i :: 0 <= i < |reg| && reg[i].id == r.value && Qualifies(reg[i], x, y, item)
                                    && forall j :: 0 <= j < i ==> !Qualifies(reg[j], x, y, item)
    ensures r.Some? ==> Lookup(reg, r.value).Some? && Qualifies(Lookup(reg, r.value).value, x, y, item)
    ensures r.None? <==> forall i :: 0 <= i < |reg| ==> !Qualifies(reg[i], x, y, item)
  {
    match FirstHit(reg, x, y, item)
    case None => None
    case Some(i) =>
      assert IndexOf(reg, reg[i].id) == Some(i) by {
        var k := IndexOf(reg, reg[i].id);
        assert k.Some?;
      }
      Some(reg[i].id)
  }

  /** A zone whose element was unregistered is never the result of a later hit test. */
  lemma UnregisteredZoneNeverHit(reg: Registry, id: ZoneId, accepts: ItemId -> bool, x: int, y: int, item: ItemId)
    ensures FindActiveDropZone(RegisterDropZone(reg, id, None, accepts), x, y, item) != Some(id)
  {
  }

  /** Pointer devices; only `touch` has an effect (it locks page scrolling during a drag). */
  datatype PointerType = Mouse | Touch | Pen

  datatype PointerEvent = PointerEvent(clientX: int, clientY: int, pointerType: PointerType)

  /**
   * The hook's session state. `overflowHidden` stands for the page's
   * `document.body.style.overflow = 'hidden'` scroll lock.
   */
  datatype Session = Session(
    draggedItem: Option<ItemId>,
    isDragging: bool,
    activeDropZone: Option<ZoneId>,
    overflowHidden: bool)

  const Idle := Session(None, false, None, false)

  /** The commit a finished drag emits: the dragged item and the zone it was dropped on. */
  datatype Drop = Drop(item: ItemId, zone: ZoneId)

  /**
   * The handlers' guard `isDragging && draggedItem`: a session is live only when
   * dragging with a truthy (non-empty) item id.
   */
  predicate Live(s: Session) {
    s.isDragging && s.draggedItem.Some? && s.draggedItem.value != ""
  }

  /** `handleDragStart(itemId, event)`. */
  function DragStart(s: Session, item: ItemId, ev: PointerEvent): (r: Session)
    ensures r.draggedItem == Some(item) && r.isDragging
    ensures item != "" ==> Live(r)
    ensures r.activeDropZone == s.activeDropZone
    ensures r.overflowHidden == (ev.pointerType == Touch || s.overflowHidden)
  {
    Session(Some(item), true, s.activeDropZone, if ev.pointerType == Touch then true else s.overflowHidden)
  }

  /** `handleDragMove(event)`: re-run the hit test and highlight its result. */
  function DragMove(reg: Registry, s: Session, ev: PointerEvent): (r: Session)
    ensures !Live(s) ==> r == s
    ensures Live(s) ==> r == s.(activeDropZone := FindActiveDropZone(reg, ev.clientX, ev.clientY, s.draggedItem.value))
    ensures Live(s) && r.activeDropZone.Some? ==>
              Lookup(reg, r.activeDropZone.value).Some?
              && Lookup(reg, r.activeDropZone.value).value.accepts(s.draggedItem.value)
  {
    if !Live(s) then s
    else s.(activeDropZone := FindActiveDropZone(reg, ev.clientX, ev.clientY, s.draggedItem.value))
  }

  datatype EndResult = EndResult(session: Session, dropped: Option<Drop>)

  /**
   * `handleDragEnd(event, onDropCallback)`; `hasCallback` is false on the
   * pointer-cancel path, which passes `null` as the callback.
   */
  function DragEnd(reg: Registry, s: Session, ev: PointerEvent, hasCallback: bool): (r: EndResult)
    ensures !Live(s) ==> r == EndResult(s, None)
    ensures Live(s) ==> r.session.draggedItem.None? && !r.session.isDragging && r.session.activeDropZone.None?
    ensures Live(s) ==> r.session.overflowHidden == (s.overflowHidden && ev.pointerType != Touch)
    ensures r.dropped.Some? <==>
              Live(s) && hasCallback
              && var hit := FindActiveDropZone(reg, ev.clientX, ev.clientY, s.draggedItem.value);
                 hit.Some? && hit.value != ""
    ensures r.dropped.Some? ==>
              r.dropped.value.item == s.draggedItem.value
              && Lookup(reg, r.dropped.value.zone).Some?
              && Qualifies(Lookup(reg, r.dropped.value.zone).value, ev.clientX, ev.clientY, r.dropped.value.item)
    ensures r.dropped.Some? ==>
              r.dropped.value.zone == FindActiveDropZone(reg, ev.clientX, ev.clientY, s.draggedItem.value).value
  {
    if !Live(s) then EndResult(s, None)
    else
      var item := s.draggedItem.value;
      var finalZone := FindActiveDropZone(reg, ev.clientX, ev.clientY, item);
      var overflow := if ev.pointerType == Touch then false else s.overflowHidden;
      var dropped := if finalZone.Some? && finalZone.value != "" && hasCallback
                     then Some(Drop(item, finalZone.value)) else None;
      EndResult(Session(None, false, None, overflow), dropped)
  }

  /** A second end right after any end does nothing: at most one drop per drag. */
  lemma {:induction false} SecondEndIsNoOp(reg: Registry, s: Session, ev1: PointerEvent, ev2: PointerEvent,
                                           cb1: bool, cb2: bool)
    ensures var first := DragEnd(reg, s, ev1, cb1);
            DragEnd(reg, first.session, ev2, cb2) == EndResult(first.session, None)
  {
    var first := DragEnd(reg, s, ev1, cb1);
    if Live(s) {
      assert !first.session.isDragging;
    }
  }

  /** Applies a sequence of pointer-move events. */
  function MoveAll(reg: Registry, s: Session, moves: seq<PointerEvent>): Session
    decreases |moves|
  {
    if |moves| == 0 then s else MoveAll(reg, DragMove(reg, s, moves[0]), moves[1..])
  }

  /** Moves change only the highlighted zone. */
  lemma {:induction false} MovesKeepDrag(reg: Registry, s: Session, moves: seq<PointerEvent>)
    ensures var r := MoveAll(reg, s, moves);
            r.draggedItem == s.draggedItem && r.isDragging == s.isDragging && r.overflowHidden == s.overflowHidden
    decreases |moves|
  {
    if |moves| > 0 {
      MovesKeepDrag(reg, DragMove(reg, s, moves[0]), moves[1..]);
    }
  }

  /**
   * A whole gesture from the idle state (down, any moves, up or cancel with the
   * same pointer) returns the session to exactly the idle state, and emits a drop
   * precisely when the final hit test found a zone and a callback was supplied.
   */
  lemma FullDragReturnsToIdle(reg: Registry, item: ItemId, down: PointerEvent, moves: seq<PointerEvent>,
                              up: PointerEvent, hasCallback: bool)
    requires item != ""
    requires down.pointerType == up.pointerType
    ensures var r := DragEnd(reg, MoveAll(reg, DragStart(Idle, item, down), moves), up, hasCallback);
            r.session == Idle
            && (r.dropped.Some? <==>
                  hasCallback && var hit := FindActiveDropZone(reg, up.clientX, up.clientY, item);
                                 hit.Some? && hit.value != "")
            && (r.dropped.Some? ==> r.dropped.value.item == item
                                    && r.dropped.value.zone == FindActiveDropZone(reg, up.clientX, up.clientY, item).value)
  {
    MovesKeepDrag(reg, DragStart(Idle, item, down), moves);
  }

  /** What can happen to the engine: zone (un)registration and pointer events. */
  datatype Event =
    | Register(id: ZoneId, element: Option<Rect>, accepts: ItemId -> bool)
    | Down(item: ItemId, ev: PointerEvent)
    | Move(ev: PointerEvent)
    | Up(ev: PointerEvent)
    | Cancel(ev: PointerEvent)

  datatype Engine = Engine(reg: Registry, session: Session)

  datatype StepResult = StepResult(engine: Engine, dropped: Option<Drop>)

  /** One event; pointer-up passes the game's drop handler, pointer-cancel passes `null`. */
  function Step(e: Engine, event: Event): (r: StepResult)
    ensures event.Cancel? || event.Register? || event.Down? || event.Move? ==> r.dropped.None?
    ensures r.dropped.Some? ==> Live(e.session) && r.dropped.value.item == e.session.draggedItem.value
    ensures r.dropped.Some? ==> Lookup(e.reg, r.dropped.value.zone).Some?
                                && Lookup(e.reg, r.dropped.value.zone).value.accepts(r.dropped.value.item)
    ensures r.dropped.Some? ==> !Live(r.engine.session)
    ensures event.Up? ==> r.dropped == DragEnd(e.reg, e.session, event.ev, true).dropped
    ensures event.Up? && r.dropped.Some? ==>
              r.dropped.value.zone == FindActiveDropZone(e.reg, event.ev.clientX, event.ev.clientY, r.dropped.value.item).value
  {
    match event
    case Register(id, element, accepts) => StepResult(Engine(RegisterDropZone(e.reg, id, element, accepts), e.session), None)
    case Down(item, ev) => StepResult(e.(session := DragStart(e.session, item, ev)), None)
    case Move(ev) => StepResult(e.(session := DragMove(e.reg, e.session, ev)), None)
    case Up(ev) =>
      var end := DragEnd(e.reg, e.session, ev, true);
      StepResult(e.(session := end.session), end.dropped)
    case Cancel(ev) =>
      var end := DragEnd(e.reg, e.session, ev, false);
      StepResult(e.(session := end.session), end.dropped)
  }

  datatype RunResult = RunResult(engine: Engine, drops: seq<Drop>)

  /** Runs a sequence of events, collecting the drops in order. */
  function Run(e: Engine, events: seq<Event>): RunResult
    decreases |events|
  {
    if |events| == 0 then RunResult(e, [])
    else
      var step := Step(e, events[0]);
      var rest := Run(step.engine, events[1..]);
      RunResult(rest.engine, (if step.dropped.Some? then [step.dropped.value] else []) + rest.drops)
  }

  function CountDowns(events: seq<Event>): nat
  {
    if |events| == 0 then 0 else (if events[0].Down? then 1 else 0) + CountDowns(events[1..])
  }

  function LiveCount(s: Session): nat {
    if Live(s) then 1 else 0
  }

  /**
   * Over any run, each drop consumes a distinct pointer-down (or the session that
   * was already live at the start): the engine never commits twice for one drag.
   */
  lemma {:induction false} DropsBoundedByDowns(e: Engine, events: seq<Event>)
    ensures var r := Run(e, events);
            |r.drops| + LiveCount(r.engine.session) <= CountDowns(events) + LiveCount(e.session)
    decreases |events|
  {
    if |events| > 0 {
      var step := Step(e, events[0]);
      DropsBoundedByDowns(step.engine, events[1..]);
      match events[0]
      case Register(_, _, _) =>
      case Down(_, _) =>
      case Move(ev) =>
      case Up(ev) =>
      case Cancel(ev) =>
    }
  }

  /** A run made only of registrations, moves and cancels never drops anything. */
  lemma {:induction false} NoUpNoDrop(e: Engine, events: seq<Event>)
    requires forall i :: 0 <= i < |events| ==> !events[i].Up?
    ensures Run(e, events).drops == []
    decreases |events|
  {
    if |events| > 0 {
      NoUpNoDrop(Step(e, events[0]).engine, events[1..]);
    }
  }
}
