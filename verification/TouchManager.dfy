/** Touches on the wall: which are down, which have just gone up, and who frees their records
    (lib/touchmanager/STouchManager.cpp). */
module TouchManagers {
  import Wire

  type Oid = nat

  datatype Point = Point(x: real, y: real)

  /** What arrives: the two kinds, each of which may fail to parse, and other kinds. */
  datatype Event =
    | Location(oid: Oid, senderID: nat, loc: Point, radius: real, last: bool)
    | BadLocation
    | Remove(oid: Oid, senderID: nat)
    | BadRemove
    | Other

  /** The wanted sender is kept in a signed integer, and -1 stands for any. */
  predicate Accepts(wantedSenderID: int, senderID: nat) {
    senderID == wantedSenderID % Wire.TWO_32 || wantedSenderID == -1
  }

  /** Whoever is wanted is accepted and nobody else, also when the number does not fit a signed integer; the
      number that becomes -1 accepts everybody. */
  lemma AcceptsMeans(wanted: nat, senderID: nat)
    requires wanted < 0x1_0000_0000 && senderID < 0x1_0000_0000
    ensures Accepts(if wanted < 0x8000_0000 then wanted else wanted - 0x1_0000_0000, senderID)
            <==> senderID == wanted || wanted == 0xFFFF_FFFF
  {
    if wanted >= 0x8000_0000 {
      assert (wanted - Wire.TWO_32) % Wire.TWO_32 == wanted;
    }
  }

  /** The touches that are down, in the order in which they appeared. */
  function After(down: seq<Oid>, wantedSenderID: int, e: Event): seq<Oid> {
    match e
    case Location(oid, senderID, _, _, _) =>
      if Accepts(wantedSenderID, senderID) && oid !in down then down + [oid] else down
    case Remove(oid, senderID) => if Accepts(wantedSenderID, senderID) then Without(down, oid) else down
    case _ => down
  }

  function Without(s: seq<Oid>, oid: Oid): seq<Oid> {
    if s == [] then [] else (if s[0] == oid then [] else [s[0]]) + Without(s[1..], oid)
  }

  function AfterAll(wantedSenderID: int, es: seq<Event>): seq<Oid> {
    if es == [] then [] else After(AfterAll(wantedSenderID, es[..|es| - 1]), wantedSenderID, es[|es| - 1])
  }

  lemma {:induction false} WithoutMeans(s: seq<Oid>, oid: Oid)
    ensures forall x :: x in Without(s, oid) <==> x in s && x != oid
    ensures NoDuplicates(s) ==> NoDuplicates(Without(s, oid))
  {
    if s != [] {
      WithoutMeans(s[1..], oid);
      assert s == [s[0]] + s[1..];
      assert NoDuplicates(s) ==> NoDuplicates(s[1..]) && s[0] !in s[1..];
    }
  }

  lemma {:induction false} WithoutAt(s: seq<Oid>, i: nat)
    requires NoDuplicates(s) && i < |s|
    ensures Without(s, s[i]) == s[..i] + s[i + 1..]
  {
    if i == 0 {
      WithoutAbsent(s[1..], s[0]);
    } else {
      WithoutAt(s[1..], i - 1);
      assert s[..i] + s[i + 1..] == [s[0]] + (s[1..][..i - 1] + s[1..][i..]);
    }
  }

  lemma {:induction false} WithoutAbsent(s: seq<Oid>, oid: Oid)
    requires oid !in s
    ensures Without(s, oid) == s
  {
    if s != [] {
      WithoutAbsent(s[1..], oid);
    }
  }

  ghost predicate NoDuplicates<T>(s: seq<T>) {
    forall i, j :: 0 <= i < j < |s| ==> s[i] != s[j]
  }

  predicate Locates(wantedSenderID: int, e: Event, oid: Oid) {
    e.Location? && e.oid == oid && Accepts(wantedSenderID, e.senderID)
  }

  predicate Removes(wantedSenderID: int, e: Event, oid: Oid) {
    e.Remove? && e.oid == oid && Accepts(wantedSenderID, e.senderID)
  }

  /** Event `i` located the touch, and it was not removed since. */
  ghost predicate DownSince(wantedSenderID: int, es: seq<Event>, oid: Oid, i: int) {
    0 <= i < |es| && Locates(wantedSenderID, es[i], oid) && forall j :: i < j < |es| ==> !Removes(wantedSenderID, es[j], oid)
  }

  lemma AfterMeans(down: seq<Oid>, wantedSenderID: int, e: Event, oid: Oid)
    ensures oid in After(down, wantedSenderID, e)
            <==> Locates(wantedSenderID, e, oid) || (oid in down && !Removes(wantedSenderID, e, oid))
  {
    if e.Remove? {
      WithoutMeans(down, e.oid);
    }
  }

  lemma DownSinceStep(wantedSenderID: int, es: seq<Event>, oid: Oid, i: int)
    requires 0 <= i < |es| - 1
    ensures DownSince(wantedSenderID, es, oid, i)
            <==> DownSince(wantedSenderID, es[..|es| - 1], oid, i) && !Removes(wantedSenderID, es[|es| - 1], oid)
  {
    var init := es[..|es| - 1];
    if DownSince(wantedSenderID, es, oid, i) {
      assert forall j :: i < j < |init| ==> init[j] == es[j];
    }
  }

  /** A touch is down exactly when an accepted location of it came after its last accepted removal. */
  lemma {:induction false} DownMeans(wantedSenderID: int, es: seq<Event>, oid: Oid)
    ensures oid in AfterAll(wantedSenderID, es) <==> exists i :: DownSince(wantedSenderID, es, oid, i)
  {
    if es != [] {
      var n := |es| - 1;
      var init := es[..n];
      DownMeans(wantedSenderID, init, oid);
      AfterMeans(AfterAll(wantedSenderID, init), wantedSenderID, es[n], oid);
      hide Locates, Removes;
      if Locates(wantedSenderID, es[n], oid) {
        assert DownSince(wantedSenderID, es, oid, n);
      } else if oid in AfterAll(wantedSenderID, es) {
        var i :| DownSince(wantedSenderID, init, oid, i);
        DownSinceStep(wantedSenderID, es, oid, i);
      } else if i :| DownSince(wantedSenderID, es, oid, i) {
        DownSinceStep(wantedSenderID, es, oid, i);
      }
    }
  }

  /* ------------------------------- where they are ------------------------------ */

  /** What is kept of a touch that is down: where it is, how it moved there, and its size. */
  datatype Mark = Mark(loc: Point, delta: Point, radius: real, wasUpdated: bool)

  function Difference(p: Point, q: Point): Point {
    Point(p.x - q.x, p.y - q.y)
  }

  function MarksAfter(marks: map<Oid, Mark>, wantedSenderID: int, e: Event): map<Oid, Mark> {
    match e
    case Location(oid, senderID, loc, radius, _) =>
      if !Accepts(wantedSenderID, senderID) then marks
      else
        var delta := if oid in marks then Difference(loc, marks[oid].loc) else Point(0.0, 0.0);
        marks[oid := Mark(loc, delta, radius, true)]
    case Remove(oid, senderID) => if Accepts(wantedSenderID, senderID) then marks - {oid} else marks
    case _ => marks
  }

  function MarksAfterAll(wantedSenderID: int, es: seq<Event>): map<Oid, Mark> {
    if es == [] then map[] else MarksAfter(MarksAfterAll(wantedSenderID, es[..|es| - 1]), wantedSenderID, es[|es| - 1])
  }

  /** Event `i` located the touch, and neither located nor removed it since. */
  ghost predicate LastLocated(wantedSenderID: int, es: seq<Event>, oid: Oid, i: int) {
    && 0 <= i < |es| && Locates(wantedSenderID, es[i], oid)
    && forall j :: i < j < |es| ==> !Locates(wantedSenderID, es[j], oid) && !Removes(wantedSenderID, es[j], oid)
  }

  lemma LastLocatedBefore(wantedSenderID: int, es: seq<Event>, oid: Oid, i: int)
    requires LastLocated(wantedSenderID, es, oid, i) && i < |es| - 1
    ensures LastLocated(wantedSenderID, es[..|es| - 1], oid, i)
  {
  }

  /** After any events, a touch that is down is where its last accepted location put it, with that radius. */
  lemma {:induction false} IsWhereLastLocated(wantedSenderID: int, es: seq<Event>, oid: Oid, i: int)
    requires LastLocated(wantedSenderID, es, oid, i)
    ensures var marks := MarksAfterAll(wantedSenderID, es);
            oid in marks && marks[oid].loc == es[i].loc && marks[oid].radius == es[i].radius && marks[oid].wasUpdated
    decreases |es|
  {
    if i < |es| - 1 {
      LastLocatedBefore(wantedSenderID, es, oid, i);
      IsWhereLastLocated(wantedSenderID, es[..|es| - 1], oid, i);
    }
  }

  /** Its movement is the difference from where it was located before, or nothing if it was not down then. */
  lemma {:induction false} MovedSinceBefore(wantedSenderID: int, es: seq<Event>, oid: Oid, i: int)
    requires LastLocated(wantedSenderID, es, oid, i)
    ensures oid in MarksAfterAll(wantedSenderID, es)
    ensures var delta := MarksAfterAll(wantedSenderID, es)[oid].delta;
            && (forall h :: LastLocated(wantedSenderID, es[..i], oid, h) ==> delta == Difference(es[i].loc, es[h].loc))
            && (oid !in AfterAll(wantedSenderID, es[..i]) ==> delta == Point(0.0, 0.0))
    decreases |es|
  {
    IsWhereLastLocated(wantedSenderID, es, oid, i);
    if i < |es| - 1 {
      LastLocatedBefore(wantedSenderID, es, oid, i);
      MovedSinceBefore(wantedSenderID, es[..|es| - 1], oid, i);
      IsWhereLastLocated(wantedSenderID, es[..|es| - 1], oid, i);
      assert es[..|es| - 1][..i] == es[..i];
    } else {
      MarkedAreDown(wantedSenderID, es[..i]);
      forall h | LastLocated(wantedSenderID, es[..i], oid, h)
        ensures MarksAfterAll(wantedSenderID, es)[oid].delta == Difference(es[i].loc, es[h].loc)
      {
        IsWhereLastLocated(wantedSenderID, es[..i], oid, h);
      }
    }
  }

  /** What is down is what has a place. */
  lemma {:induction false} MarkedAreDown(wantedSenderID: int, es: seq<Event>)
    ensures forall oid :: oid in MarksAfterAll(wantedSenderID, es) <==> oid in AfterAll(wantedSenderID, es)
  {
    if es != [] {
      var n := |es| - 1;
      MarkedAreDown(wantedSenderID, es[..n]);
      forall oid
        ensures oid in MarksAfterAll(wantedSenderID, es) <==> oid in AfterAll(wantedSenderID, es)
      {
        AfterMeans(AfterAll(wantedSenderID, es[..n]), wantedSenderID, es[n], oid);
      }
    }
  }

  /** `TT_touch_state_t`. */
  class TouchState {
    var oid: Oid
    var loc: Point
    var delta: Point
    var radius: real
    var wasUpdated: bool
    var remove: bool

    /** `calloc`. */
    constructor ()
      ensures oid == 0 && loc == delta == Point(0.0, 0.0) && radius == 0.0 && !wasUpdated && !remove
    {
      oid, loc, delta, radius, wasUpdated, remove := 0, Point(0.0, 0.0), Point(0.0, 0.0), 0.0, false, false;
    }

    function Marked(): Mark
      reads this
    {
      Mark(loc, delta, radius, wasUpdated)
    }
  }

  class STouchManager {
    const wantedSenderID: int
    var oidTouchMap: map<Oid, TouchState>
    var touchesDown: seq<TouchState>
    var touchesUp: seq<TouchState>
    /** Every record that was allocated, and those that were freed. */
    ghost var records: set<TouchState>
    ghost var freed: set<TouchState>

    ghost predicate Valid()
      reads this, records
    {
      Owned({}) && Filed()
    }

    /** Every record is down, or up, or freed, or one of those just allocated; none that is held is freed,
        and none is up twice. */
    ghost predicate Owned(loose: set<TouchState>)
      reads this
    {
      && (forall t :: t in touchesDown ==> t in records && t !in freed && t !in loose)
      && (forall t :: t in touchesUp ==> t in records && t !in freed && t !in loose)
      && (forall t :: t in freed ==> t in records && t !in loose)
      && (forall t :: t in loose ==> t in records)
      && (forall t :: t in records ==> t in touchesDown || t in touchesUp || t in freed || t in loose)
      && NoDuplicates(touchesUp)
    }

    /** The map files exactly the touches that are down, each under its own oid, so that no two have one
        oid; and only those that are up are marked as removed. */
    ghost predicate Filed()
      reads this, records
    {
      && (forall t :: t in touchesDown ==> t in records)
      && (forall t :: t in touchesUp ==> t in records)
      && (forall i, j :: 0 <= i < j < |touchesDown| ==> touchesDown[i].oid != touchesDown[j].oid)
      && (forall t :: t in touchesDown ==> t.oid in oidTouchMap && oidTouchMap[t.oid] == t && !t.remove)
      && (forall o :: o in oidTouchMap ==> oidTouchMap[o] in touchesDown && oidTouchMap[o].oid == o)
      && (forall t :: t in touchesUp ==> t.remove)
    }

    /** So what is down is there once, and what is up is not down. */
    lemma OwnedOnce()
      requires Valid()
      ensures NoDuplicates(touchesDown) && forall t :: t in touchesUp ==> t !in touchesDown
    {
    }

    ghost function Down(): (s: seq<Oid>)
      requires Filed()
      reads this, records
    {
      seq(|touchesDown|, i requires 0 <= i < |touchesDown| && touchesDown[i] in records reads this, records => touchesDown[i].oid)
    }

    ghost function Marks(): map<Oid, Mark>
      requires Filed()
      reads this, records
    {
      map o | o in oidTouchMap && oidTouchMap[o] in records :: oidTouchMap[o].Marked()
    }

    constructor (wantedSenderID: int)
      ensures this.wantedSenderID == wantedSenderID && Valid()
      ensures Down() == [] && Marks() == map[] && touchesUp == [] && records == {}
    {
      this.wantedSenderID := wantedSenderID;
      oidTouchMap, touchesDown, touchesUp, records, freed := map[], [], [], {}, {};
    }

    /** The marks are those of the records on file. */
    lemma MarkOf(oid: Oid)
      requires Filed()
      ensures oid in Marks() <==> oid in oidTouchMap
      ensures oid in oidTouchMap ==> Marks()[oid] == oidTouchMap[oid].Marked()
    {
    }

    lemma MapIsDown(oid: Oid)
      requires Filed()
      ensures oid in oidTouchMap <==> oid in Down()
    {
      if oid in oidTouchMap {
        var i :| 0 <= i < |touchesDown| && touchesDown[i] == oidTouchMap[oid];
        assert Down()[i] == oid;
      }
    }

    /** `newTouchStateForEvent`: a record, or none when the event does not parse or is somebody else's;
        then what was allocated is freed again. */
    method NewTouchStateForEvent(e: Event) returns (ts: TouchState?)
      requires Valid() && (e.Location? || e.BadLocation?)
      modifies this`records, this`freed
      ensures Owned(if ts == null then {} else {ts}) && Filed() && Down() == old(Down()) && Marks() == old(Marks())
      ensures fresh(records - old(records)) && old(records) <= records
      ensures ts == null <==> !(e.Location? && Accepts(wantedSenderID, e.senderID))
      ensures ts != null ==>
                && fresh(ts) && freed == old(freed)
                && ts.oid == e.oid && ts.Marked() == Mark(e.loc, Point(0.0, 0.0), e.radius, true) && !ts.remove
    {
      hide Marks, Down;
      ts := new TouchState();
      records := records + {ts};
      if e.Location? && Accepts(wantedSenderID, e.senderID) {
        ts.loc := e.loc;
        ts.radius := e.radius;
        ts.oid := e.oid;
        ts.wasUpdated := true;
      } else {
        Free(ts);
        ts := null;
      }
      SameMarks();
    }

    /** New records change nothing of what is down. */
    twostate lemma SameMarks()
      requires old(Filed()) && oidTouchMap == old(oidTouchMap) && touchesDown == old(touchesDown)
      requires touchesUp == old(touchesUp) || touchesUp == []
      requires old(records) <= records && forall t :: t in old(records) ==> unchanged(t)
      ensures Filed() && Marks() == old(Marks()) && Down() == old(Down())
    {
      assert forall o :: o in oidTouchMap ==> oidTouchMap[o] in old(records);
      hide TouchState.Marked;
      assert Marks().Keys == old(Marks()).Keys;
      forall o | o in oidTouchMap
        ensures oidTouchMap[o].Marked() == old(oidTouchMap[o].Marked())
      {
        assert unchanged(oidTouchMap[o]);
      }
    }

    /** `updateTouch`. */
    method UpdateTouch(obj: TouchState, newObj: TouchState)
      requires obj != newObj && obj.oid == newObj.oid
      modifies obj
      ensures obj.delta == Point(newObj.loc.x - old(obj.loc).x, newObj.loc.y - old(obj.loc).y)
      ensures obj.loc == newObj.loc && obj.radius == newObj.radius && obj.wasUpdated
      ensures obj.oid == old(obj.oid) && obj.remove == old(obj.remove)
    {
      obj.delta := Point(newObj.loc.x - obj.loc.x, newObj.loc.y - obj.loc.y);
      obj.loc := newObj.loc;
      obj.radius := newObj.radius;
      obj.oid := newObj.oid;
      obj.wasUpdated := true;
    }

    /** A record is freed once. */
    ghost method Free(t: TouchState)
      requires t in records && t !in freed
      modifies this`freed
      ensures freed == old(freed) + {t}
    {
      freed := freed + {t};
    }

    /** A touch that is down is told where it is now; the record that brought the news is freed. */
    method Move(state: TouchState)
      requires Owned({state}) && Filed() && state.oid in oidTouchMap
      modifies this`freed, oidTouchMap[state.oid]
      ensures Valid() && Down() == old(Down()) && freed == old(freed) + {state}
      ensures Marks() == old(Marks())[state.oid := Mark(state.loc, Difference(state.loc, old(oidTouchMap[state.oid].loc)), state.radius, true)]
    {
      UpdateTouch(oidTouchMap[state.oid], state);
      Free(state);
    }

    /** A new touch is down. */
    method Appear(state: TouchState)
      requires Owned({state}) && Filed() && state.oid !in oidTouchMap && !state.remove
      modifies this`oidTouchMap, this`touchesDown
      ensures Valid() && touchesDown == old(touchesDown) + [state] && Down() == old(Down()) + [state.oid]
      ensures Marks() == old(Marks())[state.oid := state.Marked()]
    {
      hide Marks, TouchState.Marked;
      oidTouchMap := oidTouchMap[state.oid := state];
      touchesDown := touchesDown + [state];
      AppearedMarks(state);
    }

    twostate lemma AppearedMarks(new state: TouchState)
      requires old(Filed()) && Filed() && records == old(records) && oidTouchMap == old(oidTouchMap)[state.oid := state]
      requires state in records && forall t :: t in records ==> unchanged(t)
      ensures Marks() == old(Marks())[state.oid := state.Marked()]
    {
      hide TouchState.Marked;
      forall t | t in records
        ensures t.Marked() == old(t.Marked())
      {
        assert unchanged(t);
      }
      assert forall o :: o in old(oidTouchMap) ==> old(oidTouchMap)[o] in records;
      assert Marks().Keys == oidTouchMap.Keys;
    }

    /** The first half of `handleEvent`, for a location. */
    method HandleLocation(e: Event) returns (shouldRunCallback: bool)
      requires Valid() && (e.Location? || e.BadLocation?)
      modifies this, records
      ensures Valid() && fresh(records - old(records)) && touchesUp == old(touchesUp)
      ensures Down() == After(old(Down()), wantedSenderID, e)
      ensures shouldRunCallback <==> e.Location? && Accepts(wantedSenderID, e.senderID) && e.last
      ensures Marks() == MarksAfter(old(Marks()), wantedSenderID, e)
    {
      hide Filed, Owned, Marks, TouchState.Marked;
      shouldRunCallback := false;
      var state := NewTouchStateForEvent(e);
      if state != null {
        MapIsDown(state.oid);
        MarkOf(state.oid);
        if state.oid in oidTouchMap {
          PlaceOf(oidTouchMap[state.oid]);
          PlaceOf(state);
          assert oidTouchMap[state.oid] in records by { MapIsKept(state.oid); }
          Move(state);
        } else {
          Appear(state);
        }
        shouldRunCallback := e.last;
      }
    }

    lemma PlaceOf(t: TouchState)
      ensures t.Marked().loc == t.loc && t.Marked().radius == t.radius
    {
    }

    lemma MapIsKept(oid: Oid)
      requires Filed() && oid in oidTouchMap
      ensures oidTouchMap[oid] in records
    {
    }

    /** The record is looked for among those that are down and taken out. */
    method Erase(state: TouchState) returns (ghost i: nat)
      requires NoDuplicates(touchesDown) && state in touchesDown
      modifies this`touchesDown
      ensures i < |old(touchesDown)| && old(touchesDown)[i] == state
      ensures touchesDown == old(touchesDown)[..i] + old(touchesDown)[i + 1..]
    {
      var k := 0;
      while touchesDown[k] != state
        invariant k < |touchesDown| && state !in touchesDown[..k]
        decreases |touchesDown| - k
      {
        assert state in touchesDown[k + 1..];
        k := k + 1;
      }
      touchesDown := touchesDown[..k] + touchesDown[k + 1..];
      i := k;
    }

    /** A touch that is down goes up. */
    method Lift(oid: Oid)
      requires Valid() && oid in oidTouchMap
      modifies this`oidTouchMap, this`touchesDown, this`touchesUp, oidTouchMap[oid]
      ensures Valid() && touchesUp == old(touchesUp) + [old(oidTouchMap[oid])]
      ensures Down() == Without(old(Down()), oid) && Marks() == old(Marks()) - {oid}
    {
      hide Owned, Filed, Without, Marks;
      ghost var down := Down();
      OwnedOnce();
      FiledUnder(oid);
      var state := oidTouchMap[oid];
      oidTouchMap := oidTouchMap - {oid};
      ghost var i := Erase(state);
      state.remove := true;
      touchesUp := touchesUp + [state];
      LiftedOwned(i);
      LiftedFiled(i);
      LiftedDown(i);
      LiftedMarks(oid);
      WithoutAt(down, i);
    }

    lemma FiledUnder(oid: Oid)
      requires Filed() && oid in oidTouchMap
      ensures oidTouchMap[oid] in touchesDown && oidTouchMap[oid].oid == oid && NoDuplicates(Down())
    {
    }

    /** What the `i`th touch going up does. */
    twostate predicate Lifted(new i: nat)
      reads this
    {
      && i < |old(touchesDown)| && touchesDown == old(touchesDown)[..i] + old(touchesDown)[i + 1..]
      && touchesUp == old(touchesUp) + [old(touchesDown)[i]] && records == old(records) && freed == old(freed)
    }

    twostate lemma LiftedOwned(new i: nat)
      requires old(Owned({})) && Lifted(i) && NoDuplicates(old(touchesDown))
      requires forall t :: t in old(touchesUp) ==> t !in old(touchesDown)
      ensures Owned({})
    {
      var down, up := old(touchesDown), old(touchesUp);
      assert down == down[..i] + [down[i]] + down[i + 1..];
      assert touchesUp[|up|] == down[i] && down[i] !in up;
      assert forall t :: t in down ==> t == down[i] || t in touchesDown;
      assert forall t :: t in up ==> t in touchesUp;
    }

    twostate lemma LiftedFiled(new i: nat)
      requires old(Filed()) && Lifted(i) && touchesUp[|touchesUp| - 1].remove
      requires oidTouchMap == old(oidTouchMap) - {old(touchesDown[i].oid)}
      requires forall t :: t in old(records) ==> t.oid == old(t.oid)
      requires forall t :: t in old(records) && t != old(touchesDown)[i] ==> t.remove == old(t.remove)
      ensures Filed()
    {
      var down := old(touchesDown);
      assert down == down[..i] + [down[i]] + down[i + 1..];
    }

    twostate lemma LiftedDown(new i: nat)
      requires old(Filed()) && Filed() && Lifted(i)
      requires forall t :: t in old(records) ==> t.oid == old(t.oid)
      ensures Down() == old(Down())[..i] + old(Down())[i + 1..]
    {
    }

    twostate lemma LiftedMarks(new oid: Oid)
      requires old(Filed()) && Filed() && oidTouchMap == old(oidTouchMap) - {oid} && records == old(records)
      requires forall t :: t in old(records) ==> t.Marked() == old(t.Marked())
      ensures Marks() == old(Marks()) - {oid}
    {
    }

    /** The first half of `handleEvent`, for a removal. */
    method HandleRemove(e: Event) returns (shouldRunCallback: bool)
      requires Valid() && (e.Remove? || e.BadRemove?)
      modifies this, records
      ensures Valid() && records == old(records) && freed == old(freed)
      ensures Down() == After(old(Down()), wantedSenderID, e)
      ensures shouldRunCallback <==> e.Remove? && e.oid in old(Down()) && e.oid !in Down()
      ensures touchesUp == if shouldRunCallback then old(touchesUp) + [old(oidTouchMap[e.oid])] else old(touchesUp)
      ensures shouldRunCallback <==> e.Remove? && Accepts(wantedSenderID, e.senderID) && e.oid in old(Down())
      ensures Marks() == MarksAfter(old(Marks()), wantedSenderID, e)
    {
      hide Filed, Owned, Marks;
      shouldRunCallback := false;
      if e.Remove? && Accepts(wantedSenderID, e.senderID) {
        MapIsDown(e.oid);
        if e.oid in oidTouchMap {
          MapIsKept(e.oid);
          WithoutMeans(Down(), e.oid);
          Lift(e.oid);
          shouldRunCallback := true;
        } else {
          WithoutAbsent(Down(), e.oid);
          MarkOf(e.oid);
          assert Marks() - {e.oid} == Marks();
        }
      }
    }

    /** `runCallback`: whoever listens is shown what is down and what went up; then the records of what
        went up are freed, each of them once. */
    method RunCallback() returns (down: seq<TouchState>, up: seq<TouchState>)
      requires Valid()
      modifies this`touchesUp, this`freed
      ensures Valid() && Down() == old(Down()) && Marks() == old(Marks()) && touchesUp == []
      ensures down == touchesDown && up == old(touchesUp)
      ensures freed == old(freed) + set t | t in old(touchesUp)
    {
      hide Marks, Down;
      down, up := touchesDown, touchesUp;
      for i := 0 to |touchesUp|
        invariant touchesUp == up && freed == old(freed) + set t | t in up[..i]
      {
        Free(touchesUp[i]);
      }
      touchesUp := [];
      SameMarks();
    }

    /** `handleEvent`, and what the callback is shown if it is called. Other threads may take the lock between
        the two halves; both keep `Valid`. */
    method HandleEvent(e: Event) returns (called: bool, down: seq<TouchState>, up: seq<TouchState>)
      requires Valid()
      modifies this, records
      ensures Valid() && fresh(records - old(records))
      ensures Down() == After(old(Down()), wantedSenderID, e)
      ensures Marks() == MarksAfter(old(Marks()), wantedSenderID, e)
      ensures e.Location? && Accepts(wantedSenderID, e.senderID) ==>
                && e.oid in oidTouchMap
                && var t := oidTouchMap[e.oid];
                   && t.loc == e.loc && t.radius == e.radius && t.wasUpdated
                   && t.delta == if e.oid in old(Marks()) then Difference(e.loc, old(Marks())[e.oid].loc) else Point(0.0, 0.0)
      ensures called <==> (Locates(wantedSenderID, e, if e.Location? then e.oid else 0) && e.last)
                          || (e.Remove? && Accepts(wantedSenderID, e.senderID) && e.oid in old(Down()))
      ensures called ==> touchesUp == [] && down == touchesDown
                         && up == old(touchesUp) + if e.Remove? then [old(oidTouchMap[e.oid])] else []
      ensures !called ==> touchesUp == old(touchesUp)
    {
      hide Filed, Owned, Marks, MarksAfter;
      called, down, up := false, [], [];
      if e.Location? || e.BadLocation? {
        called := HandleLocation(e);
      } else if e.Remove? || e.BadRemove? {
        called := HandleRemove(e);
      }
      if called {
        down, up := RunCallback();
      }
      NothingElse(e, old(Marks()));
      if e.Location? && Accepts(wantedSenderID, e.senderID) {
        MarkOf(e.oid);
      }
    }

    lemma NothingElse(e: Event, marks: map<Oid, Mark>)
      ensures e.Other? || e.BadLocation? || e.BadRemove? ==> MarksAfter(marks, wantedSenderID, e) == marks
      ensures e.Location? && Accepts(wantedSenderID, e.senderID) ==>
                && e.oid in MarksAfter(marks, wantedSenderID, e)
                && var m := MarksAfter(marks, wantedSenderID, e)[e.oid];
                   && m.loc == e.loc && m.radius == e.radius && m.wasUpdated
                   && m.delta == if e.oid in marks then Difference(e.loc, marks[e.oid].loc) else Point(0.0, 0.0)
    {
    }

    /** Events one after the other, from the beginning: each touch that is down is where it was located last. */
    method HandleAll(es: seq<Event>)
      requires Valid() && Down() == [] && Marks() == map[]
      modifies this, records
      ensures Valid() && Down() == AfterAll(wantedSenderID, es) && Marks() == MarksAfterAll(wantedSenderID, es)
      ensures forall oid :: oid in oidTouchMap <==> exists i :: DownSince(wantedSenderID, es, oid, i)
      ensures forall oid, i :: LastLocated(wantedSenderID, es, oid, i) ==>
                && oid in oidTouchMap && oidTouchMap[oid].loc == es[i].loc && oidTouchMap[oid].radius == es[i].radius
    {
      hide Filed, Owned, Marks, MarksAfter, After;
      for i := 0 to |es|
        invariant Valid() && fresh(records - old(records))
        invariant Down() == AfterAll(wantedSenderID, es[..i]) && Marks() == MarksAfterAll(wantedSenderID, es[..i])
      {
        var called, down, up := HandleEvent(es[i]);
        assert es[..i + 1][..i] == es[..i];
      }
      assert es[..|es|] == es;
      forall oid
        ensures oid in oidTouchMap <==> exists i :: DownSince(wantedSenderID, es, oid, i)
      {
        DownMeans(wantedSenderID, es, oid);
        MapIsDown(oid);
      }
      forall oid, i | LastLocated(wantedSenderID, es, oid, i)
        ensures oid in oidTouchMap && oidTouchMap[oid].loc == es[i].loc && oidTouchMap[oid].radius == es[i].radius
      {
        IsWhereLastLocated(wantedSenderID, es, oid, i);
        MarkOf(oid);
      }
    }
  }
}
