/**
 The simulation engine: its initial state built from the store, the
 start/stop/pause/resume flags, the once-per-tick pass that advances every
 vehicle and overwrites its published live position, and the two read
 operations on the published positions.

 The engine is a value; each control operation and each loop iteration is a
 function from engine to engine. A whole loop iteration is one step, which is
 what the C++ engine's single lock around the pass guarantees to readers.
 */
module SimulationEngine {
  import opened Kinematics
  import opened Storage
  import opened Motion

  /** A published live position. */
  datatype LivePosition = LivePosition(
    vehicleId: int,
    x: real,
    y: real,
    currentStopIndex: int,
    nextStopIndex: int,
    routeName: string,
    kind: string,
    progress: real)

  /** What a lookup of an unknown vehicle returns: every field zero or empty. */
  const NotFound: LivePosition := LivePosition(0, 0.0, 0.0, 0, 0, "", "", 0.0)

  /** Both maps are keyed by vehicle id, so a vehicle has at most one state
      and at most one published position. */
  datatype Engine = Engine(
    running: bool,
    paused: bool,
    states: map<int, VehicleState>,
    live: map<int, LivePosition>)

  /** Whether a vehicle's route has any stops, i.e. whether it gets a state. */
  predicate HasRoute(db: Db, v: VehicleRecord)
  {
    |RouteStops(db, v.routeId)| > 0
  }

  /** The state a vehicle starts in: at its route's first stop, heading for
      the second (or standing on the only one), nothing travelled, no dwell,
      forward, with the model its type string selects. */
  function InitialState(db: Db, v: VehicleRecord): (s: VehicleState)
    requires HasRoute(db, v)
    ensures StateInv(db, s)
    ensures s.vehicleId == v.id && s.routeId == v.routeId && s.speed == v.avgSpeed
    ensures s.stopIds == RouteStops(db, v.routeId)
    ensures s.idx == 0 && s.progress == 0.0 && s.dwell == 0.0 && s.forward
    ensures s.pos == StopCoords(db, s.stopIds[0])
    ensures |s.stopIds| == 1 ==> s.target == s.pos
    ensures s.model == ClassOf(v.kind)
  {
    var ids := RouteStops(db, v.routeId);
    var pos := StopCoords(db, ids[0]);
    var target := if |ids| > 1 then StopCoords(db, ids[1]) else pos;
    VehicleState(v.id, v.routeId, ids, 0, pos, target, v.avgSpeed, 0.0, true, 0.0, ClassOf(v.kind))
  }

  predicate UniqueIds(vs: seq<VehicleRecord>)
  {
    forall i, j :: 0 <= i < j < |vs| ==> vs[i].id != vs[j].id
  }

  /** Vehicle `i` of the list has id `id` and a route with stops. */
  predicate RoutedAt(db: Db, vs: seq<VehicleRecord>, i: int, id: int)
  {
    0 <= i < |vs| && vs[i].id == id && HasRoute(db, vs[i])
  }

  /** The states built from the vehicle list, in list order: a vehicle with
      no route stops is skipped, and a later vehicle overwrites an earlier
      one with the same id. */
  function InitStates(db: Db, vs: seq<VehicleRecord>): (m: map<int, VehicleState>)
    ensures forall id :: id in m ==> exists i :: RoutedAt(db, vs, i, id) && m[id] == InitialState(db, vs[i])
    decreases |vs|
  {
    if |vs| == 0 then map[]
    else
      var front := vs[..|vs| - 1];
      var v := vs[|vs| - 1];
      var m := InitStates(db, front);
      var r := if HasRoute(db, v) then m[v.id := InitialState(db, v)] else m;
      assert forall id :: id in r ==> exists i :: RoutedAt(db, vs, i, id) && r[id] == InitialState(db, vs[i]) by {
        forall id | id in r
          ensures exists i :: RoutedAt(db, vs, i, id) && r[id] == InitialState(db, vs[i])
        {
          if HasRoute(db, v) && id == v.id {
            assert RoutedAt(db, vs, |vs| - 1, id);
          } else {
            var i :| RoutedAt(db, front, i, id) && m[id] == InitialState(db, front[i]);
            assert front[i] == vs[i];
            assert RoutedAt(db, vs, i, id);
          }
        }
      }
      r
  }

  /** Exactly the routed vehicles get a state. */
  lemma {:induction false} InitStatesKeys(db: Db, vs: seq<VehicleRecord>)
    ensures forall id :: id in InitStates(db, vs) <==> exists i :: RoutedAt(db, vs, i, id)
    decreases |vs|
  {
    if |vs| > 0 {
      var front := vs[..|vs| - 1];
      var v := vs[|vs| - 1];
      InitStatesKeys(db, front);
      forall id
        ensures id in InitStates(db, vs) <==> exists i :: RoutedAt(db, vs, i, id)
      {
        if exists i :: RoutedAt(db, vs, i, id) {
          var i :| RoutedAt(db, vs, i, id);
          if i < |vs| - 1 {
            assert RoutedAt(db, front, i, id);
          }
        }
        if id in InitStates(db, vs) {
          var i :| RoutedAt(db, vs, i, id) && InitStates(db, vs)[id] == InitialState(db, vs[i]);
        }
      }
    }
  }

  /** Every initial state satisfies the motion invariant, sits at the first
      stop with no progress and no dwell, and is filed under its own id. */
  lemma InitStatesInv(db: Db, vs: seq<VehicleRecord>)
    ensures var m := InitStates(db, vs);
      forall id :: id in m ==>
        && StateInv(db, m[id]) && m[id].vehicleId == id
        && m[id].idx == 0 && m[id].progress == 0.0 && m[id].dwell == 0.0
  {
  }

  /** With distinct vehicle ids (the store's primary key) each routed vehicle
      gets exactly its own initial state. */
  lemma {:induction false} InitStatesUnique(db: Db, vs: seq<VehicleRecord>)
    requires UniqueIds(vs)
    ensures forall i :: 0 <= i < |vs| && HasRoute(db, vs[i]) ==>
              vs[i].id in InitStates(db, vs) && InitStates(db, vs)[vs[i].id] == InitialState(db, vs[i])
    decreases |vs|
  {
    if |vs| > 0 {
      var front := vs[..|vs| - 1];
      assert forall i :: 0 <= i < |front| ==> front[i] == vs[i];
      assert UniqueIds(front);
      InitStatesUnique(db, front);
      InitStatesKeys(db, vs);
      forall i | 0 <= i < |vs| && HasRoute(db, vs[i])
        ensures vs[i].id in InitStates(db, vs) && InitStates(db, vs)[vs[i].id] == InitialState(db, vs[i])
      {
        assert RoutedAt(db, vs, i, vs[i].id);
        if i < |vs| - 1 {
          assert vs[i].id != vs[|vs| - 1].id;
          assert front[i] == vs[i];
        }
      }
    }
  }

  /** A new engine: stopped, paused, every routed vehicle at its first stop,
      nothing published yet. */
  function New(db: Db): (e: Engine)
    ensures !e.running && e.paused && e.live == map[]
  {
    Engine(false, true, InitStates(db, db.vehicles), map[])
  }

  function IsRunning(e: Engine): bool
  {
    e.running
  }

  function IsPaused(e: Engine): bool
  {
    e.paused
  }

  /** Begin ticking; nothing happens if the engine already runs. The pause
      flag is left as it was, so a new engine still does not move. */
  function Start(e: Engine): (r: Engine)
    ensures r.running
    ensures e.running ==> r == e
    ensures r.paused == e.paused && r.states == e.states && r.live == e.live
  {
    if e.running then e else e.(running := true)
  }

  /** Stop ticking; nothing happens if the engine is not running. */
  function Stop(e: Engine): (r: Engine)
    ensures !r.running
    ensures !e.running ==> r == e
    ensures r.paused == e.paused && r.states == e.states && r.live == e.live
  {
    if !e.running then e else e.(running := false)
  }

  function Pause(e: Engine): (r: Engine)
    ensures IsPaused(r)
    ensures r.running == e.running && r.states == e.states && r.live == e.live
  {
    e.(paused := true)
  }

  function Resume(e: Engine): (r: Engine)
    ensures !IsPaused(r)
    ensures r.running == e.running && r.states == e.states && r.live == e.live
  {
    e.(paused := false)
  }

  /** The live position published for a vehicle after its update. The route
      name and type come from the vehicle's row, not from the state. */
  function Publish(db: Db, id: int, s: VehicleState): (p: LivePosition)
    requires |s.stopIds| > 0
    ensures p.vehicleId == id && p.x == s.pos.x && p.y == s.pos.y
    ensures p.currentStopIndex == s.idx && p.progress == s.progress
    ensures 0 <= p.nextStopIndex < |s.stopIds|
    ensures Indexed(s) ==> p.nextStopIndex == Advance(true, s.idx, |s.stopIds|)
    ensures p.routeName == VehicleById(db.vehicles, id).routeName
    ensures p.kind == VehicleById(db.vehicles, id).kind
  {
    var v := VehicleById(db.vehicles, id);
    LivePosition(id, s.pos.x, s.pos.y, s.idx, (s.idx + 1) % |s.stopIds|, v.routeName, v.kind, s.progress)
  }

  predicate AllIndexed(e: Engine)
  {
    forall id :: id in e.states ==> Indexed(e.states[id])
  }

  /** What holds of every engine from New on: each state satisfies the motion
      invariant and is filed under its own vehicle's id; nothing is published
      before the first moving tick, and after it every vehicle with a state
      has exactly the position its current state projects to. */
  ghost predicate EngineInv(db: Db, e: Engine)
  {
    && (forall id :: id in e.states ==> StateInv(db, e.states[id]) && e.states[id].vehicleId == id)
    && (e.live == map[] || e.live.Keys == e.states.Keys)
    && e.live.Keys <= e.states.Keys
    && (forall id :: id in e.live ==> e.live[id] == Publish(db, id, e.states[id]))
  }

  /** One iteration of the simulation loop. A stopped engine has no loop and
      a paused one skips the pass, so both are left alone. Otherwise every
      vehicle is updated once and its live position overwritten. */
  function Tick(env: Env, e: Engine): (r: Engine)
    requires AllIndexed(e)
    ensures AllIndexed(r)
    ensures !e.running || e.paused ==> r == e
    ensures r.running == e.running && r.paused == e.paused
    ensures r.states.Keys == e.states.Keys
    ensures e.running && !e.paused ==>
              && r.live.Keys == e.live.Keys + e.states.Keys
              && (forall id :: id in e.states ==>
                    r.states[id] == UpdateVehicle(env, e.states[id], DeltaTime)
                    && r.live[id] == Publish(env.db, id, r.states[id]))
    ensures e.running && !e.paused ==>
              forall id :: id in e.live && id !in e.states ==> r.live[id] == e.live[id]
  {
    if !e.running || e.paused then e
    else
      var states := map id | id in e.states :: UpdateVehicle(env, e.states[id], DeltaTime);
      var published := map id | id in states :: Publish(env.db, id, states[id]);
      e.(states := states, live := e.live + published)
  }

  /** A loop iteration preserves the engine invariant: updated states keep
      the motion invariant and their ids, and after a moving iteration every
      vehicle with a state is published from that state. */
  lemma TickPreservesInv(env: Env, e: Engine)
    requires AllIndexed(e)
    ensures EngineInv(env.db, e) ==> EngineInv(env.db, Tick(env, e))
  {
    if EngineInv(env.db, e) && e.running && !e.paused {
      TickStates(env, e);
      TickLive(env, e);
    }
  }

  lemma TickStates(env: Env, e: Engine)
    requires AllIndexed(e) && e.running && !e.paused
    requires forall id :: id in e.states ==> StateInv(env.db, e.states[id]) && e.states[id].vehicleId == id
    ensures var r := Tick(env, e);
      forall id :: id in r.states ==> StateInv(env.db, r.states[id]) && r.states[id].vehicleId == id
  {
    var r := Tick(env, e);
    forall id | id in r.states
      ensures StateInv(env.db, r.states[id]) && r.states[id].vehicleId == id
    {
      assert r.states[id] == UpdateVehicle(env, e.states[id], DeltaTime);
    }
  }

  lemma TickLive(env: Env, e: Engine)
    requires AllIndexed(e) && e.running && !e.paused
    requires e.live.Keys <= e.states.Keys
    ensures var r := Tick(env, e);
      && r.live.Keys == r.states.Keys
      && forall id :: id in r.live ==> r.live[id] == Publish(env.db, id, r.states[id])
  {
    var r := Tick(env, e);
    forall id | id in r.live
      ensures r.live[id] == Publish(env.db, id, r.states[id])
    {
      assert id in e.states;
    }
  }

  /** The published position of one vehicle, or the all-zero record. */
  function GetVehiclePosition(e: Engine, id: int): (p: LivePosition)
    ensures id in e.live ==> p == e.live[id]
    ensures id !in e.live ==> p == NotFound
  {
    if id in e.live then e.live[id] else NotFound
  }

  lemma NonEmptyHasElement(s: set<int>)
    requires s != {}
    ensures exists x :: x in s
  {
    if forall x :: x !in s {
      assert false;
    }
  }

  /** The smallest element of a non-empty set. */
  method MinOf(s: set<int>) returns (m: int)
    requires s != {}
    ensures m in s
    ensures forall x :: x in s ==> m <= x
  {
    NonEmptyHasElement(s);
    m :| m in s;
    var todo := s - {m};
    while todo != {}
      invariant todo <= s && m in s
      invariant forall y :: y in s && y !in todo ==> m <= y
      decreases todo
    {
      NonEmptyHasElement(todo);
      var x :| x in todo;
      if x < m {
        m := x;
      }
      todo := todo - {x};
    }
  }

  /** A copy of every published position, in ascending vehicle id (the order
      of the C++ engine's ordered map). */
  method GetLivePositions(e: Engine) returns (r: seq<LivePosition>)
    ensures |r| == |e.live|
    ensures forall id :: id in e.live ==> e.live[id] in r
    ensures forall i :: 0 <= i < |r| ==> r[i] in e.live.Values
    ensures (forall id :: id in e.live ==> e.live[id].vehicleId == id) ==>
              forall i, j :: 0 <= i < j < |r| ==> r[i].vehicleId < r[j].vehicleId
  {
    var rest := e.live.Keys;
    r := [];
    ghost var ks: seq<int> := [];
    while rest != {}
      invariant rest <= e.live.Keys
      invariant |ks| == |r| && |r| + |rest| == |e.live.Keys|
      invariant forall i :: 0 <= i < |ks| ==> ks[i] in e.live && ks[i] !in rest && r[i] == e.live[ks[i]]
      invariant forall id :: id in e.live && id !in rest ==> id in ks
      invariant forall i, j :: 0 <= i < j < |ks| ==> ks[i] < ks[j]
      invariant forall i, k :: 0 <= i < |ks| && k in rest ==> ks[i] < k
      decreases rest
    {
      var k := MinOf(rest);
      r := r + [e.live[k]];
      ks := ks + [k];
      rest := rest - {k};
    }
    assert |e.live.Keys| == |e.live|;
    ListedInOrder(e.live, ks, r);
  }

  /** A list of the entries under ascending keys that cover the map holds
      every entry, only entries, and is ordered by vehicle id when each
      entry carries its own key. */
  lemma ListedInOrder(live: map<int, LivePosition>, ks: seq<int>, r: seq<LivePosition>)
    requires |ks| == |r|
    requires forall i :: 0 <= i < |ks| ==> ks[i] in live && r[i] == live[ks[i]]
    requires forall id :: id in live ==> id in ks
    requires forall i, j :: 0 <= i < j < |ks| ==> ks[i] < ks[j]
    ensures forall id :: id in live ==> live[id] in r
    ensures forall i :: 0 <= i < |r| ==> r[i] in live.Values
    ensures (forall id :: id in live ==> live[id].vehicleId == id) ==>
              forall i, j :: 0 <= i < j < |r| ==> r[i].vehicleId < r[j].vehicleId
  {
    forall id | id in live
      ensures live[id] in r
    {
      var i :| 0 <= i < |ks| && ks[i] == id;
      assert r[i] == live[id];
    }
    forall i | 0 <= i < |r|
      ensures r[i] in live.Values
    {
      assert ks[i] in live;
    }
  }

  /** A command to the engine, as the control surface and the loop issue them. */
  datatype Command = StartCmd | StopCmd | PauseCmd | ResumeCmd | TickCmd

  function Apply(env: Env, e: Engine, c: Command): (r: Engine)
    requires AllIndexed(e)
    ensures AllIndexed(r)
    ensures r.states.Keys == e.states.Keys
    ensures EngineInv(env.db, e) ==> EngineInv(env.db, r)
  {
    match c
    case StartCmd => Start(e)
    case StopCmd => Stop(e)
    case PauseCmd => Pause(e)
    case ResumeCmd => Resume(e)
    case TickCmd =>
      TickPreservesInv(env, e);
      Tick(env, e)
  }

  /** The engine after a sequence of commands, first to last. */
  function Run(env: Env, e: Engine, cs: seq<Command>): (r: Engine)
    requires AllIndexed(e)
    ensures AllIndexed(r)
    decreases |cs|
  {
    if |cs| == 0 then e else Run(env, Apply(env, e, cs[0]), cs[1..])
  }

  /** A new engine holds a state for exactly the vehicles whose route has
      stops, and with distinct ids each of them is that vehicle's initial
      state. */
  lemma NewEngineStates(db: Db)
    ensures forall id :: id in New(db).states <==> exists i :: RoutedAt(db, db.vehicles, i, id)
    ensures UniqueIds(db.vehicles) ==>
              forall i :: 0 <= i < |db.vehicles| && HasRoute(db, db.vehicles[i]) ==>
                db.vehicles[i].id in New(db).states
                && New(db).states[db.vehicles[i].id] == InitialState(db, db.vehicles[i])
  {
    InitStatesKeys(db, db.vehicles);
    if UniqueIds(db.vehicles) {
      InitStatesUnique(db, db.vehicles);
    }
  }

  /** A new engine satisfies the engine invariant. */
  lemma NewEngineInv(db: Db)
    ensures AllIndexed(New(db)) && EngineInv(db, New(db))
  {
    InitStatesInv(db, db.vehicles);
  }

  /** Every command sequence from a new engine keeps the invariant and the
      set of vehicles with a state. */
  lemma {:induction false} RunPreservesInv(env: Env, e: Engine, cs: seq<Command>)
    requires AllIndexed(e) && EngineInv(env.db, e)
    ensures EngineInv(env.db, Run(env, e, cs))
    ensures Run(env, e, cs).states.Keys == e.states.Keys
    decreases |cs|
  {
    if |cs| > 0 {
      RunPreservesInv(env, Apply(env, e, cs[0]), cs[1..]);
    }
  }

  /** A vehicle whose route has no stops never gets a state, so no command
      sequence ever publishes a position for it and its lookup is always the
      all-zero record. */
  lemma {:induction false} UnroutedNeverPublished(env: Env, cs: seq<Command>, id: int)
    requires forall i :: 0 <= i < |env.db.vehicles| && env.db.vehicles[i].id == id ==>
               !HasRoute(env.db, env.db.vehicles[i])
    ensures id !in Run(env, New(env.db), cs).live
    ensures GetVehiclePosition(Run(env, New(env.db), cs), id) == NotFound
  {
    NewEngineInv(env.db);
    RunPreservesInv(env, New(env.db), cs);
  }

  /** Ticks that only happen while paused change nothing, however many. */
  lemma {:induction false} PausedTicksFreeze(env: Env, e: Engine, k: nat)
    requires AllIndexed(e) && e.paused
    ensures Run(env, e, seq(k, _ => TickCmd)) == e
    decreases k
  {
    if k > 0 {
      var cs := seq(k, _ => TickCmd);
      assert cs[1..] == seq(k - 1, _ => TickCmd);
      PausedTicksFreeze(env, e, k - 1);
    }
  }

  /** Starting a new engine without resuming it publishes nothing: every
      lookup gives the all-zero record however many ticks pass. */
  lemma StartedButPausedShowsNothing(env: Env, k: nat, id: int)
    ensures var e := Run(env, Start(New(env.db)), seq(k, _ => TickCmd));
      e.live == map[] && GetVehiclePosition(e, id) == NotFound
  {
    NewEngineInv(env.db);
    PausedTicksFreeze(env, Start(New(env.db)), k);
  }

  /** Start and Stop are idempotent. */
  lemma ControlIdempotent(e: Engine)
    ensures Start(Start(e)) == Start(e)
    ensures Stop(Stop(e)) == Stop(e)
    ensures Pause(Pause(e)) == Pause(e) && Resume(Resume(e)) == Resume(e)
  {
  }

  /** The pause flag reports whichever of pause and resume came last. */
  lemma PauseResumeLastWins(e: Engine)
    ensures Pause(Resume(e)) == Pause(e)
    ensures Resume(Pause(e)) == Resume(e)
  {
  }

  /** After a moving tick each vehicle's lookup gives its new state: its
      position, its current stop index, and a next stop index that is in
      range and one past the current one round the loop. */
  lemma LookupAfterTick(env: Env, e: Engine, id: int)
    requires AllIndexed(e) && EngineInv(env.db, e)
    requires e.running && !e.paused && id in e.states
    ensures var r := Tick(env, e);
      var p := GetVehiclePosition(r, id);
      var s := r.states[id];
      && p.vehicleId == id && p.x == s.pos.x && p.y == s.pos.y
      && p.currentStopIndex == s.idx
      && 0 <= p.nextStopIndex < |s.stopIds|
      && p.nextStopIndex == (s.idx + 1) % |s.stopIds|
      && 0.0 <= p.progress <= 1.0
  {
  }
}
