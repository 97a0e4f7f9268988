/**
 The per-vehicle motion state and the tick that advances it: a vehicle is
 either dwelling at a stop, arriving at its target (snap, start dwelling,
 advance the stop index round the loop) or travelling a clamped step toward
 the target.

 Coordinates are exact reals. Euclidean distance is a parameter of the
 environment (`Env.dist`), so no square root is ever reasoned about; the few
 facts that need it to behave like a distance ask for `IsMetric`.
 */
module Motion {
  import opened Kinematics
  import opened Storage

  /** Simulated seconds per tick, fixed whatever the wall clock does. */
  const DeltaTime: real := 0.1

  /** A travelling vehicle closer than this to its target has arrived. */
  const ArrivalRadius: real := 0.5

  type Metric = (Point, Point) -> real

  /** The two facts of a distance the model relies on. */
  ghost predicate IsMetric(dist: Metric)
  {
    && (forall p, q :: dist(p, q) >= 0.0)
    && (forall p :: dist(p, p) == 0.0)
  }

  /** What the engine consults: the store and the distance function. */
  datatype Env = Env(db: Db, dist: Metric)

  /** The engine-owned motion state of one vehicle. `idx` indexes `stopIds`,
      `speed` is in km/h, `progress` is the fraction of the current leg,
      `dwell` the seconds left standing at the current stop. */
  datatype VehicleState = VehicleState(
    vehicleId: int,
    routeId: int,
    stopIds: seq<int>,
    idx: int,
    pos: Point,
    target: Point,
    speed: real,
    progress: real,
    forward: bool,
    dwell: real,
    model: TransportClass)

  predicate Indexed(s: VehicleState)
  {
    0 <= s.idx < |s.stopIds|
  }

  /** The index one step round a loop of `n` stops in the given direction. */
  function Advance(forward: bool, i: int, n: int): int
    requires n > 0
  {
    if forward then (i + 1) % n else (i - 1 + n) % n
  }

  /** The index of the stop the vehicle is heading for. */
  function NextIndex(s: VehicleState): int
    requires |s.stopIds| > 0
  {
    (s.idx + 1) % |s.stopIds|
  }

  /** What every state the engine holds satisfies: the index is in range,
      the direction is forward, the target is the next stop round the loop
      and the progress is a fraction. */
  predicate StateInv(db: Db, s: VehicleState)
  {
    && Indexed(s)
    && s.forward
    && s.target == StopCoords(db, s.stopIds[NextIndex(s)])
    && 0.0 <= s.progress <= 1.0
  }

  /** Identity, route, speed, direction and class never change in a tick. */
  predicate SameVehicle(s: VehicleState, r: VehicleState)
  {
    && r.vehicleId == s.vehicleId
    && r.routeId == s.routeId
    && r.stopIds == s.stopIds
    && r.speed == s.speed
    && r.forward == s.forward
    && r.model == s.model
  }

  /** The point a fraction `t` of the way from `a` to `b`. */
  function Lerp(a: Point, b: Point, t: real): Point
  {
    Point(a.x + (b.x - a.x) * t, a.y + (b.y - a.y) * t)
  }

  function Min(a: real, b: real): real
  {
    if a <= b then a else b
  }

  function Max(a: real, b: real): real
  {
    if a <= b then b else a
  }

  /** Plane units covered in `dt` seconds at `speedKmh`: km/h to m/s, then
      100 m per unit. The class's speed factor takes no part. */
  function StepLength(speedKmh: real, dt: real): real
  {
    ((speedKmh / 3.6) / 0.1) * dt
  }

  /** A dwelling tick: the countdown drops by exactly `dt` (and may go below
      zero); nothing else changes. */
  function Dwell(s: VehicleState, dt: real): (r: VehicleState)
    ensures SameVehicle(s, r)
    ensures r.pos == s.pos && r.target == s.target
    ensures r.idx == s.idx && r.progress == s.progress
    ensures r.dwell == s.dwell - dt
  {
    s.(dwell := s.dwell - dt)
  }

  /** The index step on arrival, written the way the C++ engine writes it:
      increment and wrap to 0 past the end, or decrement and wrap to the last
      index below 0. It is the modular step round the loop. */
  function StepIndex(forward: bool, i: int, n: int): (j: int)
    requires 0 <= i < n
    ensures 0 <= j < n
    ensures j == Advance(forward, i, n)
  {
    if forward then
      if i + 1 >= n then
        ModSelf(n);
        0
      else
        ModInRange(i + 1, n);
        i + 1
    else
      if i - 1 < 0 then
        ModInRange(n - 1, n);
        n - 1
      else
        ModInRange(i - 1, n);
        i - 1
  }

  lemma ModInRange(a: int, n: int)
    requires 0 <= a < n
    ensures a % n == a
    ensures (a + n) % n == a
  {
  }

  lemma ModSelf(n: int)
    requires n > 0
    ensures n % n == 0
  {
  }

  /** An arrival: snap onto the target, reset progress, start the class's
      dwell, step the index once round the loop and aim at the stop after. */
  function Arrive(env: Env, s: VehicleState): (r: VehicleState)
    requires Indexed(s)
    ensures Indexed(r) && SameVehicle(s, r)
    ensures r.pos == s.target && r.progress == 0.0
    ensures r.dwell == DwellTime(s.model) && r.dwell > 0.0
    ensures r.idx == Advance(s.forward, s.idx, |s.stopIds|)
    ensures r.target == StopCoords(env.db, s.stopIds[Advance(s.forward, r.idx, |s.stopIds|)])
  {
    var n := |s.stopIds|;
    var idx := StepIndex(s.forward, s.idx, n);
    var next := if s.forward then (idx + 1) % n else (idx - 1 + n) % n;
    s.(pos := s.target,
       progress := 0.0,
       dwell := DwellTime(s.model),
       idx := idx,
       target := StopCoords(env.db, s.stopIds[next]))
  }

  /** The progress written by a travelling tick: the part of the leg already
      covered BEFORE this tick's step, clamped to [0, 1]. A zero-length leg
      gives 0, which is where the floating-point quotient lands after the
      clamp (on the travel branch the covered part is at most -0.5, so the
      quotient is minus infinity, then `max(0.0, ...)`). */
  function LegProgress(total: real, remaining: real): (p: real)
    ensures 0.0 <= p <= 1.0
    ensures total > 0.0 && 0.0 <= remaining <= total ==> p * total == total - remaining
    ensures total <= 0.0 ==> p == 0.0
    ensures total > 0.0 && remaining >= total ==> p == 0.0
  {
    if total > 0.0 then Min(1.0, Max(0.0, (total - remaining) / total)) else 0.0
  }

  /** A travelling tick: move toward the target by the step length, clamped
      so that it never passes the target; index, target and dwell stay. */
  function Travel(env: Env, s: VehicleState, dt: real): (r: VehicleState)
    requires Indexed(s)
    requires env.dist(s.pos, s.target) >= ArrivalRadius
    ensures SameVehicle(s, r)
    ensures r.idx == s.idx && r.target == s.target && r.dwell == s.dwell
    ensures 0.0 <= r.progress <= 1.0
    ensures exists t :: t <= 1.0 && r.pos == Lerp(s.pos, s.target, t)
    ensures s.speed >= 0.0 && dt >= 0.0 ==>
              exists t :: 0.0 <= t <= 1.0 && r.pos == Lerp(s.pos, s.target, t)
    ensures StepLength(s.speed, dt) >= env.dist(s.pos, s.target) ==> r.pos == s.target
    ensures StepLength(s.speed, dt) < env.dist(s.pos, s.target) ==>
              r.pos == Lerp(s.pos, s.target, StepLength(s.speed, dt) / env.dist(s.pos, s.target))
    ensures r.progress == LegProgress(env.dist(StopCoords(env.db, s.stopIds[s.idx]), s.target), env.dist(s.pos, s.target))
  {
    var distance := env.dist(s.pos, s.target);
    var ratio := Min(1.0, StepLength(s.speed, dt) / distance);
    var total := env.dist(StopCoords(env.db, s.stopIds[s.idx]), s.target);
    assert StepLength(s.speed, dt) >= distance ==> ratio == 1.0;
    assert s.speed >= 0.0 && dt >= 0.0 ==> ratio >= 0.0;
    s.(pos := Lerp(s.pos, s.target, ratio), progress := LegProgress(total, distance))
  }

  /** One tick of one vehicle. */
  function UpdateVehicle(env: Env, s: VehicleState, dt: real): (r: VehicleState)
    requires Indexed(s)
    ensures Indexed(r) && SameVehicle(s, r)
    ensures r.idx == s.idx || r.idx == Advance(s.forward, s.idx, |s.stopIds|)
    ensures s.dwell > 0.0 ==> r.pos == s.pos && r.idx == s.idx
    ensures r.idx != s.idx ==> r.pos == s.target && r.dwell > 0.0 && r.progress == 0.0
    ensures StateInv(env.db, s) ==> StateInv(env.db, r)
  {
    if s.dwell > 0.0 then Dwell(s, dt)
    else if env.dist(s.pos, s.target) < ArrivalRadius then Arrive(env, s)
    else Travel(env, s, dt)
  }

  /** `k` consecutive ticks of one vehicle. */
  function Ticks(env: Env, s: VehicleState, k: nat): (r: VehicleState)
    requires Indexed(s)
    ensures Indexed(r) && SameVehicle(s, r)
    ensures StateInv(env.db, s) ==> StateInv(env.db, r)
    decreases k
  {
    if k == 0 then s else Ticks(env, UpdateVehicle(env, s, DeltaTime), k - 1)
  }

  /** With the invariant in place the direction is forward, so an arrival
      moves the index to (idx + 1) mod n and aims at the stop after that. */
  lemma ForwardArrival(env: Env, s: VehicleState)
    requires StateInv(env.db, s)
    requires s.dwell <= 0.0 && env.dist(s.pos, s.target) < ArrivalRadius
    ensures var r := UpdateVehicle(env, s, DeltaTime);
      && r.idx == (s.idx + 1) % |s.stopIds|
      && r.target == StopCoords(env.db, s.stopIds[(r.idx + 1) % |s.stopIds|])
      && r.pos == s.target
      && r.progress == 0.0 && r.dwell == DwellTime(s.model)
  {
  }

  /** A vehicle with no dwell left that is not yet near its target travels:
      index, target and dwell stay, it lands on the target when the step
      covers the distance and otherwise moves that fraction of the way, and
      progress is the covered part of the leg before the step. */
  lemma TravellingTick(env: Env, s: VehicleState, dt: real)
    requires Indexed(s)
    requires s.dwell <= 0.0 && env.dist(s.pos, s.target) >= ArrivalRadius
    ensures var r := UpdateVehicle(env, s, dt);
      var d := env.dist(s.pos, s.target);
      && r.idx == s.idx && r.target == s.target && r.dwell == s.dwell
      && (StepLength(s.speed, dt) >= d ==> r.pos == s.target)
      && (StepLength(s.speed, dt) < d ==> r.pos == Lerp(s.pos, s.target, StepLength(s.speed, dt) / d))
      && r.progress == LegProgress(env.dist(StopCoords(env.db, s.stopIds[s.idx]), s.target), d)
  {
  }

  /** The backward branch, never taken by the engine, steps the index down
      round the loop and aims at the stop before. */
  lemma BackwardArrival(env: Env, s: VehicleState)
    requires Indexed(s) && !s.forward
    requires s.dwell <= 0.0 && env.dist(s.pos, s.target) < ArrivalRadius
    ensures var r := UpdateVehicle(env, s, DeltaTime);
      && r.idx == (if s.idx == 0 then |s.stopIds| - 1 else s.idx - 1)
      && r.target == StopCoords(env.db, s.stopIds[(r.idx - 1 + |s.stopIds|) % |s.stopIds|])
  {
  }

  /** Every arrival is followed by at least one dwelling tick, during which
      the vehicle stands on the stop it arrived at. */
  lemma ArrivalThenDwell(env: Env, s: VehicleState)
    requires Indexed(s)
    requires s.dwell <= 0.0 && env.dist(s.pos, s.target) < ArrivalRadius
    ensures var a := UpdateVehicle(env, s, DeltaTime);
      var b := UpdateVehicle(env, a, DeltaTime);
      a.dwell > 0.0 && b.pos == a.pos && a.pos == s.target && b.idx == a.idx
  {
  }

  /** A leg of length zero (a route that lists the same stop twice in a row,
      as the sample routes do when they close the loop) is not travelled:
      the first tick after the dwell is another arrival. */
  lemma ZeroLengthLeg(env: Env, s: VehicleState)
    requires IsMetric(env.dist) && Indexed(s)
    requires s.dwell <= 0.0 && s.pos == s.target
    ensures var r := UpdateVehicle(env, s, DeltaTime);
      r.idx == Advance(s.forward, s.idx, |s.stopIds|) && r.pos == s.pos
  {
    assert env.dist(s.pos, s.pos) == 0.0;
  }

  /** The class's speed factor plays no part in motion: two vehicles that
      differ only in class land on the same point. */
  lemma TravelIgnoresModel(env: Env, s: VehicleState, m: TransportClass, dt: real)
    requires Indexed(s)
    ensures UpdateVehicle(env, s, dt).pos == UpdateVehicle(env, s.(model := m), dt).pos
  {
  }

  /** The dwell countdown is not clamped at zero: a tick that starts with
      less than `DeltaTime` left ends below zero. */
  lemma DwellGoesNegative(env: Env, s: VehicleState)
    requires Indexed(s) && s.dwell == 0.05
    ensures UpdateVehicle(env, s, DeltaTime).dwell == -0.05
  {
  }

  /** While every tick starts with dwell left, the vehicle stands still and
      the countdown drops by exactly `DeltaTime` per tick. */
  lemma {:induction false} DwellCountdown(env: Env, s: VehicleState, k: nat)
    requires Indexed(s)
    requires s.dwell > (k as real - 1.0) * DeltaTime
    ensures var r := Ticks(env, s, k);
      && r.pos == s.pos && r.idx == s.idx && r.target == s.target
      && r.progress == s.progress
      && r.dwell == s.dwell - k as real * DeltaTime
    decreases k
  {
    if k > 0 {
      var s' := UpdateVehicle(env, s, DeltaTime);
      assert s'.dwell == s.dwell - DeltaTime;
      DwellCountdown(env, s', k - 1);
    }
  }

  /** Ticks a vehicle of class `c` stands at a stop: its dwell time over the
      tick length. */
  function DwellTicks(c: TransportClass): (n: nat)
    ensures n as real * DeltaTime == DwellTime(c)
  {
    match c
    case Bus => 50
    case Tram => 80
    case Trolleybus => 60
  }

  /** After an arrival the vehicle stands on the stop for exactly
      `DwellTicks` ticks and then has no dwell left, so the tick after that
      moves it on. */
  lemma StandsForDwellTicks(env: Env, s: VehicleState)
    requires Indexed(s)
    requires s.dwell <= 0.0 && env.dist(s.pos, s.target) < ArrivalRadius
    ensures var a := UpdateVehicle(env, s, DeltaTime);
      var r := Ticks(env, a, DwellTicks(s.model));
      r.pos == s.target && r.idx == a.idx && r.dwell == 0.0
  {
    var a := UpdateVehicle(env, s, DeltaTime);
    DwellCountdown(env, a, DwellTicks(s.model));
  }
}
