# Transport simulation core in Dafny

A Dafny model of the vehicle-motion simulation engine of a small city
transport system, and of two pure pieces of its desktop client.

The engine moves buses, trams and trolleybuses round closed routes of
stops on an abstract plane. One unit of the plane is about 100 metres.
Each vehicle has a state: its position, its current stop index, its
target (the next stop), its progress along the current leg, a direction
flag and a dwell countdown. Once per 0.1-second tick, every vehicle does
exactly one of three things:

- it dwells: the countdown drops by 0.1 s;
- it arrives: it is within 0.5 units of its target, so it snaps onto it,
  starts its class's dwell, and advances its stop index round the loop;
- it travels: it takes a step toward the target, clamped so that it
  never passes the target.

After the update the engine overwrites the vehicle's published live
position. The engine starts stopped and paused. `start`/`stop` are
idempotent. While paused the loop does nothing.

The modules follow the program's files:

- `Kinematics`: the fixed per-class table of `transport_models.h`
  (dwell time, speed factor, icon) and the choice of class from a type
  string.
- `Storage`: the three lookups the engine makes into its store. Each is
  total: an unknown stop has coordinates (0, 0), an unknown route has no
  stops, and an unknown vehicle is the zero record.
- `Motion`: `VehicleState` and `updateVehicle`, split into `Dwell`,
  `Arrive` and `Travel`. It also states the invariant the engine keeps
  for every state.
- `SimulationEngine`: `initializeVehicles`, the control flags, one
  iteration of the simulation loop (`Tick`), the two read operations, and
  runs of arbitrary command sequences.
- `RouteForm`: the desktop client's new-route form. It splits the
  stop-id field on `,`, strips each piece, drops blank pieces and parses
  integers, then checks the fields and builds the request body.
- `RouteMap`: the client's route-drawing filter, the type-to-colour map
  and the type-to-icon map.

Euclidean distance is a parameter of the model (`Motion.Env.dist`), so no
square root is reasoned about. The facts that need it to act like a
distance assume only `dist(p, q) >= 0` and `dist(p, p) == 0`.

Behaviours of the code worth knowing:

- The dwell countdown is not clamped at zero; it can end a tick negative
  (`Motion.DwellGoesNegative`).
- A started but never resumed engine publishes nothing; positions appear
  only with the first moving iteration
  (`SimulationEngine.StartedButPausedShowsNothing`).
- A lookup of an unknown vehicle returns the all-zero record, not an
  explicit "absent" (`SimulationEngine.GetVehiclePosition`).
- Each tick re-reads the vehicle's type and route name from the store
  (`SimulationEngine.Publish`). They are not cached in the state.
- The class's speed factor is never applied to motion
  (`Motion.TravelIgnoresModel`).
- The progress written by a travelling tick is the fraction of the leg
  covered before that tick's step, not after it (`Motion.LegProgress`).
- On a zero-length leg the covered part is at most -0.5 (a travelling
  vehicle is at least 0.5 from its target), so the floating-point quotient
  is minus infinity, and the clamp turns it into 0. The model writes 0 explicitly.
- The client shows the trolleybus icon for any unknown type string. The
  engine runs such a vehicle as a bus (`RouteMap.IconAgreesOnKnownTypes`).

## Model

| member | source | states |
|---|---|---|
| `Kinematics.DwellTime` | backend_cpp/include/transport_models.h:23-51 | every class's dwell time is positive, between 5 and 8 seconds |
| `Kinematics.SpeedFactor` | backend_cpp/include/transport_models.h:26-54 | every speed factor is in (0, 1], and only the bus has factor 1.0 |
| `Kinematics.Icon` | backend_cpp/include/transport_models.h:29-57 | each class has a one-character icon (one code point; the C++ string holds its UTF-8 bytes) |
| `Kinematics.ClassOf` | backend_cpp/src/simulation.cpp:52-58 | "tram" selects Tram and "trolleybus" selects Trolleybus (both iff); every other string selects Bus |
| `Kinematics.KinematicsTable` | backend_cpp/include/transport_models.h:20-58 | bus 5.0 s / 1.0 / U+1F68C, tram 8.0 s / 0.8 / U+1F68A, trolleybus 6.0 s / 0.9 / U+1F68E |
| `Kinematics.IconInjective` | backend_cpp/include/transport_models.h:29-57 | two classes share an icon iff they are the same class |
| `Kinematics.ClassOfKindName` | backend_cpp/include/database.h:19 | class selection inverts the type names; a type string survives the round trip iff it is one of the three known names |
| `Storage.StopCoords` | backend_cpp/src/database.cpp:209-231 | an unknown stop id has coordinates (0, 0) |
| `Storage.RouteStops` | backend_cpp/src/database.cpp:278-304 | an unknown route has an empty stop list |
| `Storage.VehicleById` | backend_cpp/src/database.cpp:391-414 | the result is a stored row with that id when one exists, and otherwise the zero record |
| `Motion.Dwell` | backend_cpp/src/simulation.cpp:129-131 | a dwelling tick lowers the countdown by exactly delta and keeps position, target, index, progress and vehicle data |
| `Motion.StepIndex` | backend_cpp/src/simulation.cpp:150-161 | the C++ engine's increment-and-wrap (or decrement-and-wrap) is the modular step round the loop and stays in [0, n) |
| `Motion.Arrive` | backend_cpp/src/simulation.cpp:142-170 | arrival puts the vehicle exactly on its target with progress 0 and a positive dwell (the class's dwell time); the index advances one step round the loop and the new target is the stop after it |
| `Motion.LegProgress` | backend_cpp/src/simulation.cpp:180-185 | progress is always in [0, 1]; on a leg of positive length it is the fraction already covered before the step; it is 0 on a zero-length leg and when the vehicle is at least a leg's length from the target |
| `Motion.Travel` | backend_cpp/src/simulation.cpp:172-185 | a travelling tick keeps index, target and dwell; the new position lies on the line through position and target at most the full way there (between them when speed is non-negative); a step that covers the remaining distance lands exactly on the target, and a shorter one moves the fraction step / distance of the way; progress is the covered fraction of the leg from the current stop to the target, in [0, 1] |
| `Motion.UpdateVehicle` | backend_cpp/src/simulation.cpp:128-187 | a tick keeps the index in range and the vehicle's identity, route, speed, direction and class; the index stays or advances exactly one step; a dwelling vehicle does not move; the index changes only on arrival; the state invariant is preserved |
| `Motion.Ticks` | backend_cpp/src/simulation.cpp:99-100 | any number of ticks keeps the index in range, the vehicle data and the state invariant |
| `Motion.ForwardArrival` | backend_cpp/src/simulation.cpp:150-170 | under the invariant, an arrival puts the vehicle on its old target with progress 0 and the class's dwell time, sets the index to (idx + 1) mod n and the target to the coordinates of stop (idx' + 1) mod n |
| `Motion.BackwardArrival` | backend_cpp/src/simulation.cpp:156-166 | the backward branch, which is never reached, steps down with wrap to n - 1 and aims at the previous stop |
| `Motion.TravellingTick` | backend_cpp/src/simulation.cpp:128-186 | a vehicle with no dwell left and at least 0.5 from its target travels: index, target and dwell stay; it lands on the target when the step covers the distance and otherwise moves step / distance of the way; progress is the leg fraction covered before the step |
| `Motion.ArrivalThenDwell` | backend_cpp/src/simulation.cpp:129-147 | every arrival is followed by at least one dwelling tick on the stop it arrived at |
| `Motion.ZeroLengthLeg` | backend_cpp/src/simulation.cpp:142-147 | a vehicle standing on its target when its dwell ends arrives again immediately, so a repeated stop is never travelled |
| `Motion.TravelIgnoresModel` | backend_cpp/src/simulation.cpp:140-177 | the position after a tick does not depend on the vehicle's class, so the speed factor is never applied |
| `Motion.DwellGoesNegative` | backend_cpp/src/simulation.cpp:129-131 | the countdown is not clamped: 0.05 s left becomes -0.05 s |
| `Motion.DwellCountdown` | backend_cpp/src/simulation.cpp:129-131 | while each tick starts with dwell left, k ticks leave position, index, target and progress unchanged and lower the countdown by exactly k times delta |
| `Motion.DwellTicks` | backend_cpp/src/simulation.cpp:85 | in exact arithmetic, the number of dwelling ticks of a class (50, 80, 60), times the 0.1 s tick, is its dwell time |
| `Motion.StandsForDwellTicks` | backend_cpp/src/simulation.cpp:129-147 | in exact arithmetic, after an arrival the vehicle stands on the stop for exactly its class's dwell ticks (50, 80 or 60) and then has no dwell left |
| `SimulationEngine.InitialState` | backend_cpp/src/simulation.cpp:42-73 | a vehicle starts at its first stop with index 0, progress 0, dwell 0, forward, heading for the second stop or standing on the only one, with the class its type selects; the state invariant holds |
| `SimulationEngine.InitStates` | backend_cpp/src/simulation.cpp:32-77 | every state built is the initial state of a vehicle with that id whose route has stops |
| `SimulationEngine.InitStatesKeys` | backend_cpp/src/simulation.cpp:38-75 | exactly the vehicles whose route has stops get a state (both directions) |
| `SimulationEngine.InitStatesInv` | backend_cpp/src/simulation.cpp:42-75 | every initial state satisfies the invariant, sits at index 0 with no progress and no dwell, and is filed under its own id |
| `SimulationEngine.InitStatesUnique` | backend_cpp/src/simulation.cpp:38-75 | with distinct ids, each routed vehicle's entry is its own initial state |
| `SimulationEngine.New` | backend_cpp/src/simulation.cpp:5-8 | a new engine is not running, is paused, and has published nothing |
| `SimulationEngine.NewEngineStates` | backend_cpp/src/simulation.cpp:32-77 | a new engine holds states for exactly the routed vehicles, each its initial state when ids are distinct |
| `SimulationEngine.NewEngineInv` | backend_cpp/src/simulation.cpp:5-8 | a new engine satisfies the engine invariant |
| `SimulationEngine.Start` | backend_cpp/src/simulation.cpp:14-18 | after start the engine runs; starting a running engine changes nothing; the pause flag, states and live map are untouched |
| `SimulationEngine.Stop` | backend_cpp/src/simulation.cpp:20-26 | after stop the engine is not running; stopping a stopped engine changes nothing; the pause flag, states and live map are untouched |
| `SimulationEngine.Pause` | backend_cpp/include/simulation.h:33 | after pause the engine reports paused; running flag, states and live map are untouched |
| `SimulationEngine.Resume` | backend_cpp/include/simulation.h:34 | after resume the engine reports not paused; running flag, states and live map are untouched |
| `SimulationEngine.Publish` | backend_cpp/src/simulation.cpp:103-113 | the published record carries the vehicle's id, position, index and progress, a next-stop index in [0, n) that is one step on round the loop, and the route name and type of the vehicle's stored row |
| `SimulationEngine.Tick` | backend_cpp/src/simulation.cpp:88-117 | a stopped or paused iteration changes nothing; a moving one updates every vehicle once, keeps the set of vehicles, and overwrites each vehicle's live entry with its new state's record; live entries of ids without a state stay as they were |
| `SimulationEngine.TickPreservesInv` | backend_cpp/src/simulation.cpp:88-117 | a loop iteration preserves the engine invariant |
| `SimulationEngine.TickStates` | backend_cpp/src/simulation.cpp:95-101 | after a moving iteration every state still satisfies the motion invariant and is filed under its own id |
| `SimulationEngine.TickLive` | backend_cpp/src/simulation.cpp:99-115 | after a moving iteration every vehicle with a state is published, and each live entry is the projection of its state |
| `SimulationEngine.GetVehiclePosition` | backend_cpp/src/simulation.cpp:198-205 | a published vehicle's record, or the all-zero record for an id with none |
| `SimulationEngine.GetLivePositions` | backend_cpp/src/simulation.cpp:189-196 | one record per published vehicle, each a published record, all of them present, in ascending vehicle id |
| `SimulationEngine.ListedInOrder` | backend_cpp/src/simulation.cpp:189-196 | a listing of the live entries under ascending, covering keys holds every entry, only entries, and is ordered by vehicle id |
| `SimulationEngine.Apply` | backend_cpp/include/simulation.h:30-35 | any control command or loop iteration keeps the set of vehicles and the engine invariant |
| `SimulationEngine.RunPreservesInv` | backend_cpp/include/simulation.h:64-65 | after any command sequence the id-keyed state and live maps satisfy the engine invariant (live keys within state keys, each live entry the projection of its state) and the set of vehicles is unchanged |
| `SimulationEngine.UnroutedNeverPublished` | backend_cpp/src/simulation.cpp:40 | a vehicle whose route has no stops is never published, whatever commands follow, and its lookup is always the zero record |
| `SimulationEngine.PausedTicksFreeze` | backend_cpp/src/simulation.cpp:90-93 | any number of paused iterations leave the engine exactly as it was |
| `SimulationEngine.StartedButPausedShowsNothing` | backend_cpp/src/simulation.cpp:5-18 | a new engine that is started but not resumed publishes nothing, however many iterations pass |
| `SimulationEngine.ControlIdempotent` | backend_cpp/src/simulation.cpp:14-26 | start, stop, pause and resume are each idempotent |
| `SimulationEngine.PauseResumeLastWins` | backend_cpp/include/simulation.h:33-35 | the pause flag reflects whichever of pause and resume came last |
| `SimulationEngine.LookupAfterTick` | backend_cpp/src/simulation.cpp:99-115 | after a moving iteration a vehicle's lookup gives its new position and index, a next index (idx + 1) mod n in [0, n), and progress in [0, 1] |
| `RouteForm.StripStart` | desktop_client/main.py:468 | the result is a suffix of the input, starts with a non-space character, and all dropped characters are whitespace |
| `RouteForm.StripEnd` | desktop_client/main.py:468 | the result is a prefix of the input, ends with a non-space character, and all dropped characters are whitespace |
| `RouteForm.Strip` | desktop_client/main.py:468 | the result is the input with exactly its leading and trailing whitespace removed: a contiguous part s[i..j] with only whitespace before i and after j, and no whitespace at its own ends; it is empty iff the input was all whitespace |
| `RouteForm.Split` | desktop_client/main.py:468 | splitting yields at least one piece, no piece contains a comma, and joining the pieces with commas gives back the input |
| `RouteForm.SplitJoin` | desktop_client/main.py:468 | splitting the comma-join of comma-free pieces gives back exactly those pieces |
| `RouteForm.SplitPiece` | desktop_client/main.py:468 | a comma-free piece in front of a comma-led tail becomes the first piece of the split |
| `RouteForm.ParseInt` | desktop_client/main.py:468 | a stripped piece parses iff it is an optionally signed run of decimal digits |
| `RouteForm.ParseLeadingZero` | desktop_client/main.py:468 | a leading zero does not change the parsed value ("007" reads as 7) |
| `RouteForm.ParseSigned` | desktop_client/main.py:468 | "+" before digits keeps their value and "-" negates it |
| `RouteForm.ParseShowInt` | desktop_client/main.py:468 | every integer's decimal form parses back to that integer |
| `RouteForm.NonBlank` | desktop_client/main.py:468 | the kept pieces are no more than the pieces, and each is non-empty and starts with a non-space character |
| `RouteForm.NonBlankAppend` | desktop_client/main.py:468 | dropping blank pieces distributes over concatenation, so kept pieces keep their input order |
| `RouteForm.NonBlankOne` | desktop_client/main.py:468 | a single piece is kept, stripped, iff it is not blank |
| `RouteForm.ParsePieces` | desktop_client/main.py:467-471 | parsing succeeds iff every non-blank stripped piece is an integer literal, and then gives their values in input order |
| `RouteForm.ParseStopIds` | desktop_client/main.py:467-471 | the id field parses iff every non-blank piece is an integer literal, and then to their values in order |
| `RouteForm.ParseLiteralPieces` | desktop_client/main.py:467-471 | pieces that each strip to a literal of the matching id parse to exactly those ids |
| `RouteForm.FormatParseRoundTrip` | desktop_client/main.py:467-471 | ids written as "1, 2, 3" parse back to exactly those ids in order |
| `RouteForm.SubmitRoute` | desktop_client/main.py:460-481 | a bad id aborts with a format error (iff parsing fails); an empty name or empty id list aborts as incomplete (iff); otherwise the payload carries the given name and type and exactly the parsed ids |
| `RouteForm.SubmitFormatted` | desktop_client/main.py:473-481 | a named form listing ids as the placeholder shows sends exactly those ids |
| `RouteForm.BlankFieldIsMissing` | desktop_client/main.py:468-475 | a field holding only commas and whitespace is refused as incomplete, not as a format error |
| `RouteMap.ColorFor` | desktop_client/main.py:235-237 | tram is green and trolleybus orange (each iff); everything else is the default blue |
| `RouteMap.ColorAgreesWithEngine` | desktop_client/main.py:235-237 | a route's colour is the colour of the class the engine runs its type as |
| `RouteMap.TypeIcon` | desktop_client/main.py:342 | "bus" gives the bus icon and "tram" the tram icon (each iff); everything else gives the trolleybus icon |
| `RouteMap.IconAgreesOnKnownTypes` | desktop_client/main.py:267-268 | for the three known types the client icon is the engine model's icon; for any other type they differ |
| `RouteMap.FindStop` | desktop_client/main.py:228 | a stop is found iff some stop has that id, and the one found is the first stop with that id |
| `RouteMap.Resolve` | desktop_client/main.py:226-233 | no more points than ids; all ids known gives one point per id; no id known gives no points; every point is some stop's position |
| `RouteMap.ResolveAllKnown` | desktop_client/main.py:226-233 | when every id is known, point i is the position of a stop whose id is the i-th id |
| `RouteMap.ResolveAppend` | desktop_client/main.py:226-233 | resolving a concatenation of id lists resolves each part in turn, so points keep their ids' order |
| `RouteMap.ResolveOne` | desktop_client/main.py:228-233 | one id resolves to the position of the first stop with that id, or to nothing |
| `RouteMap.DrawRoutes` | desktop_client/main.py:218-249 | no more lines than routes; every line has at least two points and one of the three colours; no drawable route gives no lines |
| `RouteMap.DrawRoutesAppend` | desktop_client/main.py:223-248 | drawing a concatenation of route lists draws each part in turn, so lines keep their routes' order |
| `RouteMap.DrawOne` | desktop_client/main.py:224-247 | a route is drawn iff it has at least two ids and at least two of them resolve, and then as one line in its type's colour through its resolved stops |
| `RouteMap.FullyResolvedRouteDrawn` | desktop_client/main.py:224-239 | a route of two or more ids that all resolve is drawn as one line in its type's colour whose i-th point is the position of a stop with the route's i-th id |

## Left out

- Threads, the mutex, atomics and the 100 ms pacing are not modelled. One loop iteration is one atomic step (`SimulationEngine.Tick`), so readers see either all of a tick or none of it by construction. The pause flag is read before the lock is taken (simulation.cpp:90 and 97), so a pass that has already seen the engine unpaused still updates and publishes after `pause()` returns. In the model a `Tick` after `Pause` is always the identity.
- The destructor is not modelled separately. It only calls `stop`.
- Floating point, `sqrt` and `pow` are not modelled. Coordinates are exact reals, and distance is an abstract parameter. Tick counts hold for exact reals only.
- Motion.DwellTicks: the counts 50, 80 and 60 hold in exact arithmetic. In doubles, 5.0, 8.0 and 6.0 minus 0.1 that many times stay just above zero (by about 1e-15 to 1e-14), so the C++ engine dwells 51, 81 and 61 ticks.
- Motion.StandsForDwellTicks: states the exact-arithmetic count. For the reason in the line above, the C++ engine stands one tick longer (51, 81 or 61 ticks) before the dwell is used up.
- The store does not change during a run: `SimulationEngine.Run` uses one `Env` for every command. The HTTP API can edit stops, routes and vehicles while the loop runs, and each tick re-reads stop coordinates and vehicle rows. After a stop is moved, a state's `target == StopCoords(...)` clause of `Motion.StateInv` holds again only after the vehicle's next arrival. After a vehicle row is edited, the live-entry clause of `SimulationEngine.EngineInv` holds against the new store only after the next moving iteration.
- The SQL store is left out. The database's reads are the total lookups of `Storage`, over maps and a vehicle list.
- The unused constant `dwell_time_at_stop` (simulation.cpp:86) is left out.
- The HTTP API, the Flask proxy and signal handling in `main.cpp` are left out. They are glue over libraries.
- `IsRunning` and `IsPaused` carry no contract of their own. They read the flags; the contracts of `Start`, `Stop`, `Pause` and `Resume` state what the flags hold.
- C++ `int` width is not modelled. Vehicle, route and stop ids and stop indices are unbounded integers.
- Qt widgets, the Leaflet map, the HTTP request that sends the route, message boxes, logging and `convertCoord` are left out. Polylines carry plane coordinates.
- The stop and vehicle marker bookkeeping of `updateStops` and `updateVehicles` is left out. Only their icon mapping is modelled (`RouteMap.TypeIcon`).
- RouteForm.ParseInt: accepts an optional sign followed by ASCII decimal digits, of any length. Python's `int()` also accepts underscores between digits and non-ASCII decimal digits, and from CPython 3.11 on it refuses literals of more than 4300 digits (the form then reports a format error); none of this is modelled, so `RouteForm.SubmitRoute` sends such an over-long id.
- RouteForm.Strip: treats only the ASCII whitespace characters (space, \t, \n, \r, \x0b, \x0c, \x1c-\x1f) as whitespace. Python's `strip()` also removes Unicode spaces.
