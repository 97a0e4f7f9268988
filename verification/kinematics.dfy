/**
 The fixed kinematics table of the transport classes. The C++ engine expresses it
 as an abstract base class with three overriding subclasses; here it is a
 closed enumeration with three total lookups. None of them has state or an
 error path.
 */
module Kinematics {

  datatype TransportClass = Bus | Tram | Trolleybus

  /** Seconds a vehicle of class `c` stands at a stop after arriving. */
  function DwellTime(c: TransportClass): (d: real)
    ensures d > 0.0
    ensures 5.0 <= d <= 8.0
  {
    match c
    case Bus => 5.0
    case Tram => 8.0
    case Trolleybus => 6.0
  }

  /** Multiplier on the nominal speed. The table holds it, but the motion
      code never applies it (see Motion.TravelIgnoresModel). */
  function SpeedFactor(c: TransportClass): (f: real)
    ensures 0.0 < f <= 1.0
    ensures f == 1.0 <==> c == Bus
  {
    match c
    case Bus => 1.0
    case Tram => 0.8
    case Trolleybus => 0.9
  }

  /** Log icon of the class: U+1F68C bus, U+1F68A tram, U+1F68E trolleybus. */
  function Icon(c: TransportClass): (s: string)
    ensures |s| == 1
  {
    match c
    case Bus => "\U{1F68C}"
    case Tram => "\U{1F68A}"
    case Trolleybus => "\U{1F68E}"
  }

  /** Distinct classes have distinct icons. */
  lemma IconInjective(c: TransportClass, d: TransportClass)
    ensures Icon(c) == Icon(d) <==> c == d
  {
  }

  /** The type string stored with routes and vehicles for each class. */
  function KindName(c: TransportClass): string
  {
    match c
    case Bus => "bus"
    case Tram => "tram"
    case Trolleybus => "trolleybus"
  }

  predicate IsKnownKind(kind: string)
  {
    kind == "bus" || kind == "tram" || kind == "trolleybus"
  }

  /** Model selection at engine initialisation: "tram" and "trolleybus" pick
      their own model, every other string (including "bus" and "") picks Bus. */
  function ClassOf(kind: string): (c: TransportClass)
    ensures c == Tram <==> kind == "tram"
    ensures c == Trolleybus <==> kind == "trolleybus"
    ensures c == Bus <==> kind != "tram" && kind != "trolleybus"
  {
    if kind == "tram" then Tram
    else if kind == "trolleybus" then Trolleybus
    else Bus
  }

  /** The table's values. */
  lemma KinematicsTable()
    ensures DwellTime(Bus) == 5.0 && SpeedFactor(Bus) == 1.0
    ensures DwellTime(Tram) == 8.0 && SpeedFactor(Tram) == 0.8
    ensures DwellTime(Trolleybus) == 6.0 && SpeedFactor(Trolleybus) == 0.9
    ensures Icon(Bus) == "\U{1F68C}" && Icon(Tram) == "\U{1F68A}" && Icon(Trolleybus) == "\U{1F68E}"
  {
  }

  /** Selection inverts naming: a class survives the trip through its type
      string, and a type string survives the trip through its class exactly
      when it is one of the three known names. */
  lemma ClassOfKindName(c: TransportClass, kind: string)
    ensures ClassOf(KindName(c)) == c
    ensures KindName(ClassOf(kind)) == kind <==> IsKnownKind(kind)
  {
  }
}
