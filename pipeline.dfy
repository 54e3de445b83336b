/**
 * The data part of `processData`: the flight stages, airport resolution,
 * the delay-row bucket filter and the metric assignment, in the source's
 * order. Rendering, which follows, is not part of this model.
 */
module Pipeline {
  import opened Wrappers
  import opened Seqs
  import opened Records
  import opened FlightFilter
  import opened Resolve
  import opened Metrics

  /**
   * One pass over `flights` and `airports` (the delay rows) with the
   * selections `c`, the two metric toggles and the reference table
   * `allairport`. Returns the flights to draw, each attached to its two
   * reference airports, and the delay rows of the selected bucket and day,
   * each with `outgoing` set. Records are updated in place: only the
   * `source`/`target` of flights that passed the criteria and the
   * `outgoing` of the kept rows change. Every flight that meets the
   * criteria gets `iata.get` of its two codes, also when it is then dropped
   * because one of them is unknown.
   */
  method ProcessData(airports: seq<DelayRow>, flights: seq<Flight>, c: Criteria,
                     arrivalShow: bool, isDelayCount: string, allairport: seq<Node>)
    returns (keptFlights: seq<Flight>, keptAirports: seq<DelayRow>)
    modifies set f | f in flights, set a | a in airports
    ensures IsSubsequence(keptFlights, flights)
    ensures forall f :: f in keptFlights ==> f in flights
    ensures forall f :: f in flights ==>
      (f in keptFlights <==> Selected(f, c) && Some(f.origin) in Iata(allairport) && Some(f.dest) in Iata(allairport))
    ensures forall f :: f in keptFlights ==>
      && f.source == Iata(allairport)[Some(f.origin)] && f.target == Iata(allairport)[Some(f.dest)]
      && f.source in allairport && f.target in allairport
    ensures forall f :: f in flights && Selected(f, c) ==>
      f.source == Lookup(Iata(allairport), f.origin) && f.target == Lookup(Iata(allairport), f.dest)
    ensures forall f :: f in flights && !Selected(f, c) ==> f.source == old(f.source) && f.target == old(f.target)
    ensures keptAirports == ByBucket(airports, c.hourData, c.yearData)
    ensures forall a :: a in keptAirports ==> a.outgoing == MetricValue(a, ChosenMetric(arrivalShow, isDelayCount))
    ensures forall a :: a in airports && a !in keptAirports ==> a.outgoing == old(a.outgoing)
  {
    var selected := SelectFlights(flights, c);
    var iata := Iata(allairport);
    ResolveEndpoints(selected, iata);
    keptFlights := DropUnresolved(selected, iata);
    SubsequenceTrans(keptFlights, selected, flights);

    keptAirports := ByBucket(airports, c.hourData, c.yearData);
    AssignOutgoing(keptAirports, arrivalShow, isDelayCount);
  }
}
