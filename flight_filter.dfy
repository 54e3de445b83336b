/**
 * The flight half of the filter pipeline: date, half-hour window and the
 * three optional equality selectors. Each stage is a `filter` call on the
 * flight list, so each is a function that keeps an order-preserving
 * subsequence of its input.
 */
module FlightFilter {
  import opened Seqs
  import opened Records
  import opened Clock

  /** The selector value that disables an equality filter. */
  const All: string := "all"

  /** The UI selections that drive one pass of the pipeline. */
  datatype Criteria = Criteria(
    yearData: int,       // the day, compared with FL_DATE
    hourData: int,       // the half-hour bucket 0..47
    departure: string,   // ORIGIN selector or "all"
    arrival: string,     // DEST selector or "all"
    company: string)     // OP_CARRIER selector or "all"

  /**
   * The clock reading the window test compares with: `hourData*50` for an
   * even bucket, `hourData*50-20` for an odd one.
   */
  function WindowTime(hourData: int): (t: int)
    ensures hourData >= 0 ==> t == (hourData / 2) * 100 + (hourData % 2) * 30
  {
    if hourData % 2 == 0 then hourData * 50 else hourData * 50 - 20
  }

  /**
   * The flight is in the air at the window time: departed by then, not yet
   * arrived. On readings the comparisons of packed numbers say that neither
   * the minutes from departure to the window time nor those from the window
   * time to arrival are negative.
   */
  function InWindow(f: Flight, hourData: int): (b: bool)
    ensures b ==> f.depTime <= f.arrTime
    ensures Reading(f.depTime) && Reading(f.arrTime) && Reading(WindowTime(hourData)) ==>
      (b <==> TimeDistance(f.depTime, WindowTime(hourData)) >= 0 && TimeDistance(WindowTime(hourData), f.arrTime) >= 0)
  {
    var t := WindowTime(hourData);
    if Reading(f.depTime) && Reading(f.arrTime) && Reading(t) then
      DistanceSignIsOrder(f.depTime, t);
      DistanceSignIsOrder(t, f.arrTime);
      f.arrTime >= t && f.depTime <= t
    else
      f.arrTime >= t && f.depTime <= t
  }

  /** An equality selector accepts `value`. */
  predicate Accepts(selected: string, value: string)
  {
    selected == All || value == selected
  }

  /** Reference definition of the flights the four stages let through. */
  predicate Selected(f: Flight, c: Criteria)
  {
    && f.date == c.yearData
    && InWindow(f, c.hourData)
    && Accepts(c.departure, f.origin)
    && Accepts(c.arrival, f.dest)
    && Accepts(c.company, f.carrier)
  }

  /** Stage 1: the flights of the selected day. */
  function ByDate(fs: seq<Flight>, yearData: int): (r: seq<Flight>)
    ensures IsSubsequence(r, fs)
    ensures forall f :: f in r ==> f in fs
    ensures forall f :: f in fs ==> (f in r <==> f.date == yearData)
  {
    var p := (f: Flight) => f.date == yearData;
    FilterSpec(fs, p);
    Filter(fs, p)
  }

  /** Stage 2: the flights in the air at the bucket's window time. */
  function ByWindow(fs: seq<Flight>, hourData: int): (r: seq<Flight>)
    ensures IsSubsequence(r, fs)
    ensures forall f :: f in r ==> f in fs
    ensures forall f :: f in fs ==> (f in r <==> InWindow(f, hourData))
  {
    var p := (f: Flight) => InWindow(f, hourData);
    FilterSpec(fs, p);
    Filter(fs, p)
  }

  /**
   * Stages 3 to 5: an optional equality filter on one column (`key`);
   * the sentinel "all" leaves the list as it is.
   */
  function BySelector(fs: seq<Flight>, selected: string, key: Flight -> string): (r: seq<Flight>)
    ensures selected == All ==> r == fs
    ensures IsSubsequence(r, fs)
    ensures forall f :: f in r ==> f in fs
    ensures forall f :: f in fs ==> (f in r <==> Accepts(selected, key(f)))
  {
    if selected == All then
      SubsequenceRefl(fs);
      fs
    else
      var p := (f: Flight) => key(f) == selected;
      FilterSpec(fs, p);
      Filter(fs, p)
  }

  /**
   * The five stages in the source's order. The result is a subsequence of
   * the input holding exactly the flights that meet every criterion.
   */
  function SelectFlights(fs: seq<Flight>, c: Criteria): (r: seq<Flight>)
    ensures IsSubsequence(r, fs)
    ensures forall f :: f in r ==> f in fs
    ensures forall f :: f in fs ==> (f in r <==> Selected(f, c))
  {
    var s1 := ByDate(fs, c.yearData);
    var s2 := ByWindow(s1, c.hourData);
    var s3 := BySelector(s2, c.departure, (f: Flight) => f.origin);
    var s4 := BySelector(s3, c.arrival, (f: Flight) => f.dest);
    var s5 := BySelector(s4, c.company, (f: Flight) => f.carrier);
    SubsequenceTrans(s2, s1, fs);
    SubsequenceTrans(s3, s2, fs);
    SubsequenceTrans(s4, s3, fs);
    SubsequenceTrans(s5, s4, fs);
    s5
  }
}
