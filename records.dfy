/**
 * The records the pipeline works on. They are JavaScript objects that the
 * pipeline updates in place, so they are classes; the columns read from the
 * CSV files never change after loading and are `const`.
 */
module Records {
  import opened Wrappers

  /**
   * A positioned map node: a row of the reference airport table
   * (`allairport`) or a control point made by the segmenter. A control
   * point is a bare `{x, y}` object, so its `airport` code is absent.
   * `fx`/`fy` are the fixed position a force layout respects; they stay
   * absent until the node is pinned.
   */
  class Node {
    const airport: Option<string>
    var x: real
    var y: real
    var fx: Option<real>
    var fy: Option<real>

    /** A reference-table airport with its projected position. */
    constructor Airport(code: string, x0: real, y0: real)
      ensures airport == Some(code) && x == x0 && y == y0
      ensures fx == None && fy == None
    {
      airport := Some(code);
      x, y := x0, y0;
      fx, fy := None, None;
    }

    /** A control point `{x: x0, y: y0}`. */
    constructor Control(x0: real, y0: real)
      ensures airport == None && x == x0 && y == y0
      ensures fx == None && fy == None
    {
      airport := None;
      x, y := x0, y0;
      fx, fy := None, None;
    }
  }

  /**
   * One scheduled flight (a row of the flights table). `source` and
   * `target` are attached by the pipeline: null stands for `undefined`.
   */
  class Flight {
    const date: int       // FL_DATE
    const depTime: int    // DEP_TIME, HHMM
    const arrTime: int    // ARR_TIME, HHMM
    const origin: string  // ORIGIN, an IATA code
    const dest: string    // DEST, an IATA code
    const carrier: string // OP_CARRIER
    var source: Node?
    var target: Node?

    constructor (date: int, depTime: int, arrTime: int, origin: string, dest: string, carrier: string)
      ensures this.date == date && this.depTime == depTime && this.arrTime == arrTime
      ensures this.origin == origin && this.dest == dest && this.carrier == carrier
      ensures source == null && target == null
    {
      this.date, this.depTime, this.arrTime := date, depTime, arrTime;
      this.origin, this.dest, this.carrier := origin, dest, carrier;
      source, target := null, null;
    }
  }

  /**
   * Per-airport delay aggregates for one (year, half-hour bucket) pair
   * (a row of the airport-delay table). `outgoing` is the metric chosen
   * for display; loading initialises it to 0.
   */
  class DelayRow {
    const airport: string
    const year: int
    const time: int      // half-hour bucket 0..47
    const arrcount: int
    const depcount: int
    const arrsum: int
    const depsum: int
    var outgoing: int

    constructor (airport: string, year: int, time: int, arrcount: int, depcount: int, arrsum: int, depsum: int)
      ensures this.airport == airport && this.year == year && this.time == time
      ensures this.arrcount == arrcount && this.depcount == depcount
      ensures this.arrsum == arrsum && this.depsum == depsum
      ensures outgoing == 0
    {
      this.airport, this.year, this.time := airport, year, time;
      this.arrcount, this.depcount, this.arrsum, this.depsum := arrcount, depcount, arrsum, depsum;
      outgoing := 0;
    }
  }
}
