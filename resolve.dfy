/**
 * Attaching airports to flights: the code-to-airport map built from the
 * reference airport table, the loop that sets each flight's `source` and
 * `target`, and the filter that drops flights whose airports are unknown.
 */
module Resolve {
  import opened Wrappers
  import opened Seqs
  import opened Records

  /** The lookup table `iata`, keyed by each node's (possibly absent) `airport` code. */
  type CodeMap = map<Option<string>, Node>

  /**
   * `new Map(allairport.map(node => [node.airport, node]))`: entries are set
   * in table order, so when two rows share a code the later one wins.
   */
  function Iata(all: seq<Node>): (m: CodeMap)
    ensures forall k :: k in m ==> m[k] in all && m[k].airport == k
    ensures forall n :: n in all ==> n.airport in m
    decreases |all|
  {
    if all == [] then map[]
    else
      var last := all[|all| - 1];
      var m := Iata(all[..|all| - 1])[last.airport := last];
      assert forall n :: n in all ==> n in all[..|all| - 1] || n == last;
      m
  }

  /** When a row's code does not occur later in the table, the map holds that very row. */
  lemma {:induction false} IataLastWins(all: seq<Node>, i: nat)
    requires i < |all|
    requires forall j :: i < j < |all| ==> all[j].airport != all[i].airport
    ensures Iata(all)[all[i].airport] == all[i]
    decreases |all|
  {
    if i < |all| - 1 {
      IataLastWins(all[..|all| - 1], i);
    }
  }

  /** `iata.get(code)`: the node for `code`, or undefined (null). */
  function Lookup(iata: CodeMap, code: string): (n: Node?)
    ensures n != null <==> Some(code) in iata
    ensures n != null ==> n == iata[Some(code)]
  {
    if Some(code) in iata then iata[Some(code)] else null
  }

  /**
   * The `forEach` that sets `link.source = iata.get(link.ORIGIN)` and
   * `link.target = iata.get(link.DEST)` on every flight of the list.
   */
  method ResolveEndpoints(fs: seq<Flight>, iata: CodeMap)
    modifies set f | f in fs
    ensures forall f :: f in fs ==> f.source == Lookup(iata, f.origin) && f.target == Lookup(iata, f.dest)
  {
    for i := 0 to |fs|
      invariant forall k :: 0 <= k < i ==>
        fs[k].source == Lookup(iata, fs[k].origin) && fs[k].target == Lookup(iata, fs[k].dest)
    {
      fs[i].source := Lookup(iata, fs[i].origin);
      fs[i].target := Lookup(iata, fs[i].dest);
    }
  }

  /** Both airports of the flight are attached and known to the map. */
  predicate Resolved(f: Flight, iata: CodeMap)
    reads f
  {
    f.source != null && f.source.airport in iata && f.target != null && f.target.airport in iata
  }

  /**
   * The final flight filter as intended ("filter out flights that are not
   * between airports we have"): a flight with an undefined endpoint is dropped.
   */
  function DropUnresolved(fs: seq<Flight>, iata: CodeMap): (r: seq<Flight>)
    reads set f | f in fs
    ensures IsSubsequence(r, fs)
    ensures forall f :: f in r ==> f in fs && Resolved(f, iata)
    ensures forall f :: f in fs && Resolved(f, iata) ==> f in r
    decreases |fs|
  {
    if fs == [] then []
    else
      var rest := DropUnresolved(fs[1..], iata);
      assert forall f :: f in fs[1..] ==> f in fs;
      if Resolved(fs[0], iata) then [fs[0]] + rest
      else
        assert rest != [] ==> rest[0] != fs[0];
        rest
  }

  /** The error raised by reading a property of `undefined`. */
  datatype Thrown = TypeError

  /**
   * Evaluating the source's filter callback on `f` reads `.airport` of an
   * undefined endpoint. Once the endpoints are set by `iata.get` on a map
   * whose entries carry their own codes, that happens exactly when the
   * flight's ORIGIN or DEST code is unknown.
   */
  function Throws(f: Flight, iata: CodeMap): (t: bool)
    reads f
    ensures
      && (forall k :: k in iata ==> iata[k].airport == k)
      && f.source == Lookup(iata, f.origin) && f.target == Lookup(iata, f.dest)
      ==> (t <==> Some(f.origin) !in iata || Some(f.dest) !in iata)
  {
    f.source == null || (f.source.airport in iata && f.target == null)
  }

  /**
   * The same filter as the source writes it,
   * `iata.has(link.source.airport) && iata.has(link.target.airport)`:
   * reading `.airport` of an undefined endpoint throws, and `&&` reads the
   * target only when the source's code is in the map.
   */
  function DropUnresolvedAsWritten(fs: seq<Flight>, iata: CodeMap): (r: Result<seq<Flight>, Thrown>)
    reads set f | f in fs
    ensures r.Failure? <==> exists f :: f in fs && Throws(f, iata)
    ensures r.Success? ==> r.value == DropUnresolved(fs, iata)
    decreases |fs|
  {
    if fs == [] then Success([])
    else
      var f := fs[0];
      assert forall g :: g in fs[1..] ==> g in fs;
      assert forall g :: g in fs ==> g == f || g in fs[1..];
      if Throws(f, iata) then Failure(TypeError)
      else
        match DropUnresolvedAsWritten(fs[1..], iata)
        case Failure(e) => Failure(e)
        case Success(rest) => Success(if Resolved(f, iata) then [f] + rest else rest)
  }

  /** After `ResolveEndpoints` with the map built from `all`. */
  ghost predicate ResolvedBy(fs: seq<Flight>, all: seq<Node>)
    reads set f | f in fs
  {
    forall f :: f in fs ==> f.source == Lookup(Iata(all), f.origin) && f.target == Lookup(Iata(all), f.dest)
  }

  /**
   * A flight whose ORIGIN or DEST is missing from the reference table makes
   * the filter as written throw, while the intended filter drops just that flight.
   */
  lemma UnknownCodeThrows(fs: seq<Flight>, all: seq<Node>, i: nat)
    requires i < |fs| && ResolvedBy(fs, all)
    requires Some(fs[i].origin) !in Iata(all) || Some(fs[i].dest) !in Iata(all)
    ensures DropUnresolvedAsWritten(fs, Iata(all)).Failure?
    ensures fs[i] !in DropUnresolved(fs, Iata(all))
  {
    var iata, f := Iata(all), fs[i];
    assert f in fs;
    assert Throws(f, iata);
    assert !Resolved(f, iata);
  }

  /** When every endpoint resolves, the filter as written keeps every flight, like the intended one. */
  lemma {:induction false} AsWrittenWhenAllResolved(fs: seq<Flight>, all: seq<Node>)
    requires ResolvedBy(fs, all)
    requires forall f :: f in fs ==> Some(f.origin) in Iata(all) && Some(f.dest) in Iata(all)
    ensures DropUnresolvedAsWritten(fs, Iata(all)) == Success(fs)
    ensures DropUnresolved(fs, Iata(all)) == fs
    decreases |fs|
  {
    if fs != [] {
      assert fs[0] in fs;
      assert forall f :: f in fs[1..] ==> f in fs;
      AsWrittenWhenAllResolved(fs[1..], all);
      assert fs == [fs[0]] + fs[1..];
    }
  }
}
