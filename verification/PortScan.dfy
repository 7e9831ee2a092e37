/** Collecting the entries of a list of ports in order, with and without an index
    that says which ports are worth reading. */
module PortScan {
  import opened Text
  import opened SlotCodec

  function AsSeq<T>(o: Option<T>): seq<T> {
    match o case None => [] case Some(v) => [v]
  }

  /** Every entry found by reading the ports one by one. */
  function ReadEach<T>(ports: seq<u16>, entry: u16 -> Option<T>): seq<T> {
    if ports == [] then []
    else ReadEach(ports[..|ports| - 1], entry) + AsSeq(entry(ports[|ports| - 1]))
  }

  /** The entries found by reading only the indexed ports. */
  function ReadIndexed<T>(ports: seq<u16>, bit: u16 -> bool, entry: u16 -> Option<T>): seq<T> {
    if ports == [] then []
    else
      var p := ports[|ports| - 1];
      ReadIndexed(ports[..|ports| - 1], bit, entry) + if bit(p) then AsSeq(entry(p)) else []
  }

  lemma ReadNext<T>(ports: seq<u16>, p: u16, bit: u16 -> bool, entry: u16 -> Option<T>)
    ensures ReadIndexed(ports + [p], bit, entry) == ReadIndexed(ports, bit, entry) + if bit(p) then AsSeq(entry(p)) else []
  {
    assert (ports + [p])[..|ports|] == ports;
  }

  /** An index that misses no readable port changes nothing. */
  lemma {:induction false} IndexIsComplete<T>(ports: seq<u16>, bit: u16 -> bool, entry: u16 -> Option<T>)
    requires forall p: u16 | !bit(p) :: entry(p) == None
    ensures ReadIndexed(ports, bit, entry) == ReadEach(ports, entry)
  {
    if ports == [] {
    } else {
      IndexIsComplete(ports[..|ports| - 1], bit, entry);
    }
  }

  lemma {:induction false} SkipUnindexed<T>(ports: seq<u16>, more: seq<u16>, bit: u16 -> bool, entry: u16 -> Option<T>)
    requires forall p | p in more :: !bit(p)
    ensures ReadIndexed(ports + more, bit, entry) == ReadIndexed(ports, bit, entry)
  {
    if more == [] {
      assert ports + more == ports;
    } else {
      var front, p := more[..|more| - 1], more[|more| - 1];
      SkipUnindexed(ports, front, bit, entry);
      assert ports + more == ports + front + [p];
      ReadNext(ports + front, p, bit, entry);
    }
  }

  predicate Ascending(ports: seq<u16>) {
    forall i, j | 0 <= i < j < |ports| :: ports[i] < ports[j]
  }

  ghost predicate Sound<T(!new)>(rs: seq<T>, ports: seq<u16>, bit: u16 -> bool, entry: u16 -> Option<T>, portOf: T -> u16) {
    && (forall i, j | 0 <= i < j < |rs| :: portOf(rs[i]) < portOf(rs[j]))
    && (forall r | r in rs :: portOf(r) in ports && bit(portOf(r)) && entry(portOf(r)) == Some(r))
    && (forall p | p in ports && bit(p) && entry(p).Some? :: entry(p).value in rs)
  }

  lemma SoundNext<T(!new)>(rs: seq<T>, ports: seq<u16>, p: u16, bit: u16 -> bool, entry: u16 -> Option<T>, portOf: T -> u16)
    requires Sound(rs, ports, bit, entry, portOf)
    requires forall q | q in ports :: q < p
    requires bit(p) && entry(p).Some? ==> portOf(entry(p).value) == p
    ensures Sound(rs + if bit(p) then AsSeq(entry(p)) else [], ports + [p], bit, entry, portOf)
  {
    assert forall i | 0 <= i < |rs| :: rs[i] in rs;
  }

  /** When every port reads as an entry of its own, what is read is ascending and
      holds exactly the readable indexed entries. */
  lemma {:induction false} ReadIndexedSound<T(!new)>(ports: seq<u16>, bit: u16 -> bool, entry: u16 -> Option<T>, portOf: T -> u16)
    requires Ascending(ports)
    requires forall p: u16 | bit(p) && entry(p).Some? :: portOf(entry(p).value) == p
    ensures Sound(ReadIndexed(ports, bit, entry), ports, bit, entry, portOf)
  {
    if ports == [] {
    } else {
      var front, last := ports[..|ports| - 1], ports[|ports| - 1];
      ReadIndexedSound(front, bit, entry, portOf);
      SoundNext(ReadIndexed(front, bit, entry), front, last, bit, entry, portOf);
      assert ports == front + [last];
    }
  }
}
