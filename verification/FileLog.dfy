/** Files opened and closed through HDF5, as a log of events. */
module FileLog {
  import opened Options
  import opened Geometry

  /** `pos` is the position that the file was asked for. */
  datatype Event =
    | Created(pos: Dims, name: string, flags: nat, handle: int)
    | Opened(pos: Dims, name: string, flags: nat, handle: int)
    | Closed(handle: int)
  {
    predicate Opens() {
      !Closed?
    }
  }

  /** The identifiers given out so far. */
  ghost function Issued(log: seq<Event>): set<int> {
    if log == [] then {}
    else
      var e, before := log[|log| - 1], Issued(log[..|log| - 1]);
      if e.Closed? then before else before + {e.handle}
  }

  /** The identifiers of the files that are open. */
  ghost function Live(log: seq<Event>): set<int> {
    if log == [] then {}
    else
      var e, before := log[|log| - 1], Live(log[..|log| - 1]);
      if e.Closed? then before - {e.handle} else before + {e.handle}
  }

  /** HDF5 gives out every identifier once, and only open files are closed. */
  ghost predicate Proper(log: seq<Event>) {
    log == [] ||
    var e, before := log[|log| - 1], log[..|log| - 1];
    Proper(before) && if e.Closed? then e.handle in Live(before) else e.handle !in Issued(before)
  }

  /** Where in the log an identifier was given out. */
  ghost function OpenedAt(log: seq<Event>, h: int): (at: Option<nat>)
    ensures at.Some? ==> at.value < |log| && log[at.value].Opens() && log[at.value].handle == h
    ensures at.Some? <==> h in Issued(log)
  {
    if log == [] then None
    else
      var e := log[|log| - 1];
      if e.Opens() && e.handle == h then Some(|log| - 1) else OpenedAt(log[..|log| - 1], h)
  }

  ghost function TimesClosed(log: seq<Event>, h: int): nat {
    if log == [] then 0
    else TimesClosed(log[..|log| - 1], h) + if log[|log| - 1] == Closed(h) then 1 else 0
  }

  /** One more event. */
  lemma Extend(log: seq<Event>, e: Event)
    ensures Issued(log + [e]) == if e.Closed? then Issued(log) else Issued(log) + {e.handle}
    ensures Live(log + [e]) == if e.Closed? then Live(log) - {e.handle} else Live(log) + {e.handle}
    ensures Proper(log + [e]) <==>
              Proper(log) && if e.Closed? then e.handle in Live(log) else e.handle !in Issued(log)
    ensures forall h :: OpenedAt(log + [e], h) == if e.Opens() && e.handle == h then Some(|log|) else OpenedAt(log, h)
  {}

  lemma {:induction false} LiveIsIssued(log: seq<Event>)
    ensures Live(log) <= Issued(log)
  {
    if log != [] {
      LiveIsIssued(log[..|log| - 1]);
    }
  }

  /** In a proper log every file is open and not closed, or closed exactly once. */
  lemma {:induction false} LiveOrClosedOnce(log: seq<Event>, h: int)
    requires Proper(log)
    ensures TimesClosed(log, h) == if h in Issued(log) && h !in Live(log) then 1 else 0
  {
    if log != [] {
      LiveOrClosedOnce(log[..|log| - 1], h);
      LiveIsIssued(log[..|log| - 1]);
    }
  }
}
