/** Terminal events of a thread. Output and exit may arrive before their terminal exists; they wait until it does. */
module TerminalEvents {
  import opened Options

  type Bytes = seq<bv8>

  datatype ExitStatus = ExitStatus(code: Option<int>)

  datatype Event =
    | Created(id: string)
    | Output(id: string, data: Bytes)
    | TitleChanged(id: string)
    | Exit(id: string, status: ExitStatus)
    | Release(id: string)

  /** What has been written to each terminal, and what waits for one. */
  datatype Table = Table(terminals: map<string, Bytes>, pendingOutput: map<string, seq<Bytes>>, pendingExit: map<string, ExitStatus>)

  const START := Table(map[], map[], map[])

  function Concat(chunks: seq<Bytes>): Bytes {
    if chunks == [] then [] else Concat(chunks[..|chunks| - 1]) + chunks[|chunks| - 1]
  }

  function PendingChunks(t: Table, id: string): seq<Bytes> {
    if id in t.pendingOutput then t.pendingOutput[id] else []
  }

  function Written(t: Table, id: string): Bytes {
    if id in t.terminals then t.terminals[id] else []
  }

  /** A terminal comes into being with what has waited for it; one that was there before is replaced. */
  function Step(t: Table, e: Event): Table {
    match e
    case Created(id) =>
      Table(t.terminals[id := Concat(PendingChunks(t, id))], t.pendingOutput - {id}, t.pendingExit - {id})
    case Output(id, data) =>
      if id in t.terminals then t.(terminals := t.terminals[id := t.terminals[id] + data])
      else t.(pendingOutput := t.pendingOutput[id := PendingChunks(t, id) + [data]])
    case TitleChanged(_) => t
    case Exit(id, status) =>
      if id in t.terminals then t else t.(pendingExit := t.pendingExit[id := status])
    case Release(id) => t.(terminals := t.terminals - {id})
  }

  function Run(events: seq<Event>): Table {
    if events == [] then START else Step(Run(events[..|events| - 1]), events[|events| - 1])
  }

  /** Nothing waits for a terminal that exists. */
  ghost predicate Sound(t: Table) {
    t.terminals.Keys !! t.pendingOutput.Keys && t.terminals.Keys !! t.pendingExit.Keys
  }

  lemma {:induction false} RunSound(events: seq<Event>)
    ensures Sound(Run(events))
  {
    if events != [] {
      RunSound(events[..|events| - 1]);
    }
  }

  // ----- the output of one terminal

  /** Whether the terminal exists after the events. */
  predicate Live(events: seq<Event>, id: string) {
    if events == [] then false
    else
      var e := events[|events| - 1];
      if e == Created(id) then true else if e == Release(id) then false else Live(events[..|events| - 1], id)
  }

  /** The output of the terminal, in order. It starts anew when a terminal that exists is released or replaced. */
  function Received(events: seq<Event>, id: string): Bytes {
    if events == [] then []
    else
      var init, e := events[..|events| - 1], events[|events| - 1];
      if (e == Created(id) || e == Release(id)) && Live(init, id) then []
      else if e.Output? && e.id == id then Received(init, id) + e.data
      else Received(init, id)
  }

  /** All output for the identifier, in order. */
  function AllOutput(events: seq<Event>, id: string): Bytes {
    if events == [] then []
    else
      var init, e := events[..|events| - 1], events[|events| - 1];
      if e.Output? && e.id == id then AllOutput(init, id) + e.data else AllOutput(init, id)
  }

  lemma ConcatSnoc(chunks: seq<Bytes>, data: Bytes)
    ensures Concat(chunks + [data]) == Concat(chunks) + data
  {
    assert (chunks + [data])[..|chunks|] == chunks;
  }

  /** On any run, what was written to the terminal followed by what waits for it is what was received. */
  lemma {:induction false} OutputConserved(events: seq<Event>, id: string)
    ensures id in Run(events).terminals <==> Live(events, id)
    ensures Written(Run(events), id) + Concat(PendingChunks(Run(events), id)) == Received(events, id)
  {
    if events != [] {
      var init, e := events[..|events| - 1], events[|events| - 1];
      OutputConserved(init, id);
      RunSound(init);
      if e.Output? && e.id == id {
        ConcatSnoc(PendingChunks(Run(init), id), e.data);
      }
    }
  }

  /** Created once at most and never released, a terminal receives all output. */
  lemma {:induction false} OnceCreatedReceivesAll(events: seq<Event>, id: string)
    requires Release(id) !in events
    requires forall i, j | 0 <= i < j < |events| :: !(events[i] == Created(id) && events[j] == Created(id))
    ensures Received(events, id) == AllOutput(events, id)
    ensures Live(events, id) <==> Created(id) in events
  {
    if events != [] {
      OnceCreatedReceivesAll(events[..|events| - 1], id);
      assert events == events[..|events| - 1] + [events[|events| - 1]];
    }
  }

  /** For a terminal created at most once and never released, no output is lost, repeated or reordered, and once it
      exists nothing is left waiting. */
  lemma OutputNeitherLostNorReordered(events: seq<Event>, id: string)
    requires Release(id) !in events
    requires forall i, j | 0 <= i < j < |events| :: !(events[i] == Created(id) && events[j] == Created(id))
    ensures Written(Run(events), id) + Concat(PendingChunks(Run(events), id)) == AllOutput(events, id)
    ensures Created(id) in events ==> Written(Run(events), id) == AllOutput(events, id) && id !in Run(events).pendingExit
  {
    OutputConserved(events, id);
    OnceCreatedReceivesAll(events, id);
    RunSound(events);
  }

  // ----- the exit status that waits for a terminal

  /** The `i`th event brought the status while there was no such terminal, and none has come into being, nor another status
      for it, since. */
  ghost predicate WaitsFrom(events: seq<Event>, i: int, id: string, status: ExitStatus) {
    && 0 <= i < |events| && events[i] == Exit(id, status) && !Live(events[..i], id)
    && forall j | i < j < |events| :: events[j] != Created(id) && !(events[j].Exit? && events[j].id == id)
  }

  lemma WaitsFromSnoc(init: seq<Event>, e: Event, i: int, id: string, status: ExitStatus)
    ensures WaitsFrom(init + [e], i, id, status)
            <==> if i == |init| then e == Exit(id, status) && !Live(init, id)
                 else WaitsFrom(init, i, id, status) && e != Created(id) && !(e.Exit? && e.id == id)
  {
    var events := init + [e];
    assert events[|init|] == e;
    if 0 <= i <= |init| {
      assert events[..i] == init[..i] && init[..|init|] == init;
      if WaitsFrom(events, i, id, status) && i < |init| {
        forall j | i < j < |init| ensures init[j] != Created(id) && !(init[j].Exit? && init[j].id == id) {
          assert init[j] == events[j];
        }
      }
    }
  }

  /** No terminal has been alive since, so that a later status is kept as well. */
  lemma {:induction false} NotLiveSince(events: seq<Event>, i: int, id: string, status: ExitStatus)
    requires WaitsFrom(events, i, id, status)
    ensures !Live(events, id)
  {
    var n := |events| - 1;
    if i < n {
      assert events == events[..n] + [events[n]];
      WaitsFromSnoc(events[..n], events[n], i, id, status);
      NotLiveSince(events[..n], i, id, status);
    }
  }

  /** A status waits exactly if it came for a terminal that did not exist, and that has not come into being since. */
  lemma {:induction false} ExitWaitsIff(events: seq<Event>, id: string, status: ExitStatus)
    ensures id in Run(events).pendingExit && Run(events).pendingExit[id] == status <==> exists i :: WaitsFrom(events, i, id, status)
  {
    if events != [] {
      var n := |events| - 1;
      var init, e := events[..n], events[n];
      ExitWaitsIff(init, id, status);
      OutputConserved(init, id);
      RunSound(init);
      assert events == init + [e];
      forall i: int
        ensures WaitsFrom(events, i, id, status)
                <==> if i == n then e == Exit(id, status) && !Live(init, id)
                     else WaitsFrom(init, i, id, status) && e != Created(id) && !(e.Exit? && e.id == id)
      {
        WaitsFromSnoc(init, e, i, id, status);
      }
      if e == Exit(id, status) && !Live(init, id) {
        assert WaitsFrom(events, n, id, status);
      } else if i :| WaitsFrom(init, i, id, status) {
        NotLiveSince(init, i, id, status);
        assert e != Created(id) && !(e.Exit? && e.id == id) ==> WaitsFrom(events, i, id, status);
      }
    }
  }

  // ----- the thread's tables

  class Terminals {
    var terminals: map<string, Bytes>
    var pendingOutput: map<string, seq<Bytes>>
    var pendingExit: map<string, ExitStatus>

    constructor ()
      ensures State() == START
    {
      terminals, pendingOutput, pendingExit := map[], map[], map[];
    }

    function State(): Table
      reads this
    {
      Table(terminals, pendingOutput, pendingExit)
    }

    method WriteOutput(id: string, data: Bytes)
      requires id in terminals
      modifies this`terminals
      ensures terminals == old(terminals)[id := old(terminals)[id] + data]
    {
      terminals := terminals[id := terminals[id] + data];
    }

    method OnEvent(event: Event)
      modifies this
      ensures State() == Step(old(State()), event)
    {
      match event
      case Created(id) => OnCreated(id);
      case Output(id, data) =>
        if id in terminals {
          WriteOutput(id, data);
        } else {
          var chunks := if id in pendingOutput then pendingOutput[id] else [];
          pendingOutput := pendingOutput[id := chunks + [data]];
        }
      case TitleChanged(_) =>
      case Exit(id, status) =>
        if id !in terminals {
          pendingExit := pendingExit[id := status];
        }
      case Release(id) => terminals := terminals - {id};
    }

    method OnCreated(id: string)
      modifies this
      ensures State() == Step(old(State()), Created(id))
    {
      ghost var before := terminals;
      terminals := terminals[id := []];
      if id in pendingOutput {
        var chunks := pendingOutput[id];
        pendingOutput := pendingOutput - {id};
        var i := 0;
        while i < |chunks|
          invariant 0 <= i <= |chunks|
          invariant terminals == before[id := Concat(chunks[..i])]
          invariant pendingOutput == old(pendingOutput) - {id} && pendingExit == old(pendingExit)
        {
          ConcatSnoc(chunks[..i], chunks[i]);
          assert chunks[..i + 1] == chunks[..i] + [chunks[i]];
          WriteOutput(id, chunks[i]);
          i := i + 1;
        }
        assert chunks[..|chunks|] == chunks;
      } else {
        assert pendingOutput == pendingOutput - {id};
      }
      if id in pendingExit {
        pendingExit := pendingExit - {id};
      } else {
        assert pendingExit == pendingExit - {id};
      }
    }
  }
}
