/** Alamofire's DataStreamRequest: completions are held back while stream handlers are outstanding. */
module Streams {

  type Id = nat

  /** One call of a stream's handler with one piece of data. */
  datatype Invocation = Invocation(stream: Id, data: nat)

  /** A completion and the number of handler invocations outstanding when it was released. */
  datatype Release = Release(completion: Id, outstanding: nat)

  /** StreamMutableState, the parser batches on the underlying queue, the handler invocations on their
      own queues, and the history of completions, of invocations dispatched and of handlers that ran. */
  datatype State = State(streams: seq<Id>, numberOfExecutingStreams: int, enqueued: seq<Id>,
                         batches: seq<seq<Invocation>>, handlers: multiset<Invocation>,
                         submitted: seq<Id>, released: seq<Release>,
                         dispatched: seq<Invocation>, ran: seq<Invocation>)

  datatype Event = AddStream(stream: Id)
                 | Receive(data: nat)
                 | DispatchBatch
                 | HandlerRan(invocation: Invocation)
                 | CompletionArrived(completion: Id)

  function Total(batches: seq<seq<Invocation>>): nat {
    if batches == [] then 0 else |batches[0]| + Total(batches[1..])
  }

  /** Handler invocations that were caused by received data and have not finished. */
  function Outstanding(s: State): nat {
    Total(s.batches) + |s.handlers|
  }

  function Invocations(streams: seq<Id>, data: nat): (r: seq<Invocation>)
    ensures |r| == |streams|
  {
    seq(|streams|, i requires 0 <= i < |streams| => Invocation(streams[i], data))
  }

  function ReleaseAll(ids: seq<Id>, outstanding: nat): (r: seq<Release>)
    ensures |r| == |ids| && forall i :: 0 <= i < |ids| ==> r[i] == Release(ids[i], outstanding)
  {
    seq(|ids|, i requires 0 <= i < |ids| => Release(ids[i], outstanding))
  }

  predicate Enabled(s: State, e: Event) {
    match e
    case AddStream(_) => true
    case Receive(_) => true
    case DispatchBatch => s.batches != []
    case HandlerRan(i) => i in s.handlers
    case CompletionArrived(c) => c !in s.submitted
  }

  /** updateAndCompleteIfPossible, after a handler has run. */
  function UpdateAndComplete(s: State): State {
    var s' := s.(numberOfExecutingStreams := s.numberOfExecutingStreams - 1);
    if s'.numberOfExecutingStreams != 0 || s'.enqueued == [] then s'
    else s'.(released := s'.released + ReleaseAll(s'.enqueued, Outstanding(s')), enqueued := [])
  }

  function Next(s: State, e: Event): State
    requires Enabled(s, e)
  {
    match e
    case AddStream(stream) => s.(streams := s.streams + [stream])
    case Receive(data) =>
      s.(numberOfExecutingStreams := s.numberOfExecutingStreams + |s.streams|,
         batches := s.batches + [Invocations(s.streams, data)])
    case DispatchBatch => s.(batches := s.batches[1..], handlers := s.handlers + multiset(s.batches[0]),
                             dispatched := s.dispatched + s.batches[0])
    case HandlerRan(i) => UpdateAndComplete(s.(handlers := s.handlers - multiset{i}, ran := s.ran + [i]))
    case CompletionArrived(c) =>
      var s' := s.(submitted := s.submitted + [c]);
      if s.numberOfExecutingStreams == 0 then s'.(released := s.released + [Release(c, Outstanding(s))])
      else s'.(enqueued := s.enqueued + [c])
  }

  function Init(): State {
    State([], 0, [], [], multiset{}, [], [], [], [])
  }

  predicate Legal(s: State, es: seq<Event>)
    decreases |es|
  {
    es == [] || (Enabled(s, es[0]) && Legal(Next(s, es[0]), es[1..]))
  }

  function Run(s: State, es: seq<Event>): State
    requires Legal(s, es)
    decreases |es|
  {
    if es == [] then s else Run(Next(s, es[0]), es[1..])
  }

  function Completions(released: seq<Release>): (ids: seq<Id>)
    ensures |ids| == |released| && forall i :: 0 <= i < |ids| ==> ids[i] == released[i].completion
  {
    seq(|released|, i requires 0 <= i < |released| => released[i].completion)
  }

  ghost predicate Inv(s: State) {
    && s.numberOfExecutingStreams == Outstanding(s)
    && (s.enqueued != [] ==> s.numberOfExecutingStreams > 0)
    && Completions(s.released) + s.enqueued == s.submitted
    && (forall i, j :: 0 <= i < j < |s.submitted| ==> s.submitted[i] != s.submitted[j])
    && (forall i :: 0 <= i < |s.released| ==> s.released[i].outstanding == 0)
  }

  lemma {:induction false} TotalAppend(batches: seq<seq<Invocation>>, b: seq<Invocation>)
    ensures Total(batches + [b]) == Total(batches) + |b|
    decreases |batches|
  {
    if batches == [] {
      assert batches + [b] == [b] && [b][1..] == [];
    } else {
      assert (batches + [b])[1..] == batches[1..] + [b];
      TotalAppend(batches[1..], b);
    }
  }

  lemma {:induction false} ReleaseKeepsOrder(released: seq<Release>, ids: seq<Id>, outstanding: nat)
    ensures Completions(released + ReleaseAll(ids, outstanding)) == Completions(released) + ids
  {
  }

  lemma {:induction false} NextKeeps(s: State, e: Event)
    requires Inv(s) && Enabled(s, e)
    ensures Inv(Next(s, e))
  {
    match e
    case AddStream(_) =>
    case Receive(data) => TotalAppend(s.batches, Invocations(s.streams, data));
    case DispatchBatch =>
    case HandlerRan(i) => ReleaseKeepsOrder(s.released, s.enqueued, 0);
    case CompletionArrived(c) => ArrivalKeeps(s, c);
  }

  lemma {:induction false} ArrivalKeeps(s: State, c: Id)
    requires Inv(s) && c !in s.submitted
    ensures Inv(Next(s, CompletionArrived(c)))
  {
    hide Total;
    ReleaseKeepsOrder(s.released, [c], Outstanding(s));
    assert ReleaseAll([c], Outstanding(s)) == [Release(c, Outstanding(s))];
    assert Completions(s.released) + s.enqueued + [c] == Completions(s.released) + (s.enqueued + [c]);
  }

  lemma {:induction false} RunKeeps(s: State, es: seq<Event>)
    requires Inv(s) && Legal(s, es)
    ensures Inv(Run(s, es))
    decreases |es|
  {
    hide Inv, Enabled;
    if es != [] {
      NextKeeps(s, es[0]);
      RunKeeps(Next(s, es[0]), es[1..]);
    }
  }

  /** In every interleaving: the counter is the number of outstanding handler invocations and never
      negative; completions are enqueued only while it is positive; and every completion that arrived is
      either enqueued or was released, once, in order, at a moment when nothing was outstanding. */
  lemma {:induction false} EveryRun(es: seq<Event>)
    requires Legal(Init(), es)
    ensures Inv(Run(Init(), es))
  {
    RunKeeps(Init(), es);
  }

  /** When the last handler has run nothing is held back. */
  lemma {:induction false} QuiescentReleased(s: State)
    requires Inv(s) && s.batches == [] && s.handlers == multiset{}
    ensures Completions(s.released) == s.submitted
  {
    assert s.enqueued == [];
  }

  // ---------------------------------------------------------------- who gets which data

  /** All invocations that received data has caused, in order. */
  function Caused(s: State): seq<Invocation> {
    s.dispatched + Flatten(s.batches)
  }

  function Flatten(batches: seq<seq<Invocation>>): seq<Invocation> {
    if batches == [] then [] else batches[0] + Flatten(batches[1..])
  }

  /** The data of the invocations that belong to one stream. */
  function DataFor(stream: Id, invocations: seq<Invocation>): seq<nat> {
    if invocations == [] then []
    else (if invocations[0].stream == stream then [invocations[0].data] else []) + DataFor(stream, invocations[1..])
  }

  /** How often a stream has been added. */
  function Registrations(es: seq<Event>, stream: Id): nat {
    if es == [] then 0
    else Registrations(es[..|es| - 1], stream) + (if es[|es| - 1] == AddStream(stream) then 1 else 0)
  }

  function Repeat(data: nat, n: nat): seq<nat> {
    seq(n, _ => data)
  }

  /** The data that a stream is owed: each piece that was received while it was registered, in order, once
      for each registration. */
  function Owed(es: seq<Event>, stream: Id): seq<nat> {
    if es == [] then []
    else
      var before := es[..|es| - 1];
      Owed(before, stream) + (match es[|es| - 1]
                              case Receive(data) => Repeat(data, Registrations(before, stream))
                              case _ => [])
  }

  /** Occurrences of a stream among those registered. */
  function Occurrences(streams: seq<Id>, stream: Id): nat {
    if streams == [] then 0
    else Occurrences(streams[..|streams| - 1], stream) + (if streams[|streams| - 1] == stream then 1 else 0)
  }

  lemma {:induction false} Associative(a: seq<nat>, b: seq<nat>, c: seq<nat>)
    ensures a + b + c == a + (b + c)
  {
  }

  lemma {:induction false} DataForConcat(stream: Id, a: seq<Invocation>, b: seq<Invocation>)
    ensures DataFor(stream, a + b) == DataFor(stream, a) + DataFor(stream, b)
    decreases |a|
  {
    if a == [] {
      assert a + b == b;
    } else {
      var first := if a[0].stream == stream then [a[0].data] else [];
      DataForConcat(stream, a[1..], b);
      assert (a + b)[0] == a[0] && (a + b)[1..] == a[1..] + b;
      assert DataFor(stream, a) == first + DataFor(stream, a[1..]);
      Associative(first, DataFor(stream, a[1..]), DataFor(stream, b));
    }
  }

  lemma {:induction false} FlattenAppend(batches: seq<seq<Invocation>>, b: seq<Invocation>)
    ensures Flatten(batches + [b]) == Flatten(batches) + b
    decreases |batches|
  {
    if batches == [] {
      assert batches + [b] == [b] && [b][1..] == [];
    } else {
      assert (batches + [b])[1..] == batches[1..] + [b];
      FlattenAppend(batches[1..], b);
    }
  }

  lemma {:induction false} InvocationsFor(streams: seq<Id>, data: nat, stream: Id)
    ensures DataFor(stream, Invocations(streams, data)) == Repeat(data, Occurrences(streams, stream))
    decreases |streams|
  {
    if streams != [] {
      var n := |streams| - 1;
      var last := Invocation(streams[n], data);
      assert Invocations(streams, data) == Invocations(streams[..n], data) + [last];
      InvocationsFor(streams[..n], data, stream);
      DataForConcat(stream, Invocations(streams[..n], data), [last]);
      assert [last][1..] == [];
    }
  }

  lemma {:induction false} DispatchCauses(dispatched: seq<Invocation>, batches: seq<seq<Invocation>>)
    requires batches != []
    ensures dispatched + batches[0] + Flatten(batches[1..]) == dispatched + Flatten(batches)
  {
  }

  /** What an event adds to the invocations caused. */
  lemma {:induction false} NextCauses(s: State, e: Event)
    requires Enabled(s, e)
    ensures Caused(Next(s, e)) == Caused(s) + (if e.Receive? then Invocations(s.streams, e.data) else [])
    ensures Next(s, e).streams == s.streams + (if e.AddStream? then [e.stream] else [])
  {
    hide Flatten, Total, Invocations;
    if e.Receive? {
      FlattenAppend(s.batches, Invocations(s.streams, e.data));
    } else if e.DispatchBatch? {
      DispatchCauses(s.dispatched, s.batches);
    }
  }

  lemma {:induction false} LegalPrefix(s: State, es: seq<Event>)
    requires es != [] && Legal(s, es)
    ensures var n := |es| - 1;
            Legal(s, es[..n]) && Enabled(Run(s, es[..n]), es[n]) && Run(s, es) == Next(Run(s, es[..n]), es[n])
    decreases |es|
  {
    hide Enabled, Next;
    if |es| > 1 {
      LegalPrefix(Next(s, es[0]), es[1..]);
      assert es[..|es| - 1][1..] == es[1..][..|es| - 2];
    }
  }

  lemma {:induction false} RunRegisters(es: seq<Event>, stream: Id)
    requires Legal(Init(), es)
    ensures Occurrences(Run(Init(), es).streams, stream) == Registrations(es, stream)
    decreases |es|
  {
    hide Enabled, Next, Legal, Run, Occurrences, Caused;
    if es == [] {
      NothingCaused();
    } else {
      var n := |es| - 1;
      LegalPrefix(Init(), es);
      RunRegisters(es[..n], stream);
      var before := Run(Init(), es[..n]);
      NextCauses(before, es[n]);
      if es[n].AddStream? {
        OccurrencesAppend(before.streams, es[n].stream, stream);
      } else {
        assert before.streams + [] == before.streams;
      }
    }
  }

  lemma {:induction false} OccurrencesAppend(streams: seq<Id>, added: Id, stream: Id)
    ensures Occurrences(streams + [added], stream)
         == Occurrences(streams, stream) + (if added == stream then 1 else 0)
  {
    assert (streams + [added])[..|streams|] == streams;
  }

  /** Received data is owed once more to each stream that is registered, as often as it is. */
  lemma {:induction false} ReceiveCauses(s: State, data: nat)
    ensures forall stream ::
              DataFor(stream, Caused(Next(s, Receive(data))))
              == DataFor(stream, Caused(s)) + Repeat(data, Occurrences(s.streams, stream))
  {
    hide Caused, Occurrences, DataFor, Next;
    NextCauses(s, Receive(data));
    forall stream
      ensures DataFor(stream, Caused(Next(s, Receive(data))))
           == DataFor(stream, Caused(s)) + Repeat(data, Occurrences(s.streams, stream))
    {
      InvocationsFor(s.streams, data, stream);
      DataForConcat(stream, Caused(s), Invocations(s.streams, data));
    }
  }

  /** In every run, what is dispatched or about to be dispatched to a stream is exactly the data it is owed,
      in the order in which it was received. */
  lemma {:induction false} DataInOrder(es: seq<Event>, stream: Id)
    requires Legal(Init(), es)
    ensures DataFor(stream, Caused(Run(Init(), es))) == Owed(es, stream)
    decreases |es|
  {
    hide Enabled, Next, Legal, Caused, Occurrences, Registrations;
    if es == [] {
      assert Caused(Init()) == [] by { NothingCaused(); }
    } else {
      var n := |es| - 1;
      LegalPrefix(Init(), es);
      DataInOrder(es[..n], stream);
      var before := Run(Init(), es[..n]);
      NextCauses(before, es[n]);
      DataForConcat(stream, Caused(before),
                    if es[n].Receive? then Invocations(before.streams, es[n].data) else []);
      if es[n].Receive? {
        InvocationsFor(before.streams, es[n].data, stream);
        RunRegisters(es[..n], stream);
      }
    }
  }

  lemma {:induction false} NothingCaused()
    ensures Run(Init(), []) == Init() && Caused(Init()) == [] && forall stream :: Occurrences([], stream) == 0
  {
  }

  /** Every invocation that was dispatched is waiting for its handler or has run. */
  predicate HandlersInv(s: State) {
    s.handlers + multiset(s.ran) == multiset(s.dispatched)
  }

  lemma {:induction false} RunHandlers(s: State, es: seq<Event>)
    requires HandlersInv(s) && Legal(s, es)
    ensures HandlersInv(Run(s, es))
    decreases |es|
  {
    if es != [] { RunHandlers(Next(s, es[0]), es[1..]); }
  }

  lemma {:induction false} BagFor(stream: Id, data: nat, invocations: seq<Invocation>)
    ensures multiset(invocations)[Invocation(stream, data)] == multiset(DataFor(stream, invocations))[data]
    decreases |invocations|
  {
    if invocations != [] {
      assert invocations == [invocations[0]] + invocations[1..];
      BagFor(stream, data, invocations[1..]);
    }
  }

  /** In every run, a piece of data is with a stream exactly as often as it was received while the stream was
      registered: waiting in a batch, waiting for the handler, or handled. */
  lemma {:induction false} EachPieceOnce(es: seq<Event>, stream: Id, data: nat)
    requires Legal(Init(), es)
    ensures var s, i := Run(Init(), es), Invocation(stream, data);
            multiset(Flatten(s.batches))[i] + s.handlers[i] + multiset(s.ran)[i] == multiset(Owed(es, stream))[data]
  {
    hide Legal, Owed, DataFor, Flatten;
    var s, i := Run(Init(), es), Invocation(stream, data);
    RunHandlers(Init(), es);
    DataInOrder(es, stream);
    BagFor(stream, data, Caused(s));
    assert multiset(Caused(s)) == multiset(s.dispatched) + multiset(Flatten(s.batches));
    assert multiset(s.dispatched)[i] == s.handlers[i] + multiset(s.ran)[i];
  }

  /** When nothing is outstanding, every handler has run for exactly the data its stream is owed. */
  lemma {:induction false} QuiescentDelivered(es: seq<Event>, stream: Id, data: nat)
    requires Legal(Init(), es)
    requires Run(Init(), es).batches == [] && Run(Init(), es).handlers == multiset{}
    ensures multiset(Run(Init(), es).ran)[Invocation(stream, data)] == multiset(Owed(es, stream))[data]
  {
    hide Legal, Owed;
    EachPieceOnce(es, stream, data);
  }

  // ---------------------------------------------------------------- the object

  class DataStreamRequest {
    var streams: seq<Id>
    var numberOfExecutingStreams: int
    var enqueuedCompletionEvents: seq<Id>
    var batches: seq<seq<Invocation>>
    ghost var handlers: multiset<Invocation>
    ghost var submitted: seq<Id>
    ghost var released: seq<Release>
    ghost var dispatched: seq<Invocation>
    ghost var ran: seq<Invocation>

    ghost function Now(): State
      reads this
    {
      State(streams, numberOfExecutingStreams, enqueuedCompletionEvents, batches, handlers, submitted, released,
            dispatched, ran)
    }

    constructor ()
      ensures Now() == Init() && Inv(Now())
    {
      streams, numberOfExecutingStreams, enqueuedCompletionEvents, batches := [], 0, [], [];
      handlers, submitted, released, dispatched, ran := multiset{}, [], [], [], [];
    }

    method ResponseStream(stream: Id)
      requires Inv(Now())
      modifies this
      ensures Inv(Now()) && Now() == Next(old(Now()), AddStream(stream))
    {
      streams := streams + [stream];
    }

    method DidReceive(data: nat)
      requires Inv(Now())
      modifies this
      ensures Inv(Now()) && Now() == Next(old(Now()), Receive(data))
      ensures forall stream ::
                DataFor(stream, Caused(Now()))
                == DataFor(stream, Caused(old(Now()))) + Repeat(data, Occurrences(streams, stream))
    {
      NextKeeps(Now(), Receive(data));
      ReceiveCauses(Now(), data);
      numberOfExecutingStreams := numberOfExecutingStreams + |streams|;
      batches := batches + [Invocations(streams, data)];
    }

    method RunBatch()
      requires Inv(Now()) && batches != []
      modifies this
      ensures Inv(Now()) && Now() == Next(old(Now()), DispatchBatch)
    {
      NextKeeps(Now(), DispatchBatch);
      handlers, dispatched := handlers + multiset(batches[0]), dispatched + batches[0];
      batches := batches[1..];
    }

    /** A handler runs, followed by updateAndCompleteIfPossible. */
    method RunHandler(ghost invocation: Invocation)
      requires Inv(Now()) && invocation in handlers
      modifies this
      ensures Inv(Now()) && Now() == Next(old(Now()), HandlerRan(invocation))
    {
      hide Inv, Total, ReleaseAll;
      NextKeeps(Now(), HandlerRan(invocation));
      handlers, ran := handlers - multiset{invocation}, ran + [invocation];
      numberOfExecutingStreams := numberOfExecutingStreams - 1;
      if numberOfExecutingStreams == 0 && enqueuedCompletionEvents != [] {
        released := released + ReleaseAll(enqueuedCompletionEvents, Outstanding(Now()));
        enqueuedCompletionEvents := [];
      }
    }

    /** The completion closure of appendStreamCompletion. */
    method CompleteStream(completion: Id)
      requires Inv(Now()) && completion !in submitted
      modifies this
      ensures Inv(Now()) && Now() == Next(old(Now()), CompletionArrived(completion))
    {
      NextKeeps(Now(), CompletionArrived(completion));
      if numberOfExecutingStreams != 0 {
        enqueuedCompletionEvents := enqueuedCompletionEvents + [completion];
      } else {
        released := released + [Release(completion, Outstanding(Now()))];
      }
      submitted := submitted + [completion];
    }
  }
}
