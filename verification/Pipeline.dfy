/** Alamofire's Request: the response-serializer pipeline under retry and cancellation. Each locked
    section and each hop between queues is one step. */
module Pipeline {

  type Id = nat

  // ---------------------------------------------------------------- request state

  datatype RequestState = Initialized | Resumed | Suspended | Cancelled | Finished

  predicate CanTransition(from: RequestState, to: RequestState) {
    match (from, to)
    case (Initialized, _) => true
    case (_, Initialized) => false
    case (Cancelled, _) => false
    case (Finished, _) => false
    case (Resumed, Cancelled) => true
    case (Suspended, Cancelled) => true
    case (Resumed, Suspended) => true
    case (Suspended, Resumed) => true
    case (Suspended, Suspended) => false
    case (Resumed, Resumed) => false
    case (_, Finished) => true
  }

  function Transition(from: RequestState, to: RequestState): RequestState {
    if CanTransition(from, to) then to else from
  }

  // ---------------------------------------------------------------- the pipeline

  /** The completion of serializer `id`, recorded in attempt number `attempt`. */
  datatype Completion = Completion(id: Id, attempt: nat)

  /** The one thread of control that finish() starts: about to look for the next serializer; the
      serializer is on the serialization queue; its result is back; a retry that it asked for is under
      way; or no serializer was left and the completions are about to be taken. */
  datatype Token = Idle | Peeking | Scheduled(id: Id) | Parsed(id: Id) | RetryPending | Finalizing

  /** The current attempt of the request: running, waiting for a retry that its outcome asked for, or
      over. */
  datatype Attempt = Running | RetryRequested | Over

  datatype State = State(state: RequestState, serializers: seq<Id>, completions: seq<Completion>,
                         processingFinished: bool, isFinishing: bool,
                         token: Token, driver: Attempt, attempt: nat, cancelFinishes: nat,
                         appended: seq<Id>, called: seq<Completion>, dropped: seq<Id>)

  /** Append: response(...) adds a serializer. AttemptEnded: retryOrFinish of the attempt. Peek and
      Finalize: the two locked sections of processNextResponseSerializer. Serialized: the serializer ran.
      Completed: responseSerializerDidComplete. RetryAsked: a failed serializer is to be retried.
      RetryFires and SerializerRetryFires: the closure of retryRequest. */
  datatype Event = Append(id: Id) | Resume | Suspend | Cancel(finishes: bool)
                 | CancelFinish | AttemptEnded(retry: bool) | RetryFires
                 | Peek | Serialized | Completed | RetryAsked | SerializerRetryFires | Finalize

  /** Serializers are only appended before processing first finishes. */
  predicate Enabled(s: State, e: Event) {
    match e
    case Append(id) => !s.processingFinished && id !in s.appended
    case Resume => true
    case Suspend => true
    case Cancel(_) => true
    case CancelFinish => s.cancelFinishes > 0
    case AttemptEnded(_) => s.driver.Running?
    case RetryFires => s.driver.RetryRequested?
    case Peek => s.token.Peeking?
    case Serialized => s.token.Scheduled?
    case Completed => s.token.Parsed?
    case RetryAsked => s.token.Parsed?
    case SerializerRetryFires => s.token.RetryPending?
    case Finalize => s.token.Finalizing?
  }

  function Finish(s: State): State {
    if s.isFinishing then s else s.(isFinishing := true, token := Peeking)
  }

  /** prepareForRetry and the new attempt; the closure does nothing once the request is cancelled. */
  function Retry(s: State): State {
    if s.state.Cancelled? then s
    else s.(isFinishing := false, completions := [], attempt := s.attempt + 1, driver := Running)
  }

  function PeekNext(s: State): State {
    var index := |s.completions|;
    s.(token := if index < |s.serializers| then Scheduled(s.serializers[index]) else Finalizing)
  }

  /** All serializers and completions are cleared before the completions are called. */
  function FinalizeAll(s: State): State {
    s.(serializers := [], completions := [], state := Transition(s.state, Finished),
       processingFinished := true, isFinishing := false, token := Idle,
       called := s.called + s.completions,
       dropped := s.dropped + Unserved(s.serializers, s.completions))
  }

  /** Serializers without a completion. */
  function Unserved(serializers: seq<Id>, completions: seq<Completion>): seq<Id> {
    if |completions| <= |serializers| then serializers[|completions|..] else []
  }

  function Next(s: State, e: Event): State
    requires Enabled(s, e)
  {
    match e
    case Append(id) => s.(serializers := s.serializers + [id], appended := s.appended + [id],
                          state := if s.state.Finished? then Resumed else s.state)
    case Resume => s.(state := Transition(s.state, Resumed))
    case Suspend => s.(state := Transition(s.state, Suspended))
    case Cancel(finishes) =>
      if !CanTransition(s.state, Cancelled) then s
      else s.(state := Cancelled, cancelFinishes := s.cancelFinishes + (if finishes then 1 else 0))
    case CancelFinish => Finish(s.(cancelFinishes := s.cancelFinishes - 1))
    case AttemptEnded(retry) => if retry then s.(driver := RetryRequested) else Finish(s.(driver := Over))
    case RetryFires => Retry(s.(driver := Over))
    case Peek => PeekNext(s)
    case Serialized => s.(token := Parsed(s.token.id))
    case Completed => s.(completions := s.completions + [Completion(s.token.id, s.attempt)], token := Peeking)
    case RetryAsked => s.(token := RetryPending)
    case SerializerRetryFires => Retry(s.(token := Idle))
    case Finalize => FinalizeAll(s)
  }

  function Init(): State {
    State(Initialized, [], [], false, false, Idle, Running, 0, 0, [], [], [])
  }

  predicate Legal(s: State, es: seq<Event>)
    decreases |es|
  {
    es == [] || (Enabled(s, es[0]) && Legal(Next(s, es[0]), es[1..]))
  }

  function Run(s: State, es: seq<Event>): State
    requires Legal(s, es)
    decreases |es|
  {
    if es == [] then s else Run(Next(s, es[0]), es[1..])
  }

  // ---------------------------------------------------------------- the invariant

  predicate Distinct(ids: seq<Id>) {
    forall i, j :: 0 <= i < j < |ids| ==> ids[i] != ids[j]
  }

  /** `cs` are the completions of the first |cs| of `ids`, in order, all of one attempt. */
  predicate Matches(cs: seq<Completion>, ids: seq<Id>, attempt: nat) {
    |cs| <= |ids| && forall i :: 0 <= i < |cs| ==> cs[i] == Completion(ids[i], attempt)
  }

  /** Only one thread of control, and only while isFinishing; before cancellation not at the same time as
      an attempt. */
  predicate ControlInv(s: State) {
    && (!s.isFinishing ==> s.token.Idle? && s.completions == [])
    && (!s.state.Cancelled? && s.isFinishing ==> s.driver.Over? && !s.token.Idle?)
    && (!s.state.Cancelled? && s.processingFinished ==> s.driver.Over?)
    && (!s.state.Cancelled? && s.driver.Over? ==> s.isFinishing || s.processingFinished)
    && (s.cancelFinishes > 0 ==> s.state.Cancelled?)
    && (s.token.RetryPending? ==> !s.processingFinished)
  }

  /** Completions belong to the serializers in append order and to the current attempt; the history adds
      up. */
  predicate HistoryInv(s: State) {
    && Distinct(s.appended)
    && Matches(s.completions, s.serializers, s.attempt)
    && (s.token.Scheduled? || s.token.Parsed? ==>
          |s.completions| < |s.serializers| && s.token.id == s.serializers[|s.completions|])
    && (if s.processingFinished then
          && s.serializers == [] && Matches(s.called, s.appended, s.attempt)
          && s.dropped == s.appended[|s.called|..]
        else s.appended == s.serializers && s.called == [] && s.dropped == [])
  }

  predicate Inv(s: State) {
    ControlInv(s) && HistoryInv(s)
  }

  lemma {:induction false} NextControl(s: State, e: Event)
    requires Inv(s) && Enabled(s, e)
    ensures ControlInv(Next(s, e))
  {
    hide Distinct, Matches;
  }

  lemma {:induction false} NextHistory(s: State, e: Event)
    requires Inv(s) && Enabled(s, e)
    ensures HistoryInv(Next(s, e))
  {
    match e
    case Append(id) =>
    case Finalize =>
      if s.processingFinished {
        assert s.called + s.completions == s.called;
        assert s.dropped + [] == s.dropped;
      } else {
        assert s.called + s.completions == s.completions;
        assert [] + s.serializers[|s.completions|..] == s.serializers[|s.completions|..];
      }
    case _ =>
  }

  lemma {:induction false} RunKeeps(s: State, es: seq<Event>)
    requires Inv(s) && Legal(s, es)
    ensures Inv(Run(s, es))
    decreases |es|
  {
    hide ControlInv, HistoryInv, Enabled;
    if es != [] {
      NextControl(s, es[0]);
      NextHistory(s, es[0]);
      RunKeeps(Next(s, es[0]), es[1..]);
    }
  }

  // ---------------------------------------------------------------- theorems over runs

  /** In every run, the handlers called are those of the first serializers in append order, each once,
      all completed in one and the same attempt, the current one; the others that were appended are
      dropped and never called. Nothing is called before processing finishes. */
  lemma {:induction false} EveryRun(es: seq<Event>)
    requires Legal(Init(), es)
    ensures var s := Run(Init(), es);
            && Distinct(s.appended) && Matches(s.called, s.appended, s.attempt)
            && (s.processingFinished ==> s.dropped == s.appended[|s.called|..])
            && (!s.processingFinished ==> s.called == [])
  {
    RunKeeps(Init(), es);
  }

  /** No serializer is appended between the two locked sections of processNextResponseSerializer. */
  predicate NoLateAppend(s: State, es: seq<Event>)
    requires Legal(s, es)
    decreases |es|
  {
    es == [] || (!(es[0].Append? && s.token.Finalizing?) && NoLateAppend(Next(s, es[0]), es[1..]))
  }

  /** Nothing is dropped, and completions about to be taken are complete. */
  predicate NothingDropped(s: State) {
    s.dropped == [] && (s.token.Finalizing? ==> |s.completions| == |s.serializers|)
  }

  lemma {:induction false} RunDropsNothing(s: State, es: seq<Event>)
    requires Inv(s) && Legal(s, es) && NoLateAppend(s, es) && NothingDropped(s)
    ensures NothingDropped(Run(s, es))
    decreases |es|
  {
    hide HistoryInv, ControlInv;
    if es != [] {
      NextControl(s, es[0]);
      NextHistory(s, es[0]);
      assert NothingDropped(Next(s, es[0])) by { PeekIsComplete(s, es[0]); }
      RunDropsNothing(Next(s, es[0]), es[1..]);
    }
  }

  lemma {:induction false} PeekIsComplete(s: State, e: Event)
    requires Inv(s) && Enabled(s, e) && NothingDropped(s) && !(e.Append? && s.token.Finalizing?)
    ensures NothingDropped(Next(s, e))
  {
    hide Distinct;
    if e.Finalize? {
      assert s.serializers[|s.completions|..] == [];
    }
  }

  /** A serializer was appended too late: its handler is lost already, or will be when the completions
      are taken. */
  predicate Doomed(s: State) {
    if s.processingFinished then s.dropped != []
    else s.token.Finalizing? && |s.completions| < |s.serializers|
  }

  lemma {:induction false} NextDoomed(s: State, e: Event)
    requires Inv(s) && Enabled(s, e) && Doomed(s)
    ensures Doomed(Next(s, e))
  {
    hide Distinct;
  }

  lemma {:induction false} DoomedForever(s: State, es: seq<Event>)
    requires Inv(s) && Legal(s, es) && Doomed(s)
    ensures Doomed(Run(s, es))
    decreases |es|
  {
    hide Inv, Enabled, Doomed;
    if es != [] {
      NextInv(s, es[0]);
      NextDoomed(s, es[0]);
      DoomedForever(Next(s, es[0]), es[1..]);
    }
  }

  lemma {:induction false} LateAppendDooms(s: State, es: seq<Event>)
    requires Inv(s) && Legal(s, es) && !NoLateAppend(s, es)
    ensures Doomed(Run(s, es))
    decreases |es|
  {
    hide ControlInv, HistoryInv;
    NextInv(s, es[0]);
    if es[0].Append? && s.token.Finalizing? {
      assert |s.completions| <= |s.serializers| by { Ordered(s); }
      DoomedForever(Next(s, es[0]), es[1..]);
    } else {
      LateAppendDooms(Next(s, es[0]), es[1..]);
    }
  }

  lemma {:induction false} Ordered(s: State)
    requires Inv(s)
    ensures |s.completions| <= |s.serializers|
  {
  }

  /** Once processing has finished, every handler that was appended has been called, with completions of
      the current attempt, exactly when no serializer was appended in that window. */
  lemma {:induction false} AllOrNothing(es: seq<Event>)
    requires Legal(Init(), es)
    ensures var s := Run(Init(), es);
            s.processingFinished ==>
              && Matches(s.called, s.appended, s.attempt)
              && (|s.called| == |s.appended| <==> NoLateAppend(Init(), es))
  {
    RunKeeps(Init(), es);
    if NoLateAppend(Init(), es) { RunDropsNothing(Init(), es); } else { LateAppendDooms(Init(), es); }
  }

  /** Once processing has finished, no handler is called any more. */
  lemma {:induction false} FinishedIsFinal(s: State, es: seq<Event>)
    requires Inv(s) && Legal(s, es) && s.processingFinished
    ensures Run(s, es).called == s.called && Run(s, es).appended == s.appended && Run(s, es).processingFinished
    decreases |es|
  {
    if es != [] {
      NextControl(s, es[0]);
      NextHistory(s, es[0]);
      assert s.called + s.completions == s.called;
      FinishedIsFinal(Next(s, es[0]), es[1..]);
    }
  }

  /** One serializer was appended and has just run, in the first attempt. */
  const ONE_PARSED: State := State(Initialized, [1], [], false, true, Parsed(1), Over, 0, 0, [1], [], [])

  const UP_TO_PARSED: seq<Event> := [Append(1), AttemptEnded(false), Peek, Serialized]

  lemma {:induction false} ReachParsed(es: seq<Event>)
    requires Legal(ONE_PARSED, es)
    ensures Legal(Init(), UP_TO_PARSED + es) && Run(Init(), UP_TO_PARSED + es) == Run(ONE_PARSED, es)
  {
    var s1 := Next(Init(), Append(1));
    var s2 := Next(s1, AttemptEnded(false));
    var s3 := Next(s2, Peek);
    assert Next(s3, Serialized) == ONE_PARSED;
    RunOf(s3, Serialized, es);
    RunOf(s2, Peek, [Serialized] + es);
    RunOf(s1, AttemptEnded(false), [Peek] + ([Serialized] + es));
    RunOf(Init(), Append(1), [AttemptEnded(false)] + ([Peek] + ([Serialized] + es)));
    assert UP_TO_PARSED + es == [Append(1)] + ([AttemptEnded(false)] + ([Peek] + ([Serialized] + es)));
  }

  /** The race is real: a serializer appended in that window is dropped while the handler of an earlier
      one is called. */
  lemma {:induction false} LateAppendIsDropped()
    ensures var es := UP_TO_PARSED + ([Completed] + ([Peek] + ([Append(2)] + ([Finalize] + []))));
            && Legal(Init(), es)
            && Run(Init(), es).called == [Completion(1, 0)] && Run(Init(), es).dropped == [2]
  {
    var s5 := Next(ONE_PARSED, Completed);
    var s6 := Next(s5, Peek);
    var s7 := Next(s6, Append(2));
    RunOf(s7, Finalize, []);
    RunOf(s6, Append(2), [Finalize] + []);
    RunOf(s5, Peek, [Append(2)] + ([Finalize] + []));
    RunOf(ONE_PARSED, Completed, [Peek] + ([Append(2)] + ([Finalize] + [])));
    ReachParsed([Completed] + ([Peek] + ([Append(2)] + ([Finalize] + []))));
    assert s7.serializers[1..] == [2];
  }

  lemma {:induction false} RunOf(s: State, e: Event, es: seq<Event>)
    requires Enabled(s, e) && Legal(Next(s, e), es)
    ensures Legal(s, [e] + es) && Run(s, [e] + es) == Run(Next(s, e), es)
  {
    assert ([e] + es)[1..] == es;
  }

  // ---------------------------------------------------------------- the state of the request

  /** Some step of the run is a cancellation before processing has finished. */
  predicate CancelledIn(s: State, es: seq<Event>)
    requires Legal(s, es)
    decreases |es|
  {
    es != [] && ((es[0].Cancel? && !s.processingFinished) || CancelledIn(Next(s, es[0]), es[1..]))
  }

  /** What the last call of resume or suspend asked for. */
  function LastControl(before: RequestState, es: seq<Event>): RequestState
    decreases |es|
  {
    if es == [] then before
    else LastControl(if es[0].Resume? then Resumed else if es[0].Suspend? then Suspended else before, es[1..])
  }

  /** The number of retries in the run whose closure did not find the request cancelled. */
  function Retries(s: State, es: seq<Event>): nat
    requires Legal(s, es)
    decreases |es|
  {
    if es == [] then 0
    else
      (if (es[0].RetryFires? || es[0].SerializerRetryFires?) && !s.state.Cancelled? then 1 else 0)
      + Retries(Next(s, es[0]), es[1..])
  }

  lemma {:induction false} StateRun(s: State, es: seq<Event>)
    requires Legal(s, es) && (s.state.Finished? <==> s.processingFinished && !s.state.Cancelled?)
    ensures var s' := Run(s, es);
            && s'.attempt == s.attempt + Retries(s, es)
            && s'.state == (if s.state.Cancelled? || CancelledIn(s, es) then Cancelled
                            else if s'.processingFinished then Finished
                            else LastControl(s.state, es))
            && (s.processingFinished ==> s'.processingFinished)
    decreases |es|
  {
    if es != [] { StateRun(Next(s, es[0]), es[1..]); }
  }

  /** In every run, the request is cancelled exactly if it was cancelled before processing finished, else
      finished exactly if processing has, and otherwise as the last resume or suspend left it; and its
      attempt number is that of the retries granted. */
  lemma {:induction false} StateExactly(es: seq<Event>)
    requires Legal(Init(), es)
    ensures var s := Run(Init(), es);
            && s.state == (if CancelledIn(Init(), es) then Cancelled
                           else if s.processingFinished then Finished
                           else LastControl(Initialized, es))
            && s.attempt == Retries(Init(), es)
  {
    StateRun(Init(), es);
  }

  // ---------------------------------------------------------------- cancellation

  /** `cancelled` is absorbing. */
  lemma {:induction false} CancelledForever(s: State, es: seq<Event>)
    requires s.state.Cancelled? && Legal(s, es)
    ensures Run(s, es).state.Cancelled?
    decreases |es|
  {
    if es != [] { CancelledForever(Next(s, es[0]), es[1..]); }
  }

  /** Nothing is left that could make the request finish: the thread of control is gone although
      isFinishing is set, or it never started, the attempt is over and no finish() is on its way. */
  predicate Lost(s: State) {
    && !s.processingFinished && s.token.Idle?
    && (s.isFinishing || (s.driver.Over? && s.cancelFinishes == 0))
  }

  /** The closure of a retry finds the request cancelled and returns: one that a serializer asked for, or
      one that the attempt asked for when nothing else would finish the request. */
  predicate Loses(s: State, e: Event) {
    && s.state.Cancelled? && !s.processingFinished
    && (e.SerializerRetryFires? || (e.RetryFires? && s.token.Idle? && s.cancelFinishes == 0))
  }

  /** Control is lost in exactly these two ways. */
  lemma {:induction false} LostOnlyByCancelledRetry(s: State, e: Event)
    requires Inv(s) && Enabled(s, e)
    ensures Lost(s) ==> Lost(Next(s, e)) && Next(s, e).called == []
    ensures !Lost(s) ==> (Lost(Next(s, e)) <==> Loses(s, e))
  {
    hide Distinct, Matches;
  }

  /** Some step of the run is `Loses`. */
  predicate LosesIn(s: State, es: seq<Event>)
    requires Legal(s, es)
    decreases |es|
  {
    es != [] && (Loses(s, es[0]) || LosesIn(Next(s, es[0]), es[1..]))
  }

  lemma {:induction false} LostRun(s: State, es: seq<Event>)
    requires Inv(s) && Legal(s, es)
    ensures Lost(Run(s, es)) <==> Lost(s) || LosesIn(s, es)
    ensures Lost(s) ==> Run(s, es).called == []
    decreases |es|
  {
    hide ControlInv, HistoryInv, Enabled, Lost, Loses;
    if es != [] {
      NextInv(s, es[0]);
      LostOnlyByCancelledRetry(s, es[0]);
      LostRun(Next(s, es[0]), es[1..]);
    } else {
      NothingCalledYet(s);
    }
  }

  lemma {:induction false} NothingCalledYet(s: State)
    requires Inv(s)
    ensures !s.processingFinished ==> s.called == []
    ensures Lost(s) ==> s.called == []
  {
  }

  /** In every run, control is lost exactly when one of these steps occurred. */
  lemma {:induction false} LostExactly(es: seq<Event>)
    requires Legal(Init(), es)
    ensures Lost(Run(Init(), es)) <==> LosesIn(Init(), es)
  {
    LostRun(Init(), es);
  }

  // ---------------------------------------------------------------- requests that can still finish

  /** The request is cancelled, and all that is left is a retry whose closure will return at once. */
  predicate Hopeless(s: State) {
    && s.state.Cancelled? && !s.processingFinished
    && (if s.isFinishing then s.token.Idle? || s.token.RetryPending?
        else s.cancelFinishes == 0 && !s.driver.Running?)
  }

  /** A cancellation meets a retry: the retry is granted to a cancelled request, or the request is
      cancelled while the retry is pending, and no finish() is on its way. */
  predicate Dooms(s: State, e: Event) {
    && !s.processingFinished
    && match e
       case RetryAsked => s.state.Cancelled?
       case AttemptEnded(retry) => retry && s.state.Cancelled? && !s.isFinishing && s.cancelFinishes == 0
       case Cancel(finishes) =>
         && CanTransition(s.state, Cancelled)
         && (s.token.RetryPending? || (s.driver.RetryRequested? && !finishes))
       case _ => false
  }

  lemma {:induction false} HopelessStep(s: State, e: Event)
    requires Inv(s) && Enabled(s, e)
    ensures Hopeless(s) ==> Hopeless(Next(s, e))
    ensures !Hopeless(s) ==> (Hopeless(Next(s, e)) <==> Dooms(s, e))
  {
    hide Distinct, Matches;
  }

  lemma {:induction false} HopelessForever(s: State, es: seq<Event>)
    requires Inv(s) && Legal(s, es) && Hopeless(s)
    ensures Hopeless(Run(s, es)) && Run(s, es).called == []
    decreases |es|
  {
    hide ControlInv, HistoryInv, Enabled;
    if es != [] {
      NextInv(s, es[0]);
      HopelessStep(s, es[0]);
      HopelessForever(Next(s, es[0]), es[1..]);
    } else {
      NothingCalledYet(s);
    }
  }

  /** The steps that remain once the thread of control is on its way. */
  function Rank(t: Token): nat {
    match t
    case Peeking => 3
    case Scheduled(_) => 2
    case Parsed(_) => 1
    case _ => 0
  }

  lemma {:induction false} Drain(s: State) returns (es: seq<Event>)
    requires Inv(s) && !s.processingFinished && !s.token.Idle? && !s.token.RetryPending?
    ensures Legal(s, es) && Run(s, es).processingFinished
    decreases |s.serializers| - |s.completions|, Rank(s.token)
  {
    var e := if s.token.Peeking? then Peek else if s.token.Scheduled? then Serialized
             else if s.token.Parsed? then Completed else Finalize;
    NextInv(s, e);
    if e.Finalize? {
      RunOf(s, e, []);
      es := [e] + [];
    } else {
      Ordered(Next(s, e));
      es := Drain(Next(s, e));
      RunOf(s, e, es);
      es := [e] + es;
    }
  }

  lemma {:induction false} WayOut(s: State) returns (es: seq<Event>)
    requires Inv(s) && !s.processingFinished && !Hopeless(s)
    ensures Legal(s, es) && Run(s, es).processingFinished
    decreases if s.token.RetryPending? || s.driver.RetryRequested? then 1 else 0
  {
    hide Distinct, Matches;
    if !s.token.Idle? && !s.token.RetryPending? {
      es := Drain(s);
    } else {
      var e := if s.token.RetryPending? then SerializerRetryFires
               else if s.cancelFinishes > 0 then CancelFinish
               else if s.driver.Running? then AttemptEnded(false)
               else RetryFires;
      NextInv(s, e);
      if e.CancelFinish? || e.AttemptEnded? { es := Drain(Next(s, e)); } else { es := WayOut(Next(s, e)); }
      RunOf(s, e, es);
      es := [e] + es;
    }
  }

  /** Before processing has finished, a request is hopeless exactly when no continuation finishes it. */
  lemma {:induction false} HopelessExactly(s: State)
    requires Inv(s) && !s.processingFinished
    ensures Hopeless(s) <==> forall es | Legal(s, es) :: !Run(s, es).processingFinished
  {
    if Hopeless(s) {
      forall es | Legal(s, es) ensures !Run(s, es).processingFinished { HopelessForever(s, es); }
    } else {
      var es := WayOut(s);
    }
  }

  /** Some step of the run is `Dooms`. */
  predicate DoomsIn(s: State, es: seq<Event>)
    requires Legal(s, es)
    decreases |es|
  {
    es != [] && (Dooms(s, es[0]) || DoomsIn(Next(s, es[0]), es[1..]))
  }

  lemma {:induction false} HopelessRun(s: State, es: seq<Event>)
    requires Inv(s) && Legal(s, es)
    ensures Hopeless(Run(s, es)) <==> Hopeless(s) || DoomsIn(s, es)
    decreases |es|
  {
    hide ControlInv, HistoryInv, Enabled, Hopeless, Dooms;
    if es != [] {
      NextInv(s, es[0]);
      HopelessStep(s, es[0]);
      HopelessRun(Next(s, es[0]), es[1..]);
    }
  }

  /** In every run, the request can still finish, or has, exactly when no cancellation met a retry. */
  lemma {:induction false} CancellationMeetsRetry(es: seq<Event>)
    requires Legal(Init(), es)
    ensures var s := Run(Init(), es);
            DoomsIn(Init(), es) <==>
              !s.processingFinished && forall more | Legal(s, more) :: !Run(s, more).processingFinished
  {
    var s := Run(Init(), es);
    RunKeeps(Init(), es);
    HopelessRun(Init(), es);
    if !s.processingFinished { HopelessExactly(s); }
  }

  // ---------------------------------------------------------------- runs that lose their handlers

  /** Cancelling while a serializer's retry is pending loses the thread of control: the handler that was
      appended is never called, in any continuation. */
  lemma {:induction false} CancelledRetryLosesHandler(es: seq<Event>)
    requires Legal(Next(Next(Next(ONE_PARSED, RetryAsked), Cancel(true)), SerializerRetryFires), es)
    ensures var run := UP_TO_PARSED + ([RetryAsked] + ([Cancel(true)] + ([SerializerRetryFires] + es)));
            && Legal(Init(), run) && 1 in Run(Init(), run).appended && Run(Init(), run).called == []
  {
    var s5 := Next(ONE_PARSED, RetryAsked);
    var s6 := Next(s5, Cancel(true));
    var s7 := Next(s6, SerializerRetryFires);
    assert Lost(s7) && s7.appended == [1] && s7.called == [];
    LostRun(s7, es);
    AppendedGrows(s7, es);
    assert Run(s7, es).appended[0] == 1;
    RunOf(s6, SerializerRetryFires, es);
    RunOf(s5, Cancel(true), [SerializerRetryFires] + es);
    RunOf(ONE_PARSED, RetryAsked, [Cancel(true)] + ([SerializerRetryFires] + es));
    ReachParsed([RetryAsked] + ([Cancel(true)] + ([SerializerRetryFires] + es)));
  }

  /** So does cancelling a live task whose failure the retrier then wants retried: the attempt's retry
      returns at once and nothing calls finish(). */
  lemma {:induction false} CancelledAttemptLosesHandler(es: seq<Event>)
    requires Legal(Next(Next(Next(Next(Init(), Append(1)), Cancel(false)), AttemptEnded(true)), RetryFires), es)
    ensures var run := [Append(1)] + ([Cancel(false)] + ([AttemptEnded(true)] + ([RetryFires] + es)));
            && Legal(Init(), run) && 1 in Run(Init(), run).appended && Run(Init(), run).called == []
  {
    var s1 := Next(Init(), Append(1));
    var s2 := Next(s1, Cancel(false));
    var s3 := Next(s2, AttemptEnded(true));
    var s4 := Next(s3, RetryFires);
    assert Lost(s4) && s4.appended == [1] && s4.called == [];
    LostRun(s4, es);
    AppendedGrows(s4, es);
    assert Run(s4, es).appended[0] == 1;
    RunOf(s3, RetryFires, es);
    RunOf(s2, AttemptEnded(true), [RetryFires] + es);
    RunOf(s1, Cancel(false), [AttemptEnded(true)] + ([RetryFires] + es));
    RunOf(Init(), Append(1), [Cancel(false)] + ([AttemptEnded(true)] + ([RetryFires] + es)));
  }

  lemma {:induction false} AppendedGrows(s: State, es: seq<Event>)
    requires Legal(s, es)
    ensures s.appended <= Run(s, es).appended
    decreases |es|
  {
    if es != [] { AppendedGrows(Next(s, es[0]), es[1..]); }
  }

  // ---------------------------------------------------------------- the object

  class Request {
    var state: RequestState
    var responseSerializers: seq<Id>
    var responseSerializerCompletions: seq<Completion>
    var responseSerializerProcessingFinished: bool
    var isFinishing: bool
    var retryCount: nat
    ghost var token: Token
    ghost var driver: Attempt
    ghost var cancelFinishes: nat
    ghost var appended: seq<Id>
    ghost var called: seq<Completion>
    ghost var dropped: seq<Id>

    ghost function Now(): State
      reads this
    {
      State(state, responseSerializers, responseSerializerCompletions, responseSerializerProcessingFinished,
            isFinishing, token, driver, retryCount, cancelFinishes, appended, called, dropped)
    }

    constructor ()
      ensures Now() == Init() && Inv(Now())
    {
      state, responseSerializers, responseSerializerCompletions := Initialized, [], [];
      responseSerializerProcessingFinished, isFinishing, retryCount := false, false, 0;
      token, driver, cancelFinishes := Idle, Running, 0;
      appended, called, dropped := [], [], [];
    }

    /** finish: only the first call starts the serializers. */
    method FinishOnce()
      modifies this
      ensures isFinishing && Now() == Finish(old(Now()))
    {
      if isFinishing { return; }
      isFinishing := true;
      token := Peeking;
    }

    /** The finish() that cancel dispatched. */
    method FinishAfterCancel()
      requires Inv(Now()) && Enabled(Now(), CancelFinish)
      modifies this
      ensures Inv(Now()) && Now() == Next(old(Now()), CancelFinish)
      ensures !Lost(old(Now())) ==> !Lost(Now())
    {
      hide Inv, Finish;
      NextInv(Now(), CancelFinish);
      LostOnlyByCancelledRetry(Now(), CancelFinish);
      cancelFinishes := cancelFinishes - 1;
      FinishOnce();
    }

    /** retryOrFinish, once the retrier has answered. */
    method RetryOrFinish(retry: bool)
      requires Inv(Now()) && Enabled(Now(), AttemptEnded(retry))
      modifies this
      ensures Inv(Now()) && Now() == Next(old(Now()), AttemptEnded(retry))
      ensures !Lost(old(Now())) ==> !Lost(Now())
    {
      hide Inv, Finish;
      NextInv(Now(), AttemptEnded(retry));
      LostOnlyByCancelledRetry(Now(), AttemptEnded(retry));
      if retry {
        driver := RetryRequested;
      } else {
        driver := Over;
        FinishOnce();
      }
    }

    /** appendResponseSerializer. */
    method AppendResponseSerializer(id: Id)
      requires Inv(Now()) && Enabled(Now(), Append(id))
      modifies this
      ensures Inv(Now()) && Now() == Next(old(Now()), Append(id))
    {
      hide Inv;
      NextInv(Now(), Append(id));
      responseSerializers := responseSerializers + [id];
      appended := appended + [id];
      if state.Finished? { state := Resumed; }
    }

    /** nextResponseSerializer: the serializer after as many as there are completions. */
    method NextResponseSerializer() returns (next: seq<Id>)
      requires Inv(Now()) && Enabled(Now(), Peek)
      modifies this
      ensures Inv(Now()) && Now() == Next(old(Now()), Peek)
      ensures next == if token.Scheduled? then [token.id] else []
    {
      hide Inv;
      NextInv(Now(), Peek);
      var index := |responseSerializerCompletions|;
      if index < |responseSerializers| {
        next := [responseSerializers[index]];
        token := Scheduled(responseSerializers[index]);
      } else {
        next := [];
        token := Finalizing;
      }
    }

    /** The branch of processNextResponseSerializer without a next serializer. */
    method TakeCompletions() returns (completions: seq<Completion>)
      requires Inv(Now()) && Enabled(Now(), Finalize)
      modifies this
      ensures Inv(Now()) && Now() == Next(old(Now()), Finalize)
      ensures called == old(called) + completions
    {
      hide Inv, CanTransition, Unserved, Next;
      ghost var before := Now();
      NextInv(before, Finalize);
      FinalizeStep(before);
      completions := responseSerializerCompletions;
      responseSerializers, responseSerializerCompletions := [], [];
      state := if CanTransition(state, Finished) then Finished else state;
      responseSerializerProcessingFinished, isFinishing := true, false;
      RecordCalls(before);
    }

    /** The history after the completions have been taken from `before`. */
    ghost method RecordCalls(before: State)
      modifies this`called, this`dropped, this`token
      ensures Now() == old(Now()).(called := FinalizeAll(before).called, dropped := FinalizeAll(before).dropped,
                                   token := Idle)
    {
      called, dropped, token := FinalizeAll(before).called, FinalizeAll(before).dropped, Idle;
    }

    method ResponseSerializerDidComplete()
      requires Inv(Now()) && Enabled(Now(), Completed)
      modifies this
      ensures Inv(Now()) && Now() == Next(old(Now()), Completed)
    {
      hide Inv;
      NextInv(Now(), Completed);
      ghost var id := token.id;
      // the completion is that of the serializer in turn
      var index := |responseSerializerCompletions|;
      assert index < |responseSerializers| && id == responseSerializers[index] by { InTurn(Now()); }
      responseSerializerCompletions := responseSerializerCompletions
        + [Completion(responseSerializers[index], retryCount)];
      token := Peeking;
    }

    /** The closure of retryRequest for a retry that a serializer asked for. */
    method RetryAfterSerializer()
      requires Inv(Now()) && Enabled(Now(), SerializerRetryFires)
      modifies this
      ensures Inv(Now()) && Now() == Next(old(Now()), SerializerRetryFires)
    {
      hide Inv;
      NextInv(Now(), SerializerRetryFires);
      token := Idle;
      if !state.Cancelled? {
        isFinishing, responseSerializerCompletions, retryCount := false, [], retryCount + 1;
        driver := Running;
      }
    }

    /** cancel; `taskCompleted` is whether there is no live task to cancel. */
    method CancelRequest(taskCompleted: bool)
      requires Inv(Now())
      modifies this
      ensures Inv(Now()) && Now() == Next(old(Now()), Cancel(taskCompleted))
    {
      hide Inv;
      NextInv(Now(), Cancel(taskCompleted));
      if !CanTransition(state, Cancelled) { return; }
      state := Cancelled;
      if taskCompleted { cancelFinishes := cancelFinishes + 1; }
    }
  }

  lemma {:induction false} NextInv(s: State, e: Event)
    requires Inv(s) && Enabled(s, e)
    ensures Inv(Next(s, e))
  {
    NextControl(s, e);
    NextHistory(s, e);
  }

  lemma {:induction false} FinalizeStep(s: State)
    requires s.token.Finalizing?
    ensures Next(s, Finalize) == FinalizeAll(s)
    ensures FinalizeAll(s).called == s.called + s.completions
    ensures FinalizeAll(s).dropped == s.dropped + Unserved(s.serializers, s.completions)
  {
  }

  lemma {:induction false} InTurn(s: State)
    requires Inv(s) && s.token.Parsed?
    ensures |s.completions| < |s.serializers| && s.token.id == s.serializers[|s.completions|]
  {
  }
}
