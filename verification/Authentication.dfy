/** Alamofire's AuthenticationInterceptor: adapt and retry callbacks that are deferred while a credential
    refresh is in flight, and the sliding-window limit on refreshes. Every critical section of the lock
    is one step; the interceptor's serial queue is part of the state. */
module Authentication {
  import opened Options

  type Id = nat
  type Credential = nat

  datatype RefreshWindow = RefreshWindow(interval: real, maximumAttempts: int)

  /** Work on the interceptor's serial queue: a call of authenticator.refresh, or the callbacks that a
      finished refresh releases. */
  datatype Job = RefreshJob
               | SuccessBatch(adapts: seq<Id>, retries: seq<Id>)
               | FailureBatch(adapts: seq<Id>, retries: seq<Id>)

  /** What an adapt callback is given: a request with the credential, along with what was the case when it was
      given, the error of a missing credential, or that of a failed or refused refresh. */
  datatype AdaptAnswer = Adapted(credential: Credential, requiresRefresh: bool, inFlight: nat)
                       | MissingCredential
                       | RefreshFailed

  /** What a retry callback is given: to retry, not to, or whatever one of the guards answers. */
  datatype RetryAnswer = Granted | Refused | Guarded

  /** MutableState, the queue, the refreshes the authenticator is working on, and the history of calls
      made and callbacks invoked. */
  datatype State = State(
    credential: Option<Credential>,
    isRefreshing: bool,
    refreshTimestamps: seq<real>,
    refreshWindow: Option<RefreshWindow>,
    adaptOperations: seq<Id>,
    requestsToRetry: seq<Id>,
    queue: seq<Job>,
    running: nat,
    clock: real,
    adaptsSubmitted: seq<Id>, adaptsCalled: seq<Id>,
    retriesSubmitted: seq<Id>, retriesCalled: seq<Id>,
    adaptAnswers: seq<AdaptAnswer>, retryAnswers: seq<RetryAnswer>)

  // ---------------------------------------------------------------- critical sections

  function CountSince(ts: seq<real>, min: real): nat {
    if ts == [] then 0
    else CountSince(ts[..|ts| - 1], min) + (if min <= ts[|ts| - 1] then 1 else 0)
  }

  /** isRefreshExcessive at uptime `now`. */
  predicate Excessive(s: State, now: real) {
    match s.refreshWindow
    case None => false
    case Some(w) => CountSince(s.refreshTimestamps, now - w.interval) >= w.maximumAttempts
  }

  function CallAdapt(s: State, id: Id, answer: AdaptAnswer): State {
    s.(adaptsCalled := s.adaptsCalled + [id], adaptAnswers := s.adaptAnswers + [answer])
  }

  function CallRetry(s: State, id: Id, answer: RetryAnswer): State {
    s.(retriesCalled := s.retriesCalled + [id], retryAnswers := s.retryAnswers + [answer])
  }

  function HandleFailure(s: State): State {
    s.(adaptOperations := [], requestsToRetry := [], isRefreshing := false,
       queue := s.queue + [FailureBatch(s.adaptOperations, s.requestsToRetry)])
  }

  function HandleSuccess(s: State, credential: Credential): State {
    s.(credential := Some(credential), adaptOperations := [], requestsToRetry := [], isRefreshing := false,
       queue := s.queue + [SuccessBatch(s.adaptOperations, s.requestsToRetry)])
  }

  /** refresh: the uptime is read at `t1` for the check and again at `t2` for the timestamp. */
  function Refresh(s: State, t1: real, t2: real): State {
    if Excessive(s, t1) then HandleFailure(s)
    else s.(refreshTimestamps := s.refreshTimestamps + [t2], isRefreshing := true, queue := s.queue + [RefreshJob])
  }

  /** adapt for an operation that is already accounted for. */
  function Adapt(s: State, id: Id, requiresRefresh: bool, t1: real, t2: real): State {
    if s.isRefreshing then s.(adaptOperations := s.adaptOperations + [id])
    else if s.credential.None? then CallAdapt(s, id, MissingCredential)
    else if requiresRefresh then Refresh(s.(adaptOperations := s.adaptOperations + [id]), t1, t2)
    else CallAdapt(s, id, Adapted(s.credential.value, requiresRefresh, InFlight(s)))
  }

  /** The locked part of retry. */
  function EnqueueRetry(s: State, id: Id, t1: real, t2: real): State {
    var s' := s.(requestsToRetry := s.requestsToRetry + [id]);
    if s'.isRefreshing then s' else Refresh(s', t1, t2)
  }

  /** One turn of the serial queue: start the refresh at its head, or release one callback of the batch
      at its head. A released adapt runs adapt again, which may defer it once more. */
  function Turn(s: State, requiresRefresh: bool, t1: real, t2: real): State
    requires s.queue != []
  {
    var rest := s.queue[1..];
    match s.queue[0]
    case RefreshJob => s.(queue := rest, running := s.running + 1)
    case SuccessBatch(adapts, retries) =>
      if adapts != [] then
        Adapt(s.(queue := [SuccessBatch(adapts[1..], retries)] + rest), adapts[0], requiresRefresh, t1, t2)
      else if retries != [] then
        CallRetry(s.(queue := [SuccessBatch([], retries[1..])] + rest), retries[0], Granted)
      else s.(queue := rest)
    case FailureBatch(adapts, retries) =>
      if adapts != [] then
        CallAdapt(s.(queue := [FailureBatch(adapts[1..], retries)] + rest), adapts[0], RefreshFailed)
      else if retries != [] then
        CallRetry(s.(queue := [FailureBatch([], retries[1..])] + rest), retries[0], Refused)
      else s.(queue := rest)
  }

  // ---------------------------------------------------------------- runs

  /** AdaptCall and RetryCall are calls of the public methods; RetryAnswered is a retry that one of the
      guards answers at once; QueueTurn is a turn of the serial queue; RefreshDone is the authenticator
      completing a refresh. */
  datatype Event = AdaptCall(id: Id, requiresRefresh: bool, t1: real, t2: real)
                 | RetryCall(id: Id, t1: real, t2: real)
                 | RetryAnswered(id: Id)
                 | QueueTurn(requiresRefresh: bool, t1: real, t2: real)
                 | RefreshDone(result: Option<Credential>)
                 | SetCredential(credential: Option<Credential>)

  /** Every call has its own identity, the clock is monotone, and the authenticator completes only
      refreshes that it is working on. */
  predicate Enabled(s: State, e: Event) {
    match e
    case AdaptCall(id, _, t1, t2) => id !in s.adaptsSubmitted && s.clock <= t1 <= t2
    case RetryCall(id, t1, t2) => id !in s.retriesSubmitted && s.clock <= t1 <= t2
    case RetryAnswered(id) => id !in s.retriesSubmitted
    case QueueTurn(_, t1, t2) => s.queue != [] && s.clock <= t1 <= t2
    case RefreshDone(_) => s.running > 0
    case SetCredential(_) => true
  }

  function Next(s: State, e: Event): State
    requires Enabled(s, e)
  {
    match e
    case AdaptCall(id, needs, t1, t2) =>
      Adapt(s.(adaptsSubmitted := s.adaptsSubmitted + [id], clock := t2), id, needs, t1, t2)
    case RetryCall(id, t1, t2) =>
      EnqueueRetry(s.(retriesSubmitted := s.retriesSubmitted + [id], clock := t2), id, t1, t2)
    case RetryAnswered(id) =>
      CallRetry(s.(retriesSubmitted := s.retriesSubmitted + [id]), id, Guarded)
    case QueueTurn(needs, t1, t2) => Turn(s.(clock := t2), needs, t1, t2)
    case RefreshDone(result) =>
      var s' := s.(running := s.running - 1);
      if result.Some? then HandleSuccess(s', result.value) else HandleFailure(s')
    case SetCredential(c) => s.(credential := c)
  }

  function Init(credential: Option<Credential>, window: Option<RefreshWindow>, clock: real): State {
    State(credential, false, [], window, [], [], [], 0, clock, [], [], [], [], [], [])
  }

  predicate Legal(s: State, es: seq<Event>)
    decreases |es|
  {
    es == [] || (Enabled(s, es[0]) && Legal(Next(s, es[0]), es[1..]))
  }

  function Run(s: State, es: seq<Event>): State
    requires Legal(s, es)
    decreases |es|
  {
    if es == [] then s else Run(Next(s, es[0]), es[1..])
  }

  // ---------------------------------------------------------------- the invariant

  function RefreshJobs(queue: seq<Job>): nat {
    if queue == [] then 0 else (if queue[0].RefreshJob? then 1 else 0) + RefreshJobs(queue[1..])
  }

  function BatchedAdapts(queue: seq<Job>): multiset<Id> {
    if queue == [] then multiset{}
    else (if queue[0].RefreshJob? then multiset{} else multiset(queue[0].adapts)) + BatchedAdapts(queue[1..])
  }

  function BatchedRetries(queue: seq<Job>): multiset<Id> {
    if queue == [] then multiset{}
    else (if queue[0].RefreshJob? then multiset{} else multiset(queue[0].retries)) + BatchedRetries(queue[1..])
  }

  /** Refreshes that were started and have not completed. */
  function InFlight(s: State): nat {
    s.running + RefreshJobs(s.queue)
  }

  /** Where an adapt operation can be: deferred, in a dispatched batch, or called. */
  function AdaptPlaces(s: State): multiset<Id> {
    multiset(s.adaptOperations) + BatchedAdapts(s.queue) + multiset(s.adaptsCalled)
  }

  function RetryPlaces(s: State): multiset<Id> {
    multiset(s.requestsToRetry) + BatchedRetries(s.queue) + multiset(s.retriesCalled)
  }

  predicate Distinct(ids: seq<Id>) {
    forall i, j :: 0 <= i < j < |ids| ==> ids[i] != ids[j]
  }

  ghost predicate Inv(s: State) {
    && SingleFlight(s)
    && AdaptPlaces(s) == multiset(s.adaptsSubmitted) && Distinct(s.adaptsSubmitted)
    && RetryPlaces(s) == multiset(s.retriesSubmitted) && Distinct(s.retriesSubmitted)
    && RateKept(s.refreshWindow, s.refreshTimestamps)
  }

  /** When refresh number `j` started, fewer than maximumAttempts earlier ones lay within the interval
      before it. */
  ghost predicate RateKept(window: Option<RefreshWindow>, ts: seq<real>) {
    window.Some? ==>
      forall j {:trigger ts[j]} :: 0 <= j < |ts| ==>
        CountSince(ts[..j], ts[j] - window.value.interval) < window.value.maximumAttempts
  }

  // ---------------------------------------------------------------- preservation

  lemma {:induction false} QueueAppend(queue: seq<Job>, job: Job)
    ensures RefreshJobs(queue + [job]) == RefreshJobs(queue) + RefreshJobs([job])
    ensures BatchedAdapts(queue + [job]) == BatchedAdapts(queue) + BatchedAdapts([job])
    ensures BatchedRetries(queue + [job]) == BatchedRetries(queue) + BatchedRetries([job])
    decreases |queue|
  {
    if queue == [] {
      assert queue + [job] == [job];
    } else {
      assert (queue + [job])[1..] == queue[1..] + [job];
      QueueAppend(queue[1..], job);
    }
  }

  lemma {:induction false} QueueHead(job: Job, rest: seq<Job>)
    ensures RefreshJobs([job] + rest) == RefreshJobs([job]) + RefreshJobs(rest)
    ensures BatchedAdapts([job] + rest) == BatchedAdapts([job]) + BatchedAdapts(rest)
    ensures BatchedRetries([job] + rest) == BatchedRetries([job]) + BatchedRetries(rest)
  {
    assert ([job] + rest)[1..] == rest && [job][1..] == [];
  }

  lemma {:induction false} OneJob(job: Job)
    ensures RefreshJobs([job]) == if job.RefreshJob? then 1 else 0
    ensures BatchedAdapts([job]) == if job.RefreshJob? then multiset{} else multiset(job.adapts)
    ensures BatchedRetries([job]) == if job.RefreshJob? then multiset{} else multiset(job.retries)
  {
    assert [job][1..] == [];
  }

  lemma {:induction false} CountSinceMono(ts: seq<real>, lo: real, hi: real)
    requires lo <= hi
    ensures CountSince(ts, hi) <= CountSince(ts, lo)
    decreases |ts|
  {
    if ts != [] { CountSinceMono(ts[..|ts| - 1], lo, hi); }
  }

  // Bags of callbacks: moving between the three places.

  lemma {:induction false} Dispatch(deferred: seq<Id>, batched: multiset<Id>, called: multiset<Id>)
    ensures multiset(deferred) + batched + called == multiset([]) + (batched + multiset(deferred)) + called
  {
  }

  lemma {:induction false} Defer(deferred: seq<Id>, batched: multiset<Id>, called: multiset<Id>, id: Id)
    ensures multiset(deferred + [id]) + batched + called == multiset(deferred) + batched + called + multiset{id}
  {
  }

  lemma {:induction false} Call(deferred: multiset<Id>, batched: multiset<Id>, called: seq<Id>, id: Id)
    ensures deferred + batched + multiset(called + [id]) == deferred + batched + multiset(called) + multiset{id}
  {
  }

  lemma {:induction false} Release(deferred: multiset<Id>, batch: seq<Id>, batched: multiset<Id>, called: multiset<Id>)
    requires batch != []
    ensures deferred + (multiset(batch) + batched) + called
         == deferred + (multiset(batch[1..]) + batched) + called + multiset{batch[0]}
  {
    assert batch == [batch[0]] + batch[1..];
  }

  /** The part of the invariant that concerns the refresh in flight. */
  predicate SingleFlight(s: State) {
    && InFlight(s) == (if s.isRefreshing then 1 else 0)
    && (!s.isRefreshing ==> s.adaptOperations == [] && s.requestsToRetry == [])
  }

  /** `s'` has the callbacks of `s` and the adapts in `more`. */
  predicate SamePlaces(s: State, s': State, more: multiset<Id>) {
    && AdaptPlaces(s') == AdaptPlaces(s) + more && RetryPlaces(s') == RetryPlaces(s)
    && s'.adaptsSubmitted == s.adaptsSubmitted && s'.retriesSubmitted == s.retriesSubmitted
  }

  lemma {:induction false} FailurePlaces(s: State)
    ensures SamePlaces(s, HandleFailure(s), multiset{})
    ensures RefreshJobs(HandleFailure(s).queue) == RefreshJobs(s.queue)
  {
    hide BatchedAdapts, BatchedRetries, RefreshJobs;
    var batch := FailureBatch(s.adaptOperations, s.requestsToRetry);
    QueueAppend(s.queue, batch);
    OneJob(batch);
    Dispatch(s.adaptOperations, BatchedAdapts(s.queue), multiset(s.adaptsCalled));
    Dispatch(s.requestsToRetry, BatchedRetries(s.queue), multiset(s.retriesCalled));
  }

  lemma {:induction false} SuccessPlaces(s: State, credential: Credential)
    ensures SamePlaces(s, HandleSuccess(s, credential), multiset{})
    ensures RefreshJobs(HandleSuccess(s, credential).queue) == RefreshJobs(s.queue)
  {
    hide BatchedAdapts, BatchedRetries, RefreshJobs;
    var batch := SuccessBatch(s.adaptOperations, s.requestsToRetry);
    QueueAppend(s.queue, batch);
    OneJob(batch);
    Dispatch(s.adaptOperations, BatchedAdapts(s.queue), multiset(s.adaptsCalled));
    Dispatch(s.requestsToRetry, BatchedRetries(s.queue), multiset(s.retriesCalled));
  }

  /** Starting or refusing a refresh. The lists may be non-empty although none is in flight yet. */
  lemma {:induction false} RefreshPlaces(s: State, t1: real, t2: real)
    requires !s.isRefreshing && InFlight(s) == 0
    ensures SingleFlight(Refresh(s, t1, t2)) && SamePlaces(s, Refresh(s, t1, t2), multiset{})
  {
    hide BatchedAdapts, BatchedRetries, RefreshJobs, CountSince;
    FailurePlaces(s);
    QueueAppend(s.queue, RefreshJob);
    OneJob(RefreshJob);
  }

  lemma {:induction false} RefreshRate(s: State, t1: real, t2: real)
    requires RateKept(s.refreshWindow, s.refreshTimestamps) && t1 <= t2
    ensures var s' := Refresh(s, t1, t2); RateKept(s'.refreshWindow, s'.refreshTimestamps)
    ensures Refresh(s, t1, t2).refreshWindow == s.refreshWindow
  {
    hide CountSince;
    if s.refreshWindow.Some? && !Excessive(s, t1) {
      var w, ts := s.refreshWindow.value, s.refreshTimestamps;
      var ts' := ts + [t2];
      CountSinceMono(ts, t1 - w.interval, t2 - w.interval);
      forall j {:trigger ts'[j]} | 0 <= j < |ts'|
        ensures CountSince(ts'[..j], ts'[j] - w.interval) < w.maximumAttempts
      {
        assert ts'[..j] == ts[..j];
        if j == |ts| { assert ts[..j] == ts; } else { assert ts'[j] == ts[j]; }
      }
    }
  }

  lemma {:induction false} AdaptKeeps(s: State, id: Id, needs: bool, t1: real, t2: real)
    requires SingleFlight(s) && RateKept(s.refreshWindow, s.refreshTimestamps) && t1 <= t2
    ensures var s' := Adapt(s, id, needs, t1, t2);
            SingleFlight(s') && SamePlaces(s, s', multiset{id}) && RateKept(s'.refreshWindow, s'.refreshTimestamps)
  {
    hide BatchedAdapts, BatchedRetries, RefreshJobs, Refresh, CountSince, RateKept;
    var deferred := s.(adaptOperations := s.adaptOperations + [id]);
    Defer(s.adaptOperations, BatchedAdapts(s.queue), multiset(s.adaptsCalled), id);
    Call(multiset(s.adaptOperations), BatchedAdapts(s.queue), s.adaptsCalled, id);
    if !s.isRefreshing && s.credential.Some? && needs {
      RefreshPlaces(deferred, t1, t2);
      RefreshRate(deferred, t1, t2);
    }
  }

  /** A batch at the head of the queue gives up its first callback. */
  lemma {:induction false} BatchHead(job: Job, rest: seq<Job>)
    requires !job.RefreshJob?
    ensures RefreshJobs([job] + rest) == RefreshJobs(rest)
    ensures BatchedAdapts([job] + rest) == multiset(job.adapts) + BatchedAdapts(rest)
    ensures BatchedRetries([job] + rest) == multiset(job.retries) + BatchedRetries(rest)
  {
    QueueHead(job, rest);
    OneJob(job);
  }

  /** The released callback is called, or handed to adapt again. */
  lemma {:induction false} ReleaseAdapt(s: State, job: Job, job': Job, rest: seq<Job>)
    requires s.queue == [job] + rest && !job.RefreshJob? && !job'.RefreshJob? && job.adapts != []
    requires job'.adapts == job.adapts[1..] && job'.retries == job.retries
    ensures var s' := s.(queue := [job'] + rest);
            && AdaptPlaces(s) == AdaptPlaces(s') + multiset{job.adapts[0]} && RetryPlaces(s) == RetryPlaces(s')
            && RefreshJobs(s'.queue) == RefreshJobs(s.queue)
            && forall answer :: AdaptPlaces(CallAdapt(s', job.adapts[0], answer)) == AdaptPlaces(s)
  {
    hide BatchedAdapts, BatchedRetries, RefreshJobs;
    BatchHead(job, rest);
    BatchHead(job', rest);
    Release(multiset(s.adaptOperations), job.adapts, BatchedAdapts(rest), multiset(s.adaptsCalled));
    Call(multiset(s.adaptOperations), multiset(job'.adapts) + BatchedAdapts(rest), s.adaptsCalled, job.adapts[0]);
  }

  lemma {:induction false} ReleaseRetry(s: State, job: Job, job': Job, rest: seq<Job>, answer: RetryAnswer)
    requires s.queue == [job] + rest && !job.RefreshJob? && !job'.RefreshJob? && job.retries != []
    requires job'.retries == job.retries[1..] && job'.adapts == job.adapts
    ensures var s' := CallRetry(s.(queue := [job'] + rest), job.retries[0], answer);
            && AdaptPlaces(s') == AdaptPlaces(s) && RetryPlaces(s') == RetryPlaces(s)
            && RefreshJobs(s'.queue) == RefreshJobs(s.queue)
  {
    hide BatchedAdapts, BatchedRetries, RefreshJobs;
    BatchHead(job, rest);
    BatchHead(job', rest);
    Release(multiset(s.requestsToRetry), job.retries, BatchedRetries(rest), multiset(s.retriesCalled));
    Call(multiset(s.requestsToRetry), multiset(job'.retries) + BatchedRetries(rest), s.retriesCalled, job.retries[0]);
  }

  lemma {:induction false} TurnKeeps(s: State, needs: bool, t1: real, t2: real)
    requires Inv(s) && s.queue != [] && t1 <= t2
    ensures Inv(Turn(s, needs, t1, t2))
  {
    var job := s.queue[0];
    if job.RefreshJob? {
      hide BatchedAdapts, BatchedRetries, RefreshJobs, AdaptPlaces, RetryPlaces, Distinct, RateKept;
      PopRefresh(s);
    } else if job.adapts == [] && job.retries == [] {
      hide BatchedAdapts, BatchedRetries, RefreshJobs, AdaptPlaces, RetryPlaces, Distinct, RateKept;
      PopEmpty(s);
    } else if job.adapts == [] {
      TurnRetry(s, needs, t1, t2);
    } else {
      TurnAdapt(s, needs, t1, t2);
    }
  }

  lemma {:induction false} TurnRetry(s: State, needs: bool, t1: real, t2: real)
    requires Inv(s) && s.queue != [] && !s.queue[0].RefreshJob?
    requires s.queue[0].adapts == [] && s.queue[0].retries != []
    ensures Inv(Turn(s, needs, t1, t2))
  {
    hide BatchedAdapts, BatchedRetries, RefreshJobs, AdaptPlaces, RetryPlaces, Distinct, RateKept;
    var job, rest := s.queue[0], s.queue[1..];
    assert s.queue == [job] + rest;
    ReleaseRetry(s, job, job.(retries := job.retries[1..]), rest, if job.SuccessBatch? then Granted else Refused);
  }

  lemma {:induction false} TurnAdapt(s: State, needs: bool, t1: real, t2: real)
    requires Inv(s) && s.queue != [] && !s.queue[0].RefreshJob? && t1 <= t2
    requires s.queue[0].adapts != []
    ensures Inv(Turn(s, needs, t1, t2))
  {
    hide BatchedAdapts, BatchedRetries, RefreshJobs, Adapt, AdaptPlaces, RetryPlaces, Distinct, RateKept;
    var job, rest := s.queue[0], s.queue[1..];
    assert s.queue == [job] + rest;
    var job' := job.(adapts := job.adapts[1..]);
    var s' := s.(queue := [job'] + rest);
    ReleaseAdapt(s, job, job', rest);
    if job.SuccessBatch? {
      AdaptKeeps(s', job.adapts[0], needs, t1, t2);
    } else {
      SameRetries(s', job.adapts[0], RefreshFailed);
    }
  }

  lemma {:induction false} SameRetries(s: State, id: Id, answer: AdaptAnswer)
    ensures RetryPlaces(CallAdapt(s, id, answer)) == RetryPlaces(s)
  {
  }

  lemma {:induction false} PopRefresh(s: State)
    requires s.queue != [] && s.queue[0].RefreshJob?
    ensures var s' := s.(queue := s.queue[1..], running := s.running + 1);
            AdaptPlaces(s') == AdaptPlaces(s) && RetryPlaces(s') == RetryPlaces(s) && InFlight(s') == InFlight(s)
  {
  }

  lemma {:induction false} PopEmpty(s: State)
    requires s.queue != [] && !s.queue[0].RefreshJob? && s.queue[0].adapts == [] && s.queue[0].retries == []
    ensures var s' := s.(queue := s.queue[1..]);
            AdaptPlaces(s') == AdaptPlaces(s) && RetryPlaces(s') == RetryPlaces(s) && InFlight(s') == InFlight(s)
  {
  }

  lemma {:induction false} SubmittedAppend(ids: seq<Id>, id: Id)
    requires Distinct(ids) && id !in ids
    ensures Distinct(ids + [id]) && multiset(ids + [id]) == multiset(ids) + multiset{id}
  {
  }

  lemma {:induction false} NextKeeps(s: State, e: Event)
    requires Inv(s) && Enabled(s, e)
    ensures Inv(Next(s, e))
  {
    hide BatchedAdapts, BatchedRetries, RefreshJobs, Adapt, Refresh, Turn, HandleFailure, HandleSuccess, Distinct,
         RateKept;
    match e
    case AdaptCall(id, needs, t1, t2) =>
      SubmittedAppend(s.adaptsSubmitted, id);
      AdaptKeeps(s.(adaptsSubmitted := s.adaptsSubmitted + [id], clock := t2), id, needs, t1, t2);
    case RetryCall(id, t1, t2) =>
      RetryCallKeeps(s, id, t1, t2);
    case RetryAnswered(id) =>
      SubmittedAppend(s.retriesSubmitted, id);
      Call(multiset(s.requestsToRetry), BatchedRetries(s.queue), s.retriesCalled, id);
    case QueueTurn(needs, t1, t2) => TurnKeeps(s.(clock := t2), needs, t1, t2);
    case RefreshDone(result) =>
      RefreshDoneKeeps(s, result);
    case SetCredential(c) =>
  }

  lemma {:induction false} RetryCallKeeps(s: State, id: Id, t1: real, t2: real)
    requires Inv(s) && Enabled(s, RetryCall(id, t1, t2))
    ensures Inv(Next(s, RetryCall(id, t1, t2)))
  {
    hide BatchedAdapts, BatchedRetries, RefreshJobs, Refresh, Distinct, RateKept;
    var s1 := s.(retriesSubmitted := s.retriesSubmitted + [id], clock := t2,
        requestsToRetry := s.requestsToRetry + [id]);
    SubmittedAppend(s.retriesSubmitted, id);
    Defer(s.requestsToRetry, BatchedRetries(s.queue), multiset(s.retriesCalled), id);
    if !s.isRefreshing {
      RefreshPlaces(s1, t1, t2);
      RefreshRate(s1, t1, t2);
    }
  }

  lemma {:induction false} RefreshDoneKeeps(s: State, result: Option<Credential>)
    requires Inv(s) && s.running > 0
    ensures Inv(Next(s, RefreshDone(result)))
  {
    hide BatchedAdapts, BatchedRetries, RefreshJobs, Distinct, RateKept;
    var s1 := s.(running := s.running - 1);
    FailurePlaces(s1);
    if result.Some? { SuccessPlaces(s1, result.value); }
  }

  // ---------------------------------------------------------------- theorems over runs

  /** In every interleaving: at most one refresh is in flight, exactly when isRefreshing; nothing is
      deferred while none is; and every callback is in exactly one place. */
  lemma {:induction false} RunKeeps(s: State, es: seq<Event>)
    requires Inv(s) && Legal(s, es)
    ensures Inv(Run(s, es))
    decreases |es|
  {
    hide Inv, Enabled;
    if es != [] {
      NextKeeps(s, es[0]);
      RunKeeps(Next(s, es[0]), es[1..]);
    }
  }

  lemma {:induction false} EveryRun(credential: Option<Credential>, window: Option<RefreshWindow>, clock: real,
          es: seq<Event>)
    requires Legal(Init(credential, window, clock), es)
    ensures Inv(Run(Init(credential, window, clock), es))
  {
    RunKeeps(Init(credential, window, clock), es);
  }

  lemma {:induction false} DistinctOnce(ids: seq<Id>, id: Id)
    requires Distinct(ids)
    ensures multiset(ids)[id] == if id in ids then 1 else 0
    decreases |ids|
  {
    if ids != [] {
      var n := |ids| - 1;
      assert ids == ids[..n] + [ids[n]];
      DistinctOnce(ids[..n], id);
    }
  }

  /** A submitted callback is deferred, dispatched or called, exactly one of the three and exactly once;
      one that was never submitted is nowhere. */
  lemma {:induction false} ExactlyOnePlace(s: State, id: Id)
    requires Inv(s)
    ensures multiset(s.adaptOperations)[id] + BatchedAdapts(s.queue)[id] + multiset(s.adaptsCalled)[id]
         == if id in s.adaptsSubmitted then 1 else 0
    ensures multiset(s.requestsToRetry)[id] + BatchedRetries(s.queue)[id] + multiset(s.retriesCalled)[id]
         == if id in s.retriesSubmitted then 1 else 0
  {
    DistinctOnce(s.adaptsSubmitted, id);
    DistinctOnce(s.retriesSubmitted, id);
    assert AdaptPlaces(s)[id] == multiset(s.adaptsSubmitted)[id];
    assert RetryPlaces(s)[id] == multiset(s.retriesSubmitted)[id];
  }

  /** Once the queue is drained and no refresh is in flight, every callback has been called. */
  lemma {:induction false} QuiescentIsDone(s: State)
    requires Inv(s) && s.queue == [] && s.running == 0
    ensures multiset(s.adaptsCalled) == multiset(s.adaptsSubmitted)
    ensures multiset(s.retriesCalled) == multiset(s.retriesSubmitted)
  {
  }

  function CountWithin(ts: seq<real>, lo: real, hi: real): nat {
    if ts == [] then 0
    else CountWithin(ts[..|ts| - 1], lo, hi) + (if lo <= ts[|ts| - 1] <= hi then 1 else 0)
  }

  lemma {:induction false} WithinSince(ts: seq<real>, lo: real, hi: real)
    ensures CountWithin(ts, lo, hi) <= CountSince(ts, lo)
    decreases |ts|
  {
    if ts != [] { WithinSince(ts[..|ts| - 1], lo, hi); }
  }

  /** Every closed window of length `interval` contains at most maximumAttempts refresh starts. */
  lemma {:induction false} WindowBound(ts: seq<real>, w: RefreshWindow, lo: real)
    requires forall j {:trigger ts[j]} :: 0 <= j < |ts| ==> CountSince(ts[..j], ts[j] - w.interval) < w.maximumAttempts
    ensures CountWithin(ts, lo, lo + w.interval) <= if w.maximumAttempts < 0 then 0 else w.maximumAttempts
    decreases |ts|
  {
    if ts != [] {
      var n, last := |ts| - 1, ts[|ts| - 1];
      var init := ts[..n];
      if lo <= last <= lo + w.interval {
        WithinSince(init, lo, lo + w.interval);
        CountSinceMono(init, last - w.interval, lo);
      } else {
        forall j {:trigger init[j]} | 0 <= j < |init|
          ensures CountSince(init[..j], init[j] - w.interval) < w.maximumAttempts
        {
          assert init[..j] == ts[..j] && init[j] == ts[j];
        }
        WindowBound(init, w, lo);
      }
    }
  }

  lemma {:induction false} RateLimit(credential: Option<Credential>, w: RefreshWindow, clock: real, es: seq<Event>,
          lo: real)
    requires Legal(Init(credential, Some(w), clock), es)
    ensures CountWithin(Run(Init(credential, Some(w), clock), es).refreshTimestamps, lo, lo + w.interval)
            <= if w.maximumAttempts < 0 then 0 else w.maximumAttempts
  {
    EveryRun(credential, Some(w), clock, es);
    RunKeepsWindow(Init(credential, Some(w), clock), es);
    WindowBound(Run(Init(credential, Some(w), clock), es).refreshTimestamps, w, lo);
  }

  /** The window is fixed at initialisation. */
  lemma {:induction false} RunKeepsWindow(s: State, es: seq<Event>)
    requires Legal(s, es)
    ensures Run(s, es).refreshWindow == s.refreshWindow
    decreases |es|
  {
    if es != [] { RunKeepsWindow(Next(s, es[0]), es[1..]); }
  }

  // ---------------------------------------------------------------- who is answered, and what starts a refresh

  /** The refreshes that started at or after `min`. */
  function Recent(ts: seq<real>, min: real): set<nat> {
    set i: nat | 0 <= i < |ts| && min <= ts[i]
  }

  lemma {:induction false} CountIsRecent(ts: seq<real>, min: real)
    ensures CountSince(ts, min) == |Recent(ts, min)|
    decreases |ts|
  {
    if ts != [] {
      var n: nat := |ts| - 1;
      CountIsRecent(ts[..n], min);
      assert Recent(ts, min) == Recent(ts[..n], min) + (if min <= ts[n] then {n} else {});
    }
  }

  /** Fewer than maximumAttempts refreshes started within the interval before `now`. */
  predicate HasRoom(s: State, now: real) {
    s.refreshWindow.Some? ==>
      |Recent(s.refreshTimestamps, now - s.refreshWindow.value.interval)| < s.refreshWindow.value.maximumAttempts
  }

  /** The operation that the event hands to adapt: a new one, or the next one that a success releases. */
  function Adapting(s: State, e: Event): Option<Id>
    requires Enabled(s, e)
  {
    match e
    case AdaptCall(id, _, _, _) => Some(id)
    case QueueTurn(_, _, _) =>
      if s.queue[0].SuccessBatch? && s.queue[0].adapts != [] then Some(s.queue[0].adapts[0]) else None
    case _ => None
  }

  /** The event asks for a refresh while none is in flight. */
  predicate Asks(s: State, e: Event)
    requires Enabled(s, e)
  {
    !s.isRefreshing && (e.RetryCall? || (Adapting(s, e).Some? && s.credential.Some? && e.requiresRefresh))
  }

  /** The queue once the event has taken its job or callback from it. */
  function Taken(s: State, e: Event): seq<Job>
    requires Enabled(s, e)
  {
    if !e.QueueTurn? then s.queue
    else
      var job, rest := s.queue[0], s.queue[1..];
      if job.RefreshJob? then rest
      else if job.adapts != [] then [job.(adapts := job.adapts[1..])] + rest
      else if job.retries != [] then [job.(retries := job.retries[1..])] + rest
      else rest
  }

  /** The operations that are deferred when the event decides about a refresh. */
  function DeferredAdapts(s: State, e: Event): seq<Id>
    requires Enabled(s, e)
  {
    if Adapting(s, e).Some? then s.adaptOperations + [Adapting(s, e).value] else s.adaptOperations
  }

  function DeferredRetries(s: State, e: Event): seq<Id>
    requires Enabled(s, e)
  {
    if e.RetryCall? then s.requestsToRetry + [e.id] else s.requestsToRetry
  }

  /** One refresh starts, and everything deferred waits for it. */
  predicate Starts(s: State, e: Event, s': State)
    requires Enabled(s, e) && Asks(s, e)
  {
    && s'.isRefreshing && InFlight(s) == 0 && InFlight(s') == 1
    && s'.refreshTimestamps == s.refreshTimestamps + [e.t2] && s'.queue == Taken(s, e) + [RefreshJob]
    && s'.adaptOperations == DeferredAdapts(s, e) && s'.requestsToRetry == DeferredRetries(s, e)
  }

  /** No refresh starts, and everything deferred is about to be failed. */
  predicate Refuses(s: State, e: Event, s': State)
    requires Enabled(s, e) && Asks(s, e)
  {
    && !s'.isRefreshing && InFlight(s') == 0 && s'.refreshTimestamps == s.refreshTimestamps
    && s'.queue == Taken(s, e) + [FailureBatch(DeferredAdapts(s, e), DeferredRetries(s, e))]
    && s'.adaptOperations == [] && s'.requestsToRetry == []
  }

  /** Whether the event calls an adapt callback, and with what: the credential at once if it needs no refresh
      and none is in flight, the error of a missing one, or the error of the refresh it was deferred for. */
  function AnswersAdapt(s: State, e: Event): Option<(Id, AdaptAnswer)>
    requires Enabled(s, e)
  {
    if Adapting(s, e).Some? then
      if s.isRefreshing || (s.credential.Some? && e.requiresRefresh) then None
      else if s.credential.Some? then Some((Adapting(s, e).value, Adapted(s.credential.value, false, 0)))
      else Some((Adapting(s, e).value, MissingCredential))
    else if e.QueueTurn? && s.queue[0].FailureBatch? && s.queue[0].adapts != [] then
      Some((s.queue[0].adapts[0], RefreshFailed))
    else None
  }

  /** Whether the event calls a retry callback, and with what: those of a batch after all its adapts. */
  function AnswersRetry(s: State, e: Event): Option<(Id, RetryAnswer)>
    requires Enabled(s, e)
  {
    if e.RetryAnswered? then Some((e.id, Guarded))
    else if e.QueueTurn? && !s.queue[0].RefreshJob? && s.queue[0].adapts == [] && s.queue[0].retries != [] then
      Some((s.queue[0].retries[0], if s.queue[0].SuccessBatch? then Granted else Refused))
    else None
  }

  /** What the event decides about a refresh and about what is deferred. */
  predicate RefreshLaw(s: State, e: Event, s': State)
    requires Enabled(s, e)
  {
    if Asks(s, e) then (if HasRoom(s, e.t1) then Starts(s, e, s') else Refuses(s, e, s'))
    else
      && s'.refreshTimestamps == s.refreshTimestamps
      && (if e.RefreshDone? then
            && s'.adaptOperations == [] && s'.requestsToRetry == [] && !s'.isRefreshing
            && s'.queue == s.queue + [if e.result.Some? then SuccessBatch(s.adaptOperations, s.requestsToRetry)
                                      else FailureBatch(s.adaptOperations, s.requestsToRetry)]
          else
            && s'.isRefreshing == s.isRefreshing && s'.queue == Taken(s, e)
            && s'.adaptOperations == (if s.isRefreshing then DeferredAdapts(s, e) else s.adaptOperations)
            && s'.requestsToRetry == (if s.isRefreshing then DeferredRetries(s, e) else s.requestsToRetry))
  }

  /** Which callbacks the event calls. */
  predicate AnswerLaw(s: State, e: Event, s': State)
    requires Enabled(s, e)
  {
    && (match AnswersAdapt(s, e)
        case None => s'.adaptsCalled == s.adaptsCalled && s'.adaptAnswers == s.adaptAnswers
        case Some(a) => s'.adaptsCalled == s.adaptsCalled + [a.0] && s'.adaptAnswers == s.adaptAnswers + [a.1])
    && (match AnswersRetry(s, e)
        case None => s'.retriesCalled == s.retriesCalled && s'.retryAnswers == s.retryAnswers
        case Some(a) => s'.retriesCalled == s.retriesCalled + [a.0] && s'.retryAnswers == s.retryAnswers + [a.1])
  }

  /** What a step decides about refreshes and which callbacks it calls. */
  predicate StepLaw(s: State, e: Event, s': State)
    requires Enabled(s, e)
  {
    RefreshLaw(s, e, s') && AnswerLaw(s, e, s')
  }

  lemma {:induction false} TakenJobs(s: State, e: Event)
    requires Enabled(s, e)
    ensures RefreshJobs(Taken(s, e)) == RefreshJobs(s.queue)
                                        - (if e.QueueTurn? && s.queue[0].RefreshJob? then 1 else 0)
    ensures RefreshJobs(Taken(s, e) + [RefreshJob]) == RefreshJobs(Taken(s, e)) + 1
    ensures forall job: Job :: !job.RefreshJob? ==> RefreshJobs(Taken(s, e) + [job]) == RefreshJobs(Taken(s, e))
  {
    hide BatchedAdapts, BatchedRetries;
    if e.QueueTurn? {
      var job, rest := s.queue[0], s.queue[1..];
      if !job.RefreshJob? {
        QueueHead(job.(adapts := if job.adapts == [] then [] else job.adapts[1..]), rest);
        QueueHead(job.(retries := if job.retries == [] then [] else job.retries[1..]), rest);
      }
    }
    QueueAppend(Taken(s, e), RefreshJob);
    OneJob(RefreshJob);
    forall job: Job | !job.RefreshJob? ensures RefreshJobs(Taken(s, e) + [job]) == RefreshJobs(Taken(s, e)) {
      QueueAppend(Taken(s, e), job);
      OneJob(job);
    }
  }

  lemma {:induction false} RoomExactly(s: State, now: real)
    ensures HasRoom(s, now) <==> !Excessive(s, now)
  {
    hide CountSince, Recent;
    if s.refreshWindow.Some? { CountIsRecent(s.refreshTimestamps, now - s.refreshWindow.value.interval); }
  }

  lemma {:induction false} AdaptRefresh(s: State, e: Event)
    requires Inv(s) && Enabled(s, e) && Adapting(s, e).Some?
    ensures RefreshLaw(s, e, Next(s, e))
  {
    hide BatchedAdapts, BatchedRetries, AdaptPlaces, RetryPlaces, RateKept, Distinct, RefreshJobs, Excessive, HasRoom;
    TakenJobs(s, e);
    RoomExactly(s, e.t1);
    SameRoom(s, e);
  }

  lemma {:induction false} SameRoom(s: State, e: Event)
    requires Enabled(s, e) && (e.AdaptCall? || e.QueueTurn? || e.RetryCall?)
    ensures forall s': State :: s'.refreshWindow == s.refreshWindow && s'.refreshTimestamps == s.refreshTimestamps ==>
              (Excessive(s', e.t1) <==> Excessive(s, e.t1))
  {
    hide CountSince;
  }

  lemma {:induction false} RetryRefresh(s: State, e: Event)
    requires Inv(s) && Enabled(s, e) && e.RetryCall?
    ensures RefreshLaw(s, e, Next(s, e))
  {
    hide BatchedAdapts, BatchedRetries, AdaptPlaces, RetryPlaces, RateKept, Distinct, RefreshJobs, Excessive, HasRoom;
    TakenJobs(s, e);
    RoomExactly(s, e.t1);
    SameRoom(s, e);
  }

  lemma {:induction false} NextRefresh(s: State, e: Event)
    requires Inv(s) && Enabled(s, e)
    ensures RefreshLaw(s, e, Next(s, e))
  {
    hide BatchedAdapts, BatchedRetries, AdaptPlaces, RetryPlaces, RateKept, Distinct, RefreshJobs, Excessive, HasRoom;
    if Adapting(s, e).Some? {
      AdaptRefresh(s, e);
    } else if e.RetryCall? {
      RetryRefresh(s, e);
    } else {
      assert !Asks(s, e);
    }
  }

  lemma {:induction false} AdaptAnswers(s: State, e: Event)
    requires Inv(s) && Enabled(s, e) && Adapting(s, e).Some?
    ensures AnswerLaw(s, e, Next(s, e))
  {
    hide BatchedAdapts, BatchedRetries, AdaptPlaces, RetryPlaces, RateKept, Distinct, RefreshJobs, Excessive;
    TakenJobs(s, e);
  }

  lemma {:induction false} NextAnswers(s: State, e: Event)
    requires Inv(s) && Enabled(s, e)
    ensures AnswerLaw(s, e, Next(s, e))
  {
    hide Inv, Refresh, Adapt, HandleSuccess, HandleFailure;
    if Adapting(s, e).Some? {
      AdaptAnswers(s, e);
    } else if e.RetryCall? || e.RefreshDone? {
      RefreshCallsNobody(s, e);
    }
  }

  lemma {:induction false} RefreshCallsNobody(s: State, e: Event)
    requires Enabled(s, e) && (e.RetryCall? || e.RefreshDone?)
    ensures AnswerLaw(s, e, Next(s, e))
  {
    hide Excessive;
  }

  lemma {:induction false} NextLaw(s: State, e: Event)
    requires Inv(s) && Enabled(s, e)
    ensures StepLaw(s, e, Next(s, e))
  {
    hide Inv, RefreshLaw, AnswerLaw, Next;
    NextRefresh(s, e);
    NextAnswers(s, e);
  }

  lemma {:induction false} LegalPrefix(s: State, es: seq<Event>, i: nat)
    requires Legal(s, es) && i <= |es|
    ensures Legal(s, es[..i])
    ensures i < |es| ==> Enabled(Run(s, es[..i]), es[i]) && Legal(s, es[..i + 1])
                         && Run(s, es[..i + 1]) == Next(Run(s, es[..i]), es[i])
    decreases |es|
  {
    hide Enabled, Next;
    if i > 0 {
      LegalPrefix(Next(s, es[0]), es[1..], i - 1);
      assert es[..i][1..] == es[1..][..i - 1];
      if i < |es| { assert es[..i + 1][1..] == es[1..][..i]; }
    } else if es != [] {
      assert es[..1][1..] == [];
    }
  }

  /** At every step of every run: an adapt callback is called at once exactly if no refresh is in flight and
      the credential is missing or needs none; otherwise it is deferred or failed. A refresh starts exactly if
      an adapt or retry asks for one, none is in flight, and fewer than maximumAttempts started within the
      interval. What a refresh releases is called in turn, with the outcome of that refresh. */
  lemma {:induction false} EveryStep(credential: Option<Credential>, window: Option<RefreshWindow>, clock: real,
          es: seq<Event>, i: nat)
    requires Legal(Init(credential, window, clock), es) && i < |es|
    ensures var s := Init(credential, window, clock);
            && Legal(s, es[..i]) && Legal(s, es[..i + 1]) && Enabled(Run(s, es[..i]), es[i])
            && StepLaw(Run(s, es[..i]), es[i], Run(s, es[..i + 1]))
  {
    hide Inv, Enabled, Next, StepLaw, Legal;
    var s := Init(credential, window, clock);
    LegalPrefix(s, es, i);
    EveryRun(credential, window, clock, es[..i]);
    NextLaw(Run(s, es[..i]), es[i]);
  }

  /** No callback was ever given a credential that needed a refresh, or while one was in flight. */
  predicate Truthful(s: State) {
    && |s.adaptAnswers| == |s.adaptsCalled| && |s.retryAnswers| == |s.retriesCalled|
    && forall i :: 0 <= i < |s.adaptAnswers| && s.adaptAnswers[i].Adapted? ==>
         !s.adaptAnswers[i].requiresRefresh && s.adaptAnswers[i].inFlight == 0
  }

  lemma {:induction false} RunTruthful(s: State, es: seq<Event>)
    requires Inv(s) && Legal(s, es) && Truthful(s)
    ensures Truthful(Run(s, es))
    decreases |es|
  {
    hide Inv, Enabled, Next;
    if es != [] {
      NextAnswers(s, es[0]);
      NextKeeps(s, es[0]);
      RunTruthful(Next(s, es[0]), es[1..]);
    }
  }

  lemma {:induction false} EveryAnswer(credential: Option<Credential>, window: Option<RefreshWindow>, clock: real,
          es: seq<Event>)
    requires Legal(Init(credential, window, clock), es)
    ensures Truthful(Run(Init(credential, window, clock), es))
  {
    RunTruthful(Init(credential, window, clock), es);
  }

  /** The credential that the events leave: that of the last success, or the last one set from outside. */
  function LastCredential(before: Option<Credential>, es: seq<Event>): Option<Credential>
    decreases |es|
  {
    if es == [] then before
    else
      var now := match es[0]
                 case RefreshDone(Some(c)) => Some(c)
                 case SetCredential(c) => c
                 case _ => before;
      LastCredential(now, es[1..])
  }

  function Completed(es: seq<Event>): nat {
    if es == [] then 0 else (if es[0].RefreshDone? then 1 else 0) + Completed(es[1..])
  }

  lemma {:induction false} NextFlight(s: State, e: Event)
    requires Inv(s) && Enabled(s, e)
    ensures InFlight(Next(s, e)) + (if e.RefreshDone? then 1 else 0) + |s.refreshTimestamps|
         == InFlight(s) + |Next(s, e).refreshTimestamps|
    ensures Next(s, e).credential == LastCredential(s.credential, [e])
  {
    hide BatchedAdapts, BatchedRetries, AdaptPlaces, RetryPlaces, RateKept, Distinct, RefreshJobs, CountSince;
    TakenJobs(s, e);
    assert [e][1..] == [];
    NextKeeps(s, e);
    NextRefresh(s, e);
  }

  lemma {:induction false} RunFlight(s: State, es: seq<Event>)
    requires Inv(s) && Legal(s, es)
    ensures InFlight(Run(s, es)) + Completed(es) + |s.refreshTimestamps| == InFlight(s) + |Run(s, es).refreshTimestamps|
    ensures Run(s, es).credential == LastCredential(s.credential, es)
    decreases |es|
  {
    hide Inv, Enabled, Next, InFlight;
    if es != [] {
      NextFlight(s, es[0]);
      NextKeeps(s, es[0]);
      RunFlight(Next(s, es[0]), es[1..]);
      assert [es[0]][1..] == [];
    }
  }

  /** Every refresh that was started is in flight or has been completed, and the credential is that of the
      last success or the last one set. */
  lemma {:induction false} StartedRefreshes(credential: Option<Credential>, window: Option<RefreshWindow>,
          clock: real, es: seq<Event>)
    requires Legal(Init(credential, window, clock), es)
    ensures var s := Run(Init(credential, window, clock), es);
            && |s.refreshTimestamps| == InFlight(s) + Completed(es)
            && s.credential == LastCredential(credential, es)
  {
    RunFlight(Init(credential, window, clock), es);
  }

  // ---------------------------------------------------------------- the object

  class AuthenticationInterceptor {
    const refreshWindow: Option<RefreshWindow>
    var credential: Option<Credential>
    var isRefreshing: bool
    var refreshTimestamps: seq<real>
    var adaptOperations: seq<Id>
    var requestsToRetry: seq<Id>
    var queue: seq<Job>
    ghost var running: nat
    ghost var clock: real
    ghost var adaptsSubmitted: seq<Id>
    ghost var adaptsCalled: seq<Id>
    ghost var retriesSubmitted: seq<Id>
    ghost var retriesCalled: seq<Id>
    ghost var adaptAnswers: seq<AdaptAnswer>
    ghost var retryAnswers: seq<RetryAnswer>

    ghost function Now(): State
      reads this
    {
      State(credential, isRefreshing, refreshTimestamps, refreshWindow, adaptOperations, requestsToRetry, queue,
            running, clock, adaptsSubmitted, adaptsCalled, retriesSubmitted, retriesCalled, adaptAnswers, retryAnswers)
    }

    constructor (credential: Option<Credential>, window: Option<RefreshWindow>, ghost uptime: real)
      ensures Now() == Init(credential, window, uptime)
    {
      refreshWindow, this.credential := window, credential;
      isRefreshing, refreshTimestamps, adaptOperations, requestsToRetry, queue := false, [], [], [], [];
      running, clock := 0, uptime;
      adaptsSubmitted, adaptsCalled, retriesSubmitted, retriesCalled := [], [], [], [];
      adaptAnswers, retryAnswers := [], [];
    }

    method IsRefreshExcessive(now: real) returns (excessive: bool)
      ensures excessive <==> Excessive(Now(), now)
    {
      if refreshWindow.None? { return false; }
      var min, attempts := now - refreshWindow.value.interval, 0;
      for i := 0 to |refreshTimestamps|
        invariant attempts == CountSince(refreshTimestamps[..i], min)
      {
        assert refreshTimestamps[..i + 1][..i] == refreshTimestamps[..i];
        if min <= refreshTimestamps[i] { attempts := attempts + 1; }
      }
      assert refreshTimestamps[..|refreshTimestamps|] == refreshTimestamps;
      return attempts >= refreshWindow.value.maximumAttempts;
    }

    /** Nothing stays deferred, every callback is still in exactly one place, and no refresh is started. */
    method HandleRefreshSuccess(newCredential: Credential)
      modifies this
      ensures Now() == HandleSuccess(old(Now()), newCredential)
      ensures adaptOperations == [] && requestsToRetry == [] && !isRefreshing
      ensures SamePlaces(old(Now()), Now(), multiset{}) && InFlight(Now()) == InFlight(old(Now()))
    {
      hide SamePlaces, RefreshJobs;
      SuccessPlaces(Now(), newCredential);
      credential := Some(newCredential);
      var adapts, retries := adaptOperations, requestsToRetry;
      adaptOperations, requestsToRetry := [], [];
      isRefreshing := false;
      queue := queue + [SuccessBatch(adapts, retries)];
    }

    /** The same when the refresh has failed or is refused. */
    method HandleRefreshFailure()
      modifies this
      ensures Now() == HandleFailure(old(Now()))
      ensures adaptOperations == [] && requestsToRetry == [] && !isRefreshing && credential == old(credential)
      ensures SamePlaces(old(Now()), Now(), multiset{}) && InFlight(Now()) == InFlight(old(Now()))
    {
      hide SamePlaces, RefreshJobs;
      FailurePlaces(Now());
      var adapts, retries := adaptOperations, requestsToRetry;
      adaptOperations, requestsToRetry := [], [];
      isRefreshing := false;
      queue := queue + [FailureBatch(adapts, retries)];
    }

    method StartRefresh(t1: real, t2: real)
      modifies this
      ensures Now() == Refresh(old(Now()), t1, t2)
    {
      var excessive := IsRefreshExcessive(t1);
      if excessive {
        HandleRefreshFailure();
        return;
      }
      refreshTimestamps := refreshTimestamps + [t2];
      isRefreshing := true;
      queue := queue + [RefreshJob];
    }

    /** An adapt callback is called. */
    ghost method AnswerAdapt(id: Id, answer: AdaptAnswer)
      modifies this`adaptsCalled, this`adaptAnswers
      ensures Now() == CallAdapt(old(Now()), id, answer)
    {
      adaptsCalled, adaptAnswers := adaptsCalled + [id], adaptAnswers + [answer];
    }

    /** A retry callback is called. */
    ghost method AnswerRetry(id: Id, answer: RetryAnswer)
      modifies this`retriesCalled, this`retryAnswers
      ensures Now() == CallRetry(old(Now()), id, answer)
    {
      retriesCalled, retryAnswers := retriesCalled + [id], retryAnswers + [answer];
    }

    method AdaptLocked(id: Id, requiresRefresh: bool, t1: real, t2: real)
      modifies this
      ensures Now() == Adapt(old(Now()), id, requiresRefresh, t1, t2)
    {
      if isRefreshing {
        adaptOperations := adaptOperations + [id];
      } else if credential.None? {
        AnswerAdapt(id, MissingCredential);
      } else if requiresRefresh {
        adaptOperations := adaptOperations + [id];
        StartRefresh(t1, t2);
      } else {
        AnswerAdapt(id, Adapted(credential.value, requiresRefresh, InFlight(Now())));
      }
    }

    /** adapt, called from outside. */
    method AdaptRequest(id: Id, requiresRefresh: bool, t1: real, t2: real)
      requires Inv(Now()) && Enabled(Now(), AdaptCall(id, requiresRefresh, t1, t2))
      modifies this
      ensures Inv(Now()) && Now() == Next(old(Now()), AdaptCall(id, requiresRefresh, t1, t2))
      ensures StepLaw(old(Now()), AdaptCall(id, requiresRefresh, t1, t2), Now())
    {
      hide Inv, Adapt, StepLaw;
      NextKeeps(Now(), AdaptCall(id, requiresRefresh, t1, t2));
      NextLaw(Now(), AdaptCall(id, requiresRefresh, t1, t2));
      adaptsSubmitted, clock := adaptsSubmitted + [id], t2;
      AdaptLocked(id, requiresRefresh, t1, t2);
    }

    /** retry, once its guards have let it through. */
    method RetryRequest(id: Id, t1: real, t2: real)
      requires Inv(Now()) && Enabled(Now(), RetryCall(id, t1, t2))
      modifies this
      ensures Inv(Now()) && Now() == Next(old(Now()), RetryCall(id, t1, t2))
      ensures StepLaw(old(Now()), RetryCall(id, t1, t2), Now())
    {
      hide Inv, Refresh, StepLaw;
      NextKeeps(Now(), RetryCall(id, t1, t2));
      NextLaw(Now(), RetryCall(id, t1, t2));
      retriesSubmitted, clock := retriesSubmitted + [id], t2;
      requestsToRetry := requestsToRetry + [id];
      if !isRefreshing { StartRefresh(t1, t2); }
    }

    /** One turn of the serial queue. */
    method RunQueue(requiresRefresh: bool, t1: real, t2: real)
      requires Inv(Now()) && Enabled(Now(), QueueTurn(requiresRefresh, t1, t2))
      modifies this
      ensures Inv(Now()) && Now() == Next(old(Now()), QueueTurn(requiresRefresh, t1, t2))
      ensures StepLaw(old(Now()), QueueTurn(requiresRefresh, t1, t2), Now())
    {
      hide Inv, Adapt, StepLaw;
      NextKeeps(Now(), QueueTurn(requiresRefresh, t1, t2));
      NextLaw(Now(), QueueTurn(requiresRefresh, t1, t2));
      clock := t2;
      var job, rest := queue[0], queue[1..];
      match job {
        case RefreshJob =>
          queue, running := rest, running + 1;
        case SuccessBatch(adapts, retries) =>
          if adapts != [] {
            queue := [SuccessBatch(adapts[1..], retries)] + rest;
            AdaptLocked(adapts[0], requiresRefresh, t1, t2);
          } else if retries != [] {
            queue := [SuccessBatch([], retries[1..])] + rest;
            AnswerRetry(retries[0], Granted);
          } else {
            queue := rest;
          }
        case FailureBatch(adapts, retries) =>
          if adapts != [] {
            queue := [FailureBatch(adapts[1..], retries)] + rest;
            AnswerAdapt(adapts[0], RefreshFailed);
          } else if retries != [] {
            queue := [FailureBatch([], retries[1..])] + rest;
            AnswerRetry(retries[0], Refused);
          } else {
            queue := rest;
          }
      }
    }

    /** The authenticator completes a refresh. */
    method RefreshCompleted(result: Option<Credential>)
      requires Inv(Now()) && Enabled(Now(), RefreshDone(result))
      modifies this
      ensures Inv(Now()) && Now() == Next(old(Now()), RefreshDone(result))
      ensures StepLaw(old(Now()), RefreshDone(result), Now())
    {
      hide Inv, HandleSuccess, HandleFailure, StepLaw;
      NextKeeps(Now(), RefreshDone(result));
      NextLaw(Now(), RefreshDone(result));
      running := running - 1;
      if result.Some? { HandleRefreshSuccess(result.value); } else { HandleRefreshFailure(); }
    }
  }
}
