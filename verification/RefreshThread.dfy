/**
 * The threads of xh_core.c as a state machine: one caller of the API and the worker it creates, which share two
 * mutexes, a condition variable and six flags. Each step is one lock operation or one access to the shared flags.
 */
module RefreshThread {

  datatype Owner = Free | Caller | Worker

  /** Where the refresh thread stands in xh_core_refresh_thread_func. */
  datatype WorkerAt =
    | NoThread                   // not created, or joined
    | Top                        // before the test of the outer loop
    | Locking                    // before locking the mutex
    | Testing                    // holds the mutex, before the test of the inner loop
    | Sleeping(signalled: bool)  // in pthread_cond_wait
    | Deciding                   // holds the mutex, before the test for a stop
    | Leaving                    // holds the mutex, before unlocking it to end
    | Taking                     // holds the mutex, before clearing the request
    | Taken                      // holds the mutex, before unlocking it to refresh
    | RefreshLocking | Refreshing | RefreshUnlocking
    | Done                       // the thread function has returned

  /** Where the caller stands in xh_core_register or xh_core_ignore; the element to insert is ready after the check. */
  datatype AddAt = AddCheck | AddLock | AddInsert | AddUnlock

  /** In xh_core_init_once. */
  datatype InitAt = InitCheck | InitLock | InitRecheck | InitHandler | InitUnlock | InitDone

  /** In xh_core_init_async_once. */
  datatype AsyncAt = AsyncCheck | AsyncLock | AsyncRecheck | AsyncCreate | AsyncOk | AsyncUnlock | AsyncDone

  /** In xh_core_refresh, to post a request to the worker or to refresh itself. */
  datatype PostAt = PostLock | PostDo | PostSignal | PostUnlock
  datatype SyncAt = SyncLock | SyncRefresh | SyncUnlock

  /** In xh_core_clear, up to the join and after it. */
  datatype StopAt = StopCheck | StopLock | StopFlag | StopSignal | StopUnlock | Joining
  datatype FreeAt =
    | Joined | ResetAsync | ResetInit | FreeLock | FreeRefreshLock | Freeing | FreeRefreshUnlock | FreeUnlock

  datatype CallerAt =
    | Idle
    | Add(d: AddAt)
    | Init(i: InitAt, async: bool)
    | Async(a: AsyncAt)
    | Post(p: PostAt)
    | Sync(y: SyncAt)
    | Stop(t: StopAt)
    | Clear(f: FreeAt)

  datatype State = State(
    c: CallerAt, w: WorkerAt, mutex: Owner, refreshMutex: Owner,
    inited: bool, initOk: bool, asyncInited: bool, asyncInitOk: bool, running: bool, request: bool)

  const START := State(Idle, NoThread, Free, Free, false, false, false, false, false, false)

  /** pthread_cond_signal */
  function Signal(w: WorkerAt): WorkerAt
  {
    if w.Sleeping? then Sleeping(true) else w
  }

  // ---------- Steps ----------

  /** What can make the caller wait: a lock that is held, or a worker that has not returned. */
  predicate CallerWaits(s: State)
  {
    match s.c
    case Idle => false
    case Add(d) => d == AddLock && s.mutex != Free
    case Init(i, _) => i == InitLock && s.mutex != Free
    case Async(a) => a == AsyncLock && s.mutex != Free
    case Post(p) => p == PostLock && s.mutex != Free
    case Sync(y) => y == SyncLock && s.refreshMutex != Free
    case Stop(t) => (t == StopLock && s.mutex != Free) || (t == Joining && s.w != Done)
    case Clear(f) => (f == FreeLock && s.mutex != Free) || (f == FreeRefreshLock && s.refreshMutex != Free)
  }

  /** An element is inserted only if the refresh has not been initialised. */
  function AddTo(s: State, d: AddAt): State
  {
    match d
    case AddCheck => s.(c := if s.inited then Idle else Add(AddLock))
    case AddLock => s.(c := Add(AddInsert), mutex := Caller)
    case AddInsert => s.(c := Add(AddUnlock))
    case AddUnlock => s.(c := Idle, mutex := Free)
  }

  function InitTo(s: State, i: InitAt, async: bool, ok: bool): State
  {
    match i
    case InitCheck => s.(c := Init(if s.inited then InitDone else InitLock, async))
    case InitLock => s.(c := Init(InitRecheck, async), mutex := Caller)
    case InitRecheck =>
      if s.inited then s.(c := Init(InitUnlock, async)) else s.(c := Init(InitHandler, async), inited := true)
    case InitHandler => s.(c := Init(InitUnlock, async), initOk := s.initOk || ok)
    case InitUnlock => s.(c := Init(InitDone, async), mutex := Free)
    case InitDone => s.(c := if !s.initOk then Idle else if async then Async(AsyncCheck) else Sync(SyncLock))
  }

  function AsyncTo(s: State, a: AsyncAt, ok: bool): State
  {
    match a
    case AsyncCheck => s.(c := Async(if s.asyncInited then AsyncDone else AsyncLock))
    case AsyncLock => s.(c := Async(AsyncRecheck), mutex := Caller)
    case AsyncRecheck =>
      if s.asyncInited then s.(c := Async(AsyncUnlock))
      else s.(c := Async(AsyncCreate), asyncInited := true, running := true)
    case AsyncCreate =>
      if ok then s.(c := Async(AsyncOk), w := Top) else s.(c := Async(AsyncUnlock), running := false)
    case AsyncOk => s.(c := Async(AsyncUnlock), asyncInitOk := true)
    case AsyncUnlock => s.(c := Async(AsyncDone), mutex := Free)
    case AsyncDone => s.(c := if s.asyncInitOk then Post(PostLock) else Idle)
  }

  function PostTo(s: State, p: PostAt): State
  {
    match p
    case PostLock => s.(c := Post(PostDo), mutex := Caller)
    case PostDo => s.(c := Post(PostSignal), request := true)
    case PostSignal => s.(c := Post(PostUnlock), w := Signal(s.w))
    case PostUnlock => s.(c := Idle, mutex := Free)
  }

  function SyncTo(s: State, y: SyncAt): State
  {
    match y
    case SyncLock => s.(c := Sync(SyncRefresh), refreshMutex := Caller)
    case SyncRefresh => s.(c := Sync(SyncUnlock))
    case SyncUnlock => s.(c := Idle, refreshMutex := Free)
  }

  function StopTo(s: State, t: StopAt): State
  {
    match t
    case StopCheck => s.(c := if s.asyncInitOk then Stop(StopLock) else Clear(ResetAsync))
    case StopLock => s.(c := Stop(StopFlag), mutex := Caller)
    case StopFlag => s.(c := Stop(StopSignal), running := false)
    case StopSignal => s.(c := Stop(StopUnlock), w := Signal(s.w))
    case StopUnlock => s.(c := Stop(Joining), mutex := Free)
    case Joining => s.(c := Clear(Joined), w := NoThread)
  }

  function ClearTo(s: State, f: FreeAt): State
  {
    match f
    case Joined => s.(c := Clear(ResetAsync), asyncInitOk := false)
    case ResetAsync => s.(c := Clear(ResetInit), asyncInited := false)
    case ResetInit => s.(c := Clear(FreeLock), initOk := false, inited := false)
    case FreeLock => s.(c := Clear(FreeRefreshLock), mutex := Caller)
    case FreeRefreshLock => s.(c := Clear(Freeing), refreshMutex := Caller)
    case Freeing => s.(c := Clear(FreeRefreshUnlock))
    case FreeRefreshUnlock => s.(c := Clear(FreeUnlock), refreshMutex := Free)
    case FreeUnlock => s.(c := Idle, mutex := Free)
  }

  /**
   * One step of the caller; ok is the outcome of sigaction or pthread_create, next the API function called when
   * idle.
   */
  function CallerTo(s: State, ok: bool, next: CallerAt): State
  {
    match s.c
    case Idle => s.(c := next)
    case Add(d) => AddTo(s, d)
    case Init(i, async) => InitTo(s, i, async, ok)
    case Async(a) => AsyncTo(s, a, ok)
    case Post(p) => PostTo(s, p)
    case Sync(y) => SyncTo(s, y)
    case Stop(t) => StopTo(s, t)
    case Clear(f) => ClearTo(s, f)
  }

  ghost predicate CallerStep(s: State, t: State, ok: bool, next: CallerAt)
  {
    && !CallerWaits(s) && t == CallerTo(s, ok, next)
    && (s.c == Idle ==> next in {Add(AddCheck), Init(InitCheck, true), Init(InitCheck, false), Stop(StopCheck)})
  }

  predicate WorkerWaits(s: State)
  {
    || s.w == NoThread || s.w == Done || s.w == Sleeping(false)
    || ((s.w == Locking || s.w == Sleeping(true)) && s.mutex != Free)
    || (s.w == RefreshLocking && s.refreshMutex != Free)
  }

  function WorkerTo(s: State): State
  {
    match s.w
    case Top => s.(w := if s.running then Locking else Done)
    case Locking => s.(w := Testing, mutex := Worker)
    case Testing => if !s.request && s.running then s.(w := Sleeping(false), mutex := Free) else s.(w := Deciding)
    case Sleeping(_) => s.(w := Testing, mutex := Worker)
    case Deciding => s.(w := if s.running then Taking else Leaving)
    case Leaving => s.(w := Done, mutex := Free)
    case Taking => s.(w := Taken, request := false)
    case Taken => s.(w := RefreshLocking, mutex := Free)
    case RefreshLocking => s.(w := Refreshing, refreshMutex := Worker)
    case Refreshing => s.(w := RefreshUnlocking)
    case RefreshUnlocking => s.(w := Top, refreshMutex := Free)
    case NoThread => s
    case Done => s
  }

  ghost predicate WorkerStep(s: State, t: State)
  {
    !WorkerWaits(s) && t == WorkerTo(s)
  }

  /** A wakeup that no signal caused; POSIX allows it at any time. */
  ghost predicate SpuriousWakeup(s: State, t: State)
  {
    s.w == Sleeping(false) && t == s.(w := Sleeping(true))
  }

  ghost predicate Next(s: State, t: State)
  {
    WorkerStep(s, t) || SpuriousWakeup(s, t) || exists ok, next :: CallerStep(s, t, ok, next)
  }

  /** A finite run of the system from its start, in any interleaving. */
  ghost predicate Run(r: seq<State>)
  {
    && r != [] && r[0] == START
    && forall i {:trigger r[i]} | 0 < i < |r| :: Next(r[i - 1], r[i])
  }

  // ---------- The invariant ----------

  predicate CallerHoldsMutex(c: CallerAt)
  {
    match c
    case Idle => false
    case Add(d) => d == AddInsert || d == AddUnlock
    case Init(i, _) => i == InitRecheck || i == InitHandler || i == InitUnlock
    case Async(a) => a == AsyncRecheck || a == AsyncCreate || a == AsyncOk || a == AsyncUnlock
    case Post(p) => p != PostLock
    case Sync(_) => false
    case Stop(t) => t == StopFlag || t == StopSignal || t == StopUnlock
    case Clear(f) => f == FreeRefreshLock || f == Freeing || f == FreeRefreshUnlock || f == FreeUnlock
  }

  predicate CallerHoldsRefreshMutex(c: CallerAt)
  {
    match c
    case Sync(y) => y != SyncLock
    case Clear(f) => f == Freeing || f == FreeRefreshUnlock
    case _ => false
  }

  predicate WorkerHoldsMutex(w: WorkerAt)
  {
    w == Testing || w == Deciding || w == Leaving || w == Taking || w == Taken
  }

  /** xh_core_clear has told the worker to stop and has not joined it yet. */
  predicate Stopping(c: CallerAt)
  {
    c == Stop(StopSignal) || c == Stop(StopUnlock) || c == Stop(Joining)
  }

  /** The caller has passed xh_core_init_once, or the part of it that sets xh_core_inited. */
  predicate PastInit(c: CallerAt)
  {
    c.Async? || c.Post? || c.Sync? || (c.Init? && (c.i == InitHandler || c.i == InitUnlock || c.i == InitDone))
  }

  ghost predicate Inv(s: State)
  {
    // lock ownership follows the program positions
    && (s.mutex == Caller <==> CallerHoldsMutex(s.c)) && (s.mutex == Worker <==> WorkerHoldsMutex(s.w))
    && (s.refreshMutex == Caller <==> CallerHoldsRefreshMutex(s.c))
    && (s.refreshMutex == Worker <==> s.w == Refreshing || s.w == RefreshUnlocking)
    // the worker exists exactly while asyncInitOk is set, up to the steps that create and join it
    && (s.w != NoThread ==> s.asyncInited && (s.asyncInitOk || s.c == Async(AsyncOk)))
    && (s.asyncInitOk ==> s.asyncInited && (s.w != NoThread || s.c == Clear(Joined)))
    && (s.c == Async(AsyncOk) ==> s.w != NoThread)
    && (s.c == Async(AsyncCreate) ==> s.asyncInited && !s.asyncInitOk && s.running)
    && (s.c.Post? || (s.c.Stop? && s.c.t != StopCheck) ==> s.asyncInitOk)
    && (s.c.Clear? ==> s.w == NoThread && (s.asyncInitOk ==> s.c.f == Joined))
    // xh_core_inited is set while a worker exists or a refresh is on its way, and nothing is inserted then
    && (s.w != NoThread || s.asyncInitOk || PastInit(s.c) ==> s.inited)
    && (s.c.Add? && s.c.d != AddCheck ==> !s.inited)
    // it is asked to run exactly until a stop
    && (s.w != NoThread ==> (s.running <==> !Stopping(s.c)))
    && (s.w == Done || s.w == Leaving ==> !s.running)
    // the flag is set only while a worker exists or is being created
    && (s.running ==> s.w != NoThread || s.c == Async(AsyncCreate))
    // it takes only a request that is there, and never sleeps through a request or a stop
    && (s.w == Taking ==> s.request && s.running) && (s.w == Deciding && s.running ==> s.request)
    && (s.w == Sleeping(false) && s.c != Post(PostSignal) && s.c != Stop(StopSignal) ==> !s.request && s.running)
  }

  lemma InvAddEnter(s: State, t: State, ok: bool, next: CallerAt)
    requires Inv(s) && CallerStep(s, t, ok, next) && (s.c == Add(AddCheck) || s.c == Add(AddLock))
    ensures Inv(t)
  {
  }

  lemma InvAddLeave(s: State, t: State, ok: bool, next: CallerAt)
    requires Inv(s) && CallerStep(s, t, ok, next) && (s.c == Add(AddInsert) || s.c == Add(AddUnlock))
    ensures Inv(t)
  {
  }

  lemma InvIdle(s: State, t: State, ok: bool, next: CallerAt)
    requires Inv(s) && CallerStep(s, t, ok, next) && s.c.Idle?
    ensures Inv(t)
  {
  }

  lemma InvInitEnter(s: State, t: State, ok: bool, next: CallerAt)
    requires Inv(s) && CallerStep(s, t, ok, next) && s.c.Init? && (s.c.i == InitCheck || s.c.i == InitLock)
    ensures Inv(t)
  {
  }

  lemma InvInitBody(s: State, t: State, ok: bool, next: CallerAt)
    requires Inv(s) && CallerStep(s, t, ok, next) && s.c.Init? && (s.c.i == InitRecheck || s.c.i == InitHandler)
    ensures Inv(t)
  {
  }

  lemma InvInitLeave(s: State, t: State, ok: bool, next: CallerAt)
    requires Inv(s) && CallerStep(s, t, ok, next) && s.c.Init? && (s.c.i == InitUnlock || s.c.i == InitDone)
    ensures Inv(t)
  {
  }

  lemma InvAsyncEnter(s: State, t: State, ok: bool, next: CallerAt)
    requires Inv(s) && CallerStep(s, t, ok, next) && (s.c == Async(AsyncCheck) || s.c == Async(AsyncLock))
    ensures Inv(t)
  {
  }

  lemma InvAsyncBody(s: State, t: State, ok: bool, next: CallerAt)
    requires Inv(s) && CallerStep(s, t, ok, next)
    requires (s.c == Async(AsyncRecheck) || s.c == Async(AsyncCreate) || s.c == Async(AsyncOk))
    ensures Inv(t)
  {
  }

  lemma InvAsyncLeave(s: State, t: State, ok: bool, next: CallerAt)
    requires Inv(s) && CallerStep(s, t, ok, next) && (s.c == Async(AsyncUnlock) || s.c == Async(AsyncDone))
    ensures Inv(t)
  {
  }

  lemma InvPost(s: State, t: State, ok: bool, next: CallerAt)
    requires Inv(s) && CallerStep(s, t, ok, next) && s.c.Post?
    ensures Inv(t)
  {
  }

  lemma InvSyncEnter(s: State, t: State, ok: bool, next: CallerAt)
    requires Inv(s) && CallerStep(s, t, ok, next) && s.c == Sync(SyncLock)
    ensures Inv(t)
  {
  }

  lemma InvSyncLeave(s: State, t: State, ok: bool, next: CallerAt)
    requires Inv(s) && CallerStep(s, t, ok, next) && (s.c == Sync(SyncRefresh) || s.c == Sync(SyncUnlock))
    ensures Inv(t)
  {
  }

  lemma InvStopEnter(s: State, t: State, ok: bool, next: CallerAt)
    requires Inv(s) && CallerStep(s, t, ok, next)
    requires (s.c == Stop(StopCheck) || s.c == Stop(StopLock) || s.c == Stop(StopFlag))
    ensures Inv(t)
  {
  }

  lemma InvStopLeave(s: State, t: State, ok: bool, next: CallerAt)
    requires Inv(s) && CallerStep(s, t, ok, next)
    requires (s.c == Stop(StopSignal) || s.c == Stop(StopUnlock) || s.c == Stop(Joining))
    ensures Inv(t)
  {
  }

  lemma InvReset(s: State, t: State, ok: bool, next: CallerAt)
    requires Inv(s) && CallerStep(s, t, ok, next)
    requires (s.c == Clear(Joined) || s.c == Clear(ResetAsync) || s.c == Clear(ResetInit))
    ensures Inv(t)
  {
  }

  lemma InvFree(s: State, t: State, ok: bool, next: CallerAt)
    requires Inv(s) && CallerStep(s, t, ok, next)
    requires (s.c == Clear(FreeLock) || s.c == Clear(FreeRefreshLock) || s.c == Clear(Freeing))
    ensures Inv(t)
  {
  }

  lemma InvFreed(s: State, t: State, ok: bool, next: CallerAt)
    requires Inv(s) && CallerStep(s, t, ok, next) && (s.c == Clear(FreeRefreshUnlock) || s.c == Clear(FreeUnlock))
    ensures Inv(t)
  {
  }

  lemma InvWaiting(s: State, t: State)
    requires Inv(s) && WorkerStep(s, t) && (s.w == Top || s.w == Locking || s.w == Testing)
    ensures Inv(t)
  {
  }

  lemma InvWoken(s: State, t: State)
    requires Inv(s) && WorkerStep(s, t) && (s.w.Sleeping? || s.w == Deciding || s.w == Leaving)
    ensures Inv(t)
  {
  }

  lemma InvTaking(s: State, t: State)
    requires Inv(s) && WorkerStep(s, t) && (s.w == Taking || s.w == Taken)
    ensures Inv(t)
  {
  }

  lemma InvServing(s: State, t: State)
    requires Inv(s) && WorkerStep(s, t) && (s.w == RefreshLocking || s.w == Refreshing || s.w == RefreshUnlocking)
    ensures Inv(t)
  {
  }

  lemma InvCaller(s: State, t: State, ok: bool, next: CallerAt)
    requires Inv(s) && CallerStep(s, t, ok, next)
    ensures Inv(t)
  {
    match s.c
    case Idle => InvIdle(s, t, ok, next);
    case Add(d) =>
      if d == AddCheck || d == AddLock { InvAddEnter(s, t, ok, next); } else { InvAddLeave(s, t, ok, next); }
    case Init(i, _) =>
      if i == InitCheck || i == InitLock { InvInitEnter(s, t, ok, next); }
      else if i == InitRecheck || i == InitHandler { InvInitBody(s, t, ok, next); }
      else { InvInitLeave(s, t, ok, next); }
    case Async(a) =>
      if a == AsyncCheck || a == AsyncLock { InvAsyncEnter(s, t, ok, next); }
      else if a == AsyncUnlock || a == AsyncDone { InvAsyncLeave(s, t, ok, next); }
      else { InvAsyncBody(s, t, ok, next); }
    case Post(_) => InvPost(s, t, ok, next);
    case Sync(y) =>
      if y == SyncLock { InvSyncEnter(s, t, ok, next); } else { InvSyncLeave(s, t, ok, next); }
    case Stop(p) =>
      if p == StopCheck || p == StopLock || p == StopFlag { InvStopEnter(s, t, ok, next); }
      else { InvStopLeave(s, t, ok, next); }
    case Clear(f) =>
      if f == Joined || f == ResetAsync || f == ResetInit { InvReset(s, t, ok, next); }
      else if f == FreeRefreshUnlock || f == FreeUnlock { InvFreed(s, t, ok, next); }
      else { InvFree(s, t, ok, next); }
  }

  lemma InvWorker(s: State, t: State)
    requires Inv(s) && WorkerStep(s, t)
    ensures Inv(t)
  {
    if s.w == Taking || s.w == Taken { InvTaking(s, t); }
    else if s.w == RefreshLocking || s.w == Refreshing || s.w == RefreshUnlocking { InvServing(s, t); }
    else if s.w.Sleeping? || s.w == Deciding || s.w == Leaving { InvWoken(s, t); }
    else { InvWaiting(s, t); }
  }

  lemma InvNext(s: State, t: State)
    requires Inv(s) && Next(s, t)
    ensures Inv(t)
  {
    if WorkerStep(s, t) {
      InvWorker(s, t);
    } else if !SpuriousWakeup(s, t) {
      var ok, next :| CallerStep(s, t, ok, next);
      InvCaller(s, t, ok, next);
    }
  }

  /** The invariant holds in every state of every run. */
  lemma {:induction false} InvAlways(r: seq<State>, i: nat)
    requires Run(r) && i < |r|
    ensures Inv(r[i])
  {
    if i > 0 {
      InvAlways(r, i - 1);
      InvNext(r[i - 1], r[i]);
    }
  }

  // ---------- Safety of every run ----------

  /** With the mutex free, a worker that sleeps unsignalled has no request to serve and is not asked to stop. */
  lemma NoLostWakeup(r: seq<State>, i: nat)
    requires Run(r) && i < |r|
    ensures r[i].mutex == Free && r[i].w == Sleeping(false) ==> !r[i].request && r[i].running
  {
    InvAlways(r, i);
  }

  /** Two refresh bodies never overlap, nor does one overlap the freeing of the lists. */
  lemma RefreshesExclude(r: seq<State>, i: nat)
    requires Run(r) && i < |r|
    ensures r[i].w.Refreshing? ==> r[i].c != Sync(SyncRefresh) && r[i].c != Clear(Freeing)
  {
    InvAlways(r, i);
  }

  /** xh_core_clear frees only after the worker has returned and been joined. */
  lemma FreesAfterExit(r: seq<State>, i: nat)
    requires Run(r) && i < |r|
    ensures r[i].c == Clear(Freeing) ==>
              r[i].w == NoThread && !r[i].asyncInitOk && r[i].mutex == Caller
              && r[i].refreshMutex == Caller
  {
    InvAlways(r, i);
  }

  /** Between two creations of a worker there is a join: a new one is started only when none exists. */
  lemma OneWorker(r: seq<State>, i: nat)
    requires Run(r) && i < |r|
    ensures r[i].c == Async(AsyncCreate) ==> r[i].w == NoThread
  {
    InvAlways(r, i);
  }

  /**
   * The lists of hooks and ignores, which a refresh reads without xh_core_mutex, do not grow while a worker exists or
   * a refresh is on its way: the check of xh_core_inited keeps insertions out, not the mutex.
   */
  lemma NoInsertionBesideWorker(r: seq<State>, i: nat)
    requires Run(r) && i < |r|
    ensures r[i].c == Add(AddInsert) ==> r[i].w == NoThread && !r[i].asyncInitOk && !r[i].inited && r[i].mutex == Caller
  {
    InvAlways(r, i);
  }

  // ---------- Progress of every run ----------

  /** No reachable state is stuck: whenever the caller waits, the worker can go on without a spurious wakeup. */
  lemma NoDeadlock(r: seq<State>, i: nat)
    requires Run(r) && i < |r|
    ensures CallerWaits(r[i]) ==> WorkerStep(r[i], WorkerTo(r[i]))
  {
    InvAlways(r, i);
  }

  /** Steps the worker still needs to return once it is told to stop. */
  function StepsToDone(w: WorkerAt): nat
  {
    match w
    case NoThread => 0
    case Done => 0
    case Top => 1
    case RefreshUnlocking => 2
    case Refreshing => 3
    case RefreshLocking => 4
    case Taken => 5
    case Taking => 6
    case Leaving => 1
    case Deciding => 7
    case Testing => 8
    case Locking => 9
    case Sleeping(_) => 9
  }

  lemma DoneNearer(s: State)
    requires Inv(s) && !s.running && !WorkerWaits(s)
    ensures StepsToDone(WorkerTo(s).w) < StepsToDone(s.w)
  {
  }

  lemma WorkerFree(s: State)
    requires Inv(s) && s.w != NoThread && s.w != Done && (s.c == Stop(Joining) || (s.c == Idle && s.request))
    ensures !WorkerWaits(s)
  {
  }

  /**
   * While xh_core_clear waits to join, the worker is never blocked, and each step of its own brings it nearer to
   * its end.
   */
  lemma JoinEnds(r: seq<State>, i: nat)
    requires Run(r) && i < |r| && r[i].c == Stop(Joining) && r[i].w != Done
    ensures var t := WorkerTo(r[i]); WorkerStep(r[i], t) && StepsToDone(t.w) < StepsToDone(r[i].w)
  {
    InvAlways(r, i);
    WorkerFree(r[i]);
    DoneNearer(r[i]);
  }

  /** The steps of the worker between the states i and j of a run. */
  ghost function WorkerSteps(r: seq<State>, i: nat, j: nat): nat
    requires i <= j < |r|
  {
    if i == j then 0 else WorkerSteps(r, i, j - 1) + if WorkerStep(r[j - 1], r[j]) then 1 else 0
  }

  /** No other step takes the worker further from its end, and the caller goes on waiting. */
  lemma JoinWaits(s: State, t: State)
    requires s.c == Stop(Joining) && s.w != Done && Next(s, t) && !WorkerStep(s, t)
    ensures t.c == Stop(Joining) && StepsToDone(t.w) == StepsToDone(s.w)
  {
    assert CallerWaits(s);
  }

  /** Steps the worker still needs to take a posted request. */
  function StepsToTake(w: WorkerAt): nat
  {
    match w
    case Taking => 1
    case Deciding => 2
    case Testing => 3
    case Locking => 4
    case Sleeping(_) => 4
    case Top => 5
    case RefreshUnlocking => 6
    case Refreshing => 7
    case RefreshLocking => 8
    case Taken => 9
    case Leaving => 10
    case Done => 10
    case NoThread => 10
  }

  lemma TakeNearer(s: State)
    requires Inv(s) && s.running && s.request && !WorkerWaits(s) && s.w != Taking
    ensures WorkerTo(s).request && StepsToTake(WorkerTo(s).w) < StepsToTake(s.w)
  {
  }

  /** A posted request is served: while the caller is idle, each step of the worker takes it or comes nearer to it. */
  lemma RequestServed(r: seq<State>, i: nat)
    requires Run(r) && i < |r| && r[i].c == Idle && r[i].request && r[i].asyncInitOk
    ensures var t := WorkerTo(r[i]);
            && WorkerStep(r[i], t)
            && if r[i].w == Taking then !t.request else t.request && StepsToTake(t.w) < StepsToTake(r[i].w)
  {
    InvAlways(r, i);
    WorkerFree(r[i]);
    if r[i].w != Taking {
      TakeNearer(r[i]);
    }
  }

  // ---------- Bounds on stretches of runs ----------

  lemma NextOf(r: seq<State>, j: nat)
    requires Run(r) && 0 < j < |r|
    ensures Inv(r[j - 1]) && Next(r[j - 1], r[j])
  {
    InvAlways(r, j - 1);
    assert r[j] == r[j];
  }

  lemma JoinStep(s: State, t: State)
    requires Inv(s) && Next(s, t) && s.c == Stop(Joining) && s.w != Done
    ensures t.c == Stop(Joining)
    ensures StepsToDone(t.w) + (if WorkerStep(s, t) then 1 else 0) <= StepsToDone(s.w)
  {
    hide StepsToDone, Next, WorkerWaits;
    assert s.w != NoThread && !s.running;
    if WorkerStep(s, t) {
      DoneNearer(s);
      assert t.c == s.c;
    } else {
      JoinWaits(s, t);
    }
  }

  /** From the stop on, the worker returns after at most nine steps of its own, whatever else happens in between. */
  lemma {:induction false} JoinSoon(r: seq<State>, i: nat, j: nat)
    requires Run(r) && i <= j < |r| && r[i].c == Stop(Joining) && forall k | i <= k < j :: r[k].w != Done
    ensures r[j].c == Stop(Joining)
    ensures WorkerSteps(r, i, j) + StepsToDone(r[j].w) <= StepsToDone(r[i].w) <= 9
  {
    hide Run, Inv, Next, WorkerStep;
    if i < j {
      JoinSoon(r, i, j - 1);
      NextOf(r, j);
      JoinStep(r[j - 1], r[j]);
    }
  }

  // The caller changes the position of the worker only by creating, joining or signalling it.
  lemma AddLeaves(s: State, d: AddAt) ensures AddTo(s, d).w == s.w {}

  lemma InitLeaves(s: State, i: InitAt, async: bool, ok: bool) ensures InitTo(s, i, async, ok).w == s.w {}

  lemma AsyncLeaves(s: State, a: AsyncAt, ok: bool) ensures a != AsyncCreate ==> AsyncTo(s, a, ok).w == s.w {}

  lemma PostSignals(s: State, p: PostAt) ensures PostTo(s, p).w == s.w || PostTo(s, p).w == Signal(s.w) {}

  lemma SyncLeaves(s: State, y: SyncAt) ensures SyncTo(s, y).w == s.w {}

  lemma StopSignals(s: State, t: StopAt)
    ensures t != Joining ==> StopTo(s, t).w == s.w || StopTo(s, t).w == Signal(s.w)
    ensures t == Joining ==> StopTo(s, t).w == NoThread
  {
  }

  lemma ClearLeaves(s: State, f: FreeAt) ensures ClearTo(s, f).w == s.w {}

  lemma CallerMovesWorker(s: State, t: State, ok: bool, next: CallerAt)
    requires CallerStep(s, t, ok, next) && s.c != Async(AsyncCreate) && t.w != NoThread
    ensures t.w == s.w || t.w == Signal(s.w)
  {
    hide Signal, CallerWaits, AddTo, InitTo, AsyncTo, PostTo, SyncTo, StopTo, ClearTo;
    match s.c {
      case Idle =>
      case Add(d) => AddLeaves(s, d);
      case Init(i, async) => InitLeaves(s, i, async, ok);
      case Async(a) => AsyncLeaves(s, a, ok);
      case Post(p) => PostSignals(s, p);
      case Sync(y) => SyncLeaves(s, y);
      case Stop(p) => StopSignals(s, p);
      case Clear(f) => ClearLeaves(s, f);
    }
  }

  lemma TakeStep(s: State, t: State)
    requires Inv(s) && Next(s, t) && s.w != NoThread && s.request && s.running && t.request && t.w != NoThread
    ensures StepsToTake(t.w) + (if WorkerStep(s, t) then 1 else 0) <= StepsToTake(s.w)
  {
    if WorkerStep(s, t) {
      hide Inv, WorkerWaits;
      TakeNearer(s);
    } else if !SpuriousWakeup(s, t) {
      var ok, next :| CallerStep(s, t, ok, next);
      assert s.c != Async(AsyncCreate);
      hide Inv, CallerStep;
      CallerMovesWorker(s, t, ok, next);
    }
  }

  /**
   * A request is taken after at most ten steps of the worker, whatever else the caller does in between short of
   * stopping it: over any stretch of a run with the request pending, the worker makes no more steps than that.
   */
  lemma {:induction false} RequestSoon(r: seq<State>, i: nat, j: nat)
    requires Run(r) && i <= j < |r|
    requires forall k | i <= k <= j :: r[k].request && r[k].running && r[k].w != NoThread
    ensures WorkerSteps(r, i, j) + StepsToTake(r[j].w) <= StepsToTake(r[i].w) <= 10
  {
    hide Run, Inv, Next, WorkerStep;
    if i < j {
      RequestSoon(r, i, j - 1);
      NextOf(r, j);
      TakeStep(r[j - 1], r[j]);
    }
  }

  // ---------- What a call brings about ----------

  /** A request that was taken is still to be refreshed for. */
  predicate Owing(w: WorkerAt)
  {
    w == Taken || w == RefreshLocking
  }

  lemma OwingStep(s: State, t: State)
    requires Inv(s) && Next(s, t) && (s.request || Owing(s.w))
    ensures t.request || Owing(t.w) || t.w == Refreshing
  {
    if WorkerStep(s, t) {
      assert Owing(s.w) ==> Owing(t.w) || t.w == Refreshing;
    } else if !SpuriousWakeup(s, t) {
      var ok, next :| CallerStep(s, t, ok, next);
      OwingCaller(s, t, ok, next);
    }
  }

  lemma OwingCaller(s: State, t: State, ok: bool, next: CallerAt)
    requires Inv(s) && CallerStep(s, t, ok, next)
    ensures s.request ==> t.request
    ensures Owing(s.w) ==> Owing(t.w)
  {
    CallerKeepsRequest(s, t, ok, next);
    if Owing(s.w) {
      assert s.c != Async(AsyncCreate) && s.c != Stop(Joining);
      hide Inv, CallerWaits, AddTo, InitTo, AsyncTo, PostTo, SyncTo, StopTo, ClearTo;
      match s.c {
        case Idle =>
        case Add(d) => AddLeaves(s, d);
        case Init(i, async) => InitLeaves(s, i, async, ok);
        case Async(a) => AsyncLeaves(s, a, ok);
        case Post(p) => PostSignals(s, p);
        case Sync(y) => SyncLeaves(s, y);
        case Stop(p) => StopSignals(s, p);
        case Clear(f) => ClearLeaves(s, f);
      }
    }
  }

  // The caller never takes a request back.
  lemma InitKeeps(s: State, i: InitAt, async: bool, ok: bool) ensures InitTo(s, i, async, ok).request == s.request {}

  lemma AsyncKeeps(s: State, a: AsyncAt, ok: bool) ensures AsyncTo(s, a, ok).request == s.request {}

  lemma PostKeeps(s: State, p: PostAt) ensures s.request ==> PostTo(s, p).request {}

  lemma StopKeeps(s: State, t: StopAt) ensures StopTo(s, t).request == s.request {}

  lemma ClearKeeps(s: State, f: FreeAt) ensures ClearTo(s, f).request == s.request {}

  lemma CallerKeepsRequest(s: State, t: State, ok: bool, next: CallerAt)
    requires CallerStep(s, t, ok, next)
    ensures s.request ==> t.request
  {
    hide CallerWaits, InitTo, AsyncTo, PostTo, StopTo, ClearTo;
    match s.c {
      case Idle =>
      case Add(d) =>
      case Init(i, async) => InitKeeps(s, i, async, ok);
      case Async(a) => AsyncKeeps(s, a, ok);
      case Post(p) => PostKeeps(s, p);
      case Sync(y) =>
      case Stop(p) => StopKeeps(s, p);
      case Clear(f) => ClearKeeps(s, f);
    }
  }

  /**
   * Every request is refreshed for: once it is no longer pending, and the worker is not just on its way to the
   * refresh, a refresh of the worker has begun since.
   */
  lemma {:induction false} RequestRefreshed(r: seq<State>, i: nat, j: nat)
    requires Run(r) && i <= j < |r| && r[i].request
    ensures r[j].request || r[j].w == Taken || r[j].w == RefreshLocking
            || exists k :: i < k <= j && r[k].w == Refreshing
  {
    hide Run, Inv, Next;
    if i < j {
      RequestRefreshed(r, i, j - 1);
      NextOf(r, j);
      if r[j - 1].request || Owing(r[j - 1].w) {
        OwingStep(r[j - 1], r[j]);
      }
    }
  }

  /** A request is taken only by a worker that holds the mutex and has not been asked to stop. */
  lemma TakenWhileRunning(r: seq<State>, i: nat)
    requires Run(r) && 0 < i < |r| && r[i - 1].request && !r[i].request
    ensures r[i - 1].running && r[i - 1].mutex == Worker
  {
    hide Run;
    var s, t := r[i - 1], r[i];
    NextOf(r, i);
    if !WorkerStep(s, t) && !SpuriousWakeup(s, t) {
      hide Inv, CallerStep;
      var ok, next :| CallerStep(s, t, ok, next);
      CallerKeepsRequest(s, t, ok, next);
    }
  }

  /** The states between i and j belong to one call of the API, which is over at j. */
  ghost predicate Call(r: seq<State>, i: nat, j: nat, start: CallerAt)
  {
    Run(r) && i < j < |r| && r[i].c == start && forall k | i <= k < j :: r[k].c != Idle
  }

  /** The caller and its flags are left alone. */
  predicate SameCaller(s: State, t: State)
  {
    && t.c == s.c && t.inited == s.inited && t.initOk == s.initOk
    && t.asyncInited == s.asyncInited && t.asyncInitOk == s.asyncInitOk
  }

  lemma WaitingLeavesCaller(s: State)
    requires s.w == NoThread || s.w == Top || s.w == Locking || s.w == Testing || s.w.Sleeping? || s.w == Done
    ensures SameCaller(s, WorkerTo(s))
  {
  }

  lemma ServingLeavesCaller(s: State)
    requires s.w == Deciding || s.w == Leaving || s.w == Taking || s.w == Taken
             || s.w == RefreshLocking || s.w == Refreshing || s.w == RefreshUnlocking
    ensures SameCaller(s, WorkerTo(s))
  {
  }

  lemma WorkerLeavesCaller(s: State)
    ensures SameCaller(s, WorkerTo(s))
  {
    hide SameCaller, WorkerTo;
    if s.w == NoThread || s.w == Top || s.w == Locking || s.w == Testing || s.w.Sleeping? || s.w == Done {
      WaitingLeavesCaller(s);
    } else {
      ServingLeavesCaller(s);
    }
  }

  /** A step is one of the caller, or leaves the caller and its flags alone. */
  lemma MovedBy(s: State, t: State) returns (ok: bool, next: CallerAt)
    requires Next(s, t)
    ensures SameCaller(s, t) || CallerStep(s, t, ok, next)
    ensures s.w == NoThread ==> CallerStep(s, t, ok, next)
  {
    hide CallerStep, WorkerTo;
    ok, next := true, Idle;
    if WorkerStep(s, t) {
      WorkerLeavesCaller(s);
    } else if !SpuriousWakeup(s, t) {
      ok, next :| CallerStep(s, t, ok, next);
    }
  }

  lemma InitMoves(s: State, t: State)
    requires Next(s, t) && s.c.Init?
    ensures t.c.Init? ==> t.c.async == s.c.async
    ensures !t.c.Init? ==>
              if t.initOk then t.c == if s.c.async then Async(AsyncCheck) else Sync(SyncLock) else t.c == Idle
  {
    hide Next, CallerWaits, InitTo;
    var ok, next := MovedBy(s, t);
    InitGoes(s, s.c.i, s.c.async, ok);
  }

  lemma InitGoes(s: State, i: InitAt, async: bool, ok: bool)
    ensures var t := InitTo(s, i, async, ok);
            if i != InitDone then t.c.Init? && t.c.async == async
            else t.c == if !t.initOk then Idle else if async then Async(AsyncCheck) else Sync(SyncLock)
  {
  }

  lemma SyncMoves(s: State, t: State)
    requires Next(s, t) && s.c.Sync?
    ensures t.initOk == s.initOk
    ensures t.c == s.c || (s.c.y == SyncLock && t.c == Sync(SyncRefresh))
            || (s.c.y == SyncRefresh && t.c == Sync(SyncUnlock)) || (s.c.y == SyncUnlock && t.c == Idle)
  {
    hide Next, CallerWaits;
    var ok, next := MovedBy(s, t);
  }

  /** The caller has refreshed itself between i and j. */
  ghost predicate Synced(r: seq<State>, i: nat, j: nat)
    requires j < |r|
  {
    exists k :: i < k <= j && r[k].c == Sync(SyncRefresh)
  }

  lemma SyncedNext(r: seq<State>, i: nat, j: nat)
    requires i < j < |r|
    ensures Synced(r, i, j) <==> Synced(r, i, j - 1) || r[j].c == Sync(SyncRefresh)
  {
  }

  /** Where a synchronous xh_core_refresh stands: before its refresh, past it, or ended for want of initialisation. */
  lemma {:induction false} SyncTrace(r: seq<State>, i: nat, j: nat)
    requires Call(r, i, j, Init(InitCheck, false))
    ensures || (r[j].c.Init? && !r[j].c.async && !Synced(r, i, j))
            || (r[j].c == Sync(SyncLock) && r[j].initOk && !Synced(r, i, j))
            || (r[j].c == Idle && !r[j].initOk && !Synced(r, i, j))
            || ((r[j].c.Sync? || r[j].c == Idle) && r[j].initOk && Synced(r, i, j))
  {
    hide Run, Inv, Next, Synced;
    NextOf(r, j);
    SyncedNext(r, i, j);
    if j - 1 > i {
      SyncTrace(r, i, j - 1);
    } else {
      assert !Synced(r, i, i) by { NotYetSynced(r, i); }
    }
    if r[j - 1].c.Init? {
      InitMoves(r[j - 1], r[j]);
    } else {
      SyncMoves(r[j - 1], r[j]);
    }
  }

  lemma NotYetSynced(r: seq<State>, i: nat)
    requires i < |r|
    ensures !Synced(r, i, i)
  {
  }

  /** A synchronous xh_core_refresh that is over has refreshed exactly if the initialisation has succeeded. */
  lemma SyncCallRefreshes(r: seq<State>, i: nat, j: nat)
    requires Call(r, i, j, Init(InitCheck, false)) && r[j].c == Idle
    ensures (exists k :: i < k < j && r[k].c == Sync(SyncRefresh)) <==> r[j].initOk
  {
    hide Run;
    SyncTrace(r, i, j);
  }

  lemma AsyncGoes(s: State, a: AsyncAt, ok: bool)
    ensures var t := AsyncTo(s, a, ok);
            if a != AsyncDone then t.c.Async? else t.c == if t.asyncInitOk then Post(PostLock) else Idle
  {
  }

  lemma AsyncMoves(s: State, t: State)
    requires Next(s, t) && s.c.Async?
    ensures t.c.Async? || (if t.asyncInitOk then t.c == Post(PostLock) else t.c == Idle)
  {
    hide Next, CallerWaits, AsyncTo;
    var ok, next := MovedBy(s, t);
    AsyncGoes(s, s.c.a, ok);
  }

  lemma PostMoves(s: State, t: State)
    requires Next(s, t) && s.c.Post?
    ensures t.c == s.c || (s.c.p == PostLock && t.c == Post(PostDo))
            || (s.c.p == PostDo && t.c == Post(PostSignal) && t.request)
            || (s.c.p == PostSignal && t.c == Post(PostUnlock)) || (s.c.p == PostUnlock && t.c == Idle)
  {
    hide Next, CallerWaits;
    var ok, next := MovedBy(s, t);
  }

  /** Where an asynchronous xh_core_refresh stands: before it posts, past it, or ended for want of initialisation. */
  lemma {:induction false} AsyncTrace(r: seq<State>, i: nat, j: nat)
    requires Call(r, i, j, Init(InitCheck, true))
    ensures || (r[j].c.Init? && r[j].c.async) || r[j].c.Async? || r[j].c == Post(PostLock) || r[j].c == Post(PostDo)
            || (r[j].c == Idle && (!r[j].initOk || !r[j].asyncInitOk))
            || ((r[j].c.Post? || r[j].c == Idle)
                && exists k :: i < k <= j && r[k].c == Post(PostSignal) && r[k].request)
  {
    hide Run, Inv, Next;
    NextOf(r, j);
    if j - 1 > i {
      AsyncTrace(r, i, j - 1);
    }
    if r[j - 1].c.Init? {
      InitMoves(r[j - 1], r[j]);
    } else if r[j - 1].c.Async? {
      AsyncMoves(r[j - 1], r[j]);
    } else {
      PostMoves(r[j - 1], r[j]);
    }
  }

  /**
   * An asynchronous xh_core_refresh that is over has posted a request, unless the initialisation or the creation of
   * the worker failed; and by any later time at which no request is pending and the worker is not just on its way to
   * the refresh, the worker has begun a refresh since then.
   */
  lemma AsyncCallRefreshes(r: seq<State>, i: nat, j: nat, n: nat)
    requires Call(r, i, j, Init(InitCheck, true)) && r[j].c == Idle && r[j].initOk && r[j].asyncInitOk
    requires j <= n < |r| && !r[n].request && r[n].w != Taken && r[n].w != RefreshLocking
    ensures exists k, m :: i < k < j && k < m <= n && r[k].c == Post(PostSignal) && r[k].request && r[m].w == Refreshing
  {
    hide Run;
    AsyncTrace(r, i, j);
    var k :| i < k < j && r[k].c == Post(PostSignal) && r[k].request;
    RequestRefreshed(r, k, n);
  }

  lemma StopMoves(s: State, t: State)
    requires Inv(s) && Next(s, t) && s.c.Stop?
    ensures t.c.Stop? || t.c == Clear(Joined) || (t.c == Clear(ResetAsync) && !t.asyncInitOk)
  {
    hide Next, CallerWaits;
    var ok, next := MovedBy(s, t);
  }

  /** How far the flags are reset at each place behind the join. */
  predicate ClearedTo(s: State)
  {
    match s.c
    case Clear(f) =>
      && s.w == NoThread
      && (f != Joined ==> !s.asyncInitOk)
      && (f != Joined && f != ResetAsync ==> !s.asyncInited)
      && (f != Joined && f != ResetAsync && f != ResetInit ==> !s.inited && !s.initOk)
    case _ => true
  }

  /** The caller has come to the freeing of the lists, or past it. */
  predicate Freed(c: CallerAt)
  {
    c == Clear(Freeing) || c == Clear(FreeRefreshUnlock) || c == Clear(FreeUnlock)
  }

  lemma ClearGoes(s: State, f: FreeAt)
    requires s.c == Clear(f) && ClearedTo(s)
    ensures ClearedTo(ClearTo(s, f)) && (ClearTo(s, f).c.Clear? || f == FreeUnlock)
    ensures f == FreeUnlock ==>
              var t := ClearTo(s, f);
              t.c == Idle && t.w == NoThread && !t.inited && !t.initOk && !t.asyncInited && !t.asyncInitOk
    ensures Freed(ClearTo(s, f).c) || f == FreeUnlock ==> Freed(s.c) || ClearTo(s, f).c == Clear(Freeing)
  {
  }

  lemma ClearMoves(s: State, t: State)
    requires Next(s, t) && s.c.Clear? && ClearedTo(s)
    ensures ClearedTo(t) && (t.c.Clear? || t.c == Idle)
    ensures t.c == Idle ==> t.w == NoThread && !t.inited && !t.initOk && !t.asyncInited && !t.asyncInitOk
    ensures Freed(t.c) || t.c == Idle ==> Freed(s.c) || t.c == Clear(Freeing)
  {
    hide Next, CallerWaits, ClearTo, Freed;
    var ok, next := MovedBy(s, t);
    ClearGoes(s, s.c.f);
  }

  lemma {:induction false} ClearTrace(r: seq<State>, i: nat, j: nat)
    requires Call(r, i, j, Stop(StopCheck))
    ensures r[j].c.Stop? || (r[j].c.Clear? && ClearedTo(r[j])) || r[j].c == Idle
    ensures Freed(r[j].c) || r[j].c == Idle ==> exists k :: i < k <= j && r[k].c == Clear(Freeing)
    ensures r[j].c == Idle ==>
              r[j].w == NoThread && !r[j].inited && !r[j].initOk && !r[j].asyncInited && !r[j].asyncInitOk
  {
    hide Run, Inv, Next, ClearedTo;
    NextOf(r, j);
    if j - 1 > i {
      ClearTrace(r, i, j - 1);
    }
    if r[j - 1].c.Stop? {
      InvAlways(r, j);
      StopMoves(r[j - 1], r[j]);
      StopCleared(r[j]);
    } else {
      ClearMoves(r[j - 1], r[j]);
    }
  }

  lemma StopCleared(t: State)
    requires Inv(t) && (t.c.Stop? || t.c == Clear(Joined) || (t.c == Clear(ResetAsync) && !t.asyncInitOk))
    ensures t.c.Stop? || ClearedTo(t)
    ensures !Freed(t.c) && t.c != Idle
  {
  }

  /** An xh_core_clear that is over has freed the lists, and left no worker and nothing initialised. */
  lemma ClearCallFrees(r: seq<State>, i: nat, j: nat)
    requires Call(r, i, j, Stop(StopCheck)) && r[j].c == Idle
    ensures exists k :: i < k < j && r[k].c == Clear(Freeing)
    ensures r[j].w == NoThread && !r[j].inited && !r[j].initOk && !r[j].asyncInited && !r[j].asyncInitOk
  {
    hide Run;
    ClearTrace(r, i, j);
  }

  lemma AddMoves(s: State, t: State)
    requires Next(s, t) && s.c.Add?
    ensures t.inited == s.inited
    ensures t.c == s.c || (s.c.d == AddCheck && t.c == if s.inited then Idle else Add(AddLock))
            || (s.c.d == AddLock && t.c == Add(AddInsert)) || (s.c.d == AddInsert && t.c == Add(AddUnlock))
            || (s.c.d == AddUnlock && t.c == Idle)
  {
    hide Next, CallerWaits;
    var ok, next := MovedBy(s, t);
  }

  lemma {:induction false} AddTrace(r: seq<State>, i: nat, j: nat)
    requires Call(r, i, j, Add(AddCheck))
    ensures r[j].inited == r[i].inited && (r[j].c.Add? || r[j].c == Idle)
    ensures r[i].inited ==> r[j].c == Add(AddCheck) || r[j].c == Idle
    ensures !r[i].inited && r[j].c != Add(AddCheck) && r[j].c != Add(AddLock) ==>
              exists k :: i < k <= j && r[k].c == Add(AddInsert)
  {
    hide Run, Inv, Next;
    NextOf(r, j);
    if j - 1 > i {
      AddTrace(r, i, j - 1);
    }
    AddMoves(r[j - 1], r[j]);
  }

  /** An xh_core_register or xh_core_ignore that is over has inserted its element exactly if nothing was initialised. */
  lemma AddCallInserts(r: seq<State>, i: nat, j: nat)
    requires Call(r, i, j, Add(AddCheck)) && r[j].c == Idle
    ensures (exists k :: i < k < j && r[k].c == Add(AddInsert)) <==> !r[i].inited
  {
    hide Run;
    AddTrace(r, i, j);
    if r[i].inited {
      forall k | i < k < j
        ensures r[k].c != Add(AddInsert)
      {
        AddTrace(r, i, k);
      }
    }
  }

  // ---------- Runs there are ----------

  function Last(r: seq<State>): State
    requires r != []
  {
    r[|r| - 1]
  }

  /** A step of the caller; ok tells whether sigaction or pthread_create succeed in it. */
  lemma ByCaller(r: seq<State>, ok: bool, next: CallerAt) returns (r': seq<State>)
    requires Run(r) && CallerStep(Last(r), CallerTo(Last(r), ok, next), ok, next)
    ensures Run(r') && |r'| == |r| + 1 && Last(r') == CallerTo(Last(r), ok, next)
  {
    r' := r + [CallerTo(Last(r), ok, next)];
    Extended(r, Last(r'));
  }

  lemma ByWorker(r: seq<State>) returns (r': seq<State>)
    requires Run(r) && !WorkerWaits(Last(r))
    ensures Run(r') && |r'| == |r| + 1 && Last(r') == WorkerTo(Last(r))
  {
    r' := r + [WorkerTo(Last(r))];
    Extended(r, Last(r'));
  }

  lemma Extended(r: seq<State>, t: State)
    requires Run(r) && Next(Last(r), t)
    ensures Run(r + [t])
  {
    hide Next;
    var all := r + [t];
    forall i | 0 < i < |all|
      ensures Next(all[i - 1], all[i])
    {
      if i < |r| {
        assert all[i - 1] == r[i - 1] && all[i] == r[i];
      }
    }
  }

  /** xh_core_init_once on a fresh process, up to the call of sigaction. */
  lemma HandlerRun(async: bool) returns (r': seq<State>)
    ensures Run(r') && Last(r') == START.(c := Init(InitHandler, async), mutex := Caller, inited := true)
  {
    hide Run;
    r' := [START];
    assert Run(r') by { StartRuns(); }
    r' := ByCaller(r', true, Init(InitCheck, async));
    r' := ByCaller(r', true, Idle);
    r' := ByCaller(r', true, Idle);
    r' := ByCaller(r', true, Idle);
  }

  /** xh_core_init_once on a fresh process. */
  lemma InitRun(async: bool) returns (r': seq<State>)
    ensures Run(r')
    ensures Last(r') == State(if async then Async(AsyncCheck) else Sync(SyncLock), NoThread, Free, Free,
                              true, true, false, false, false, false)
  {
    hide Run;
    r' := HandlerRun(async);
    r' := ByCaller(r', true, Idle);
    r' := ByCaller(r', true, Idle);
    r' := ByCaller(r', true, Idle);
  }

  /** When sigaction fails, the refresh ends without having done anything, and the initialisation is not tried again. */
  lemma InitFailureRuns(async: bool)
    ensures exists r :: Run(r) && Last(r) == START.(inited := true)
  {
    hide Run;
    var r := HandlerRun(async);
    r := ByCaller(r, false, Idle);
    r := ByCaller(r, true, Idle);
    r := ByCaller(r, true, Idle);
    assert Last(r) == START.(inited := true);
  }

  lemma StartRuns()
    ensures Run([START])
  {
  }

  /** A synchronous refresh is reachable. */
  lemma SyncRefreshRuns()
    ensures exists r :: Run(r) && Last(r).c == Sync(SyncRefresh)
  {
    hide Run;
    var r := InitRun(false);
    r := ByCaller(r, true, Idle);
    assert Last(r).c == Sync(SyncRefresh);
  }

  /** xh_core_init_async_once on a fresh process, up to the call of pthread_create. */
  lemma CreateRun() returns (r': seq<State>)
    ensures Run(r')
    ensures Last(r') == State(Async(AsyncCreate), NoThread, Caller, Free, true, true, true, false, true, false)
  {
    hide Run;
    r' := InitRun(true);
    r' := ByCaller(r', true, Idle);
    r' := ByCaller(r', true, Idle);
    r' := ByCaller(r', true, Idle);
  }

  /** xh_core_init_async_once on a fresh process. */
  lemma AsyncRun() returns (r': seq<State>)
    ensures Run(r') && Last(r') == State(Post(PostLock), Top, Free, Free, true, true, true, true, true, false)
  {
    hide Run;
    r' := CreateRun();
    r' := ByCaller(r', true, Idle);
    r' := ByCaller(r', true, Idle);
    r' := ByCaller(r', true, Idle);
    r' := ByCaller(r', true, Idle);
  }

  /** When pthread_create fails, the refresh ends without a worker or a request, and creation is not tried again. */
  lemma CreateFailureRuns()
    ensures exists r :: Run(r) && Last(r) == START.(inited := true, initOk := true, asyncInited := true)
  {
    hide Run;
    var r := CreateRun();
    r := ByCaller(r, false, Idle);
    r := ByCaller(r, true, Idle);
    r := ByCaller(r, true, Idle);
    assert Last(r) == START.(inited := true, initOk := true, asyncInited := true);
  }

  /** After an asynchronous refresh is asked for, a worker refreshes while the caller is idle again. */
  lemma AsyncRefreshRuns()
    ensures exists r :: Run(r) && Last(r).w == Refreshing && Last(r).c == Idle
  {
    hide Run;
    var r := AsyncRun();
    r := ByCaller(r, true, Idle);
    r := ByCaller(r, true, Idle);
    r := ByCaller(r, true, Idle);
    r := ByCaller(r, true, Idle);
    assert Last(r) == State(Idle, Top, Free, Free, true, true, true, true, true, true);
    r := ByWorker(r);
    r := ByWorker(r);
    r := ByWorker(r);
    r := ByWorker(r);
    r := ByWorker(r);
    r := ByWorker(r);
    r := ByWorker(r);
    assert Last(r).w == Refreshing && Last(r).c == Idle;
  }
}
