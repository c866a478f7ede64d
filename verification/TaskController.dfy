/** The batch-processing protocol (TaskController.cpp:34-78 and 111-127, Task.cpp:16-69): worker
threads claim indices with an atomic fetch-and-add, meet at a barrier, and the completion of the
barrier runs a two-phase machine that takes batches from a queue. A small-step system, with one
step for each access to the shared counter and phase, to the barrier and to the queue. The body
that handles one index is one step too: slots of different indices are disjoint (`WorkKept`), so
how bodies overlap does not matter. Runs before `stop`. */
module TaskController {
  import Sorting
  import opened SizeKey

  // ------------------------------------------------------------------------------ state

  /** What the protocol is instantiated with. `keyOf` is `Transaction::createSizeKey`, `policy`
  the business function. */
  datatype Env = Env(workers: nat, sortInput: bool, keyOf: string -> Key, policy: (string, Key) -> string)

  datatype Phase = Preprocess | Process

  /** `Task`: a batch of requests. `_size` is the number of inputs. */
  datatype Task = Task(
    inputs: seq<string>,
    keys: seq<Key>,
    order: seq<nat>,       // _sortedIndices
    response: seq<string>,
    index: nat,            // the atomic counter
    fulfilled: bool        // the promise
  ) {
    function Size(): nat {
      |inputs|
    }
  }

  /** Where a worker is in `Worker::run`. */
  datatype Worker =
    | Top                                  // about to read the phase
    | Loop(phase: Phase)                   // about to fetch an index
    | Claimed(phase: Phase, index: nat)    // holds an index
    | Recheck(phase: Phase)                // about to compare _index with _size
    | Arrived                              // at the barrier

  /** Where the owner of a task is in `TaskController::processTask`. */
  datatype Session = Idle | Waiting

  datatype State = State(
    phase: Phase,
    workers: seq<Worker>,
    tasks: seq<Task>,
    sessions: seq<Session>,
    current: nat,          // _task
    queue: seq<nat>,
    fetching: bool,        // the completion waits for the next task
    owner: seq<nat>,       // history: the worker that got each index in this phase
    done: seq<nat>,        // history: how often each index was worked on in this phase
    pushed: seq<nat>,      // history: tasks in push order
    finished: seq<nat>     // history: tasks in the order their promises were kept
  ) {
    function Cur(): Task
      requires current < |tasks|
    {
      tasks[current]
    }

    function WithTask(t: nat, task: Task): State
      requires t < |tasks|
    {
      this.(tasks := tasks[t := task])
    }

    function WithWorker(w: nat, pc: Worker): State
      requires w < |workers|
    {
      this.(workers := workers[w := pc])
    }
  }

  /** Task 0 is the empty task that the controller starts with; the others belong to sessions. */
  ghost predicate Init(env: Env, s: State) {
    && env.workers > 0
    && s.phase == Preprocess && s.workers == seq(env.workers, _ => Top)
    && |s.tasks| == |s.sessions| > 0 && s.current == 0 && s.queue == [] && !s.fetching
    && (forall t :: 0 <= t < |s.tasks| ==> s.tasks[t] == Task([], [], [], [], 0, false))
    && (forall t :: 0 <= t < |s.tasks| ==> s.sessions[t] == if t == 0 then Waiting else Idle)
    && s.owner == [] && s.done == [] && s.pushed == [0] && s.finished == []
  }

  // ------------------------------------------------------------------------------ steps

  datatype Step =
    | ReadPhase(w: nat)
    | Claim(w: nat)                 // index = _index.fetch_add(1)
    | Work(w: nat)                  // the body guarded by index < _size
    | Check(w: nat)                 // return _index < _size
    | Sort(order: seq<nat>)         // completion of the first phase
    | Finish                        // completion of the second phase: keep the promise
    | Fetch                         // completion of the second phase: take the next task
    | Push(t: nat, inputs: seq<string>, keys: seq<Key>, order: seq<nat>, response: seq<string>)  // update and push
    | Return(t: nat)                // processTask returns

  ghost predicate AllArrived(s: State) {
    forall w :: 0 <= w < |s.workers| ==> s.workers[w] == Arrived
  }

  /** What `std::sort` may leave in `_sortedIndices`: any order of the same indices with no pair
  the wrong way round. */
  ghost predicate IsSortOf(t: Task, order: seq<nat>) {
    multiset(order) == multiset(t.order)
    && (forall i, j :: 0 <= i < j < |order| && order[i] < |t.keys| && order[j] < |t.keys|
          ==> !Before(t.keys[order[j]], t.keys[order[i]]))
  }

  /** Sorting brings requests with equal keys together. */
  lemma EqualKeysTogether(t: Task, order: seq<nat>, i: nat, j: nat, k: nat)
    requires IsSortOf(t, order) && i <= j <= k < |order|
    requires order[i] < |t.keys| && order[j] < |t.keys| && order[k] < |t.keys| && t.keys[order[i]] == t.keys[order[k]]
    ensures t.keys[order[j]] == t.keys[order[i]]
  {
    if i < j < k {
      assert !Before(t.keys[order[j]], t.keys[order[i]]) && !Before(t.keys[order[k]], t.keys[order[j]]);
    }
  }

  /** `update` leaves stale keys and responses; the sorted indices are used in sort mode only. */
  ghost predicate IsUpdate(env: Env, step: Step)
    requires step.Push?
  {
    |step.keys| == |step.inputs| && |step.response| == |step.inputs|
    && step.order == if env.sortInput then seq(|step.inputs|, i => i) else []
  }

  ghost predicate Enabled(env: Env, s: State, step: Step)
    requires s.current < |s.tasks| && |s.tasks| == |s.sessions|
  {
    match step
    case ReadPhase(w) => w < |s.workers| && s.workers[w] == Top
    case Claim(w) => w < |s.workers| && s.workers[w].Loop?
    case Work(w) => w < |s.workers| && s.workers[w].Claimed?
    case Check(w) => w < |s.workers| && s.workers[w].Recheck?
    case Sort(order) => AllArrived(s) && !s.fetching && s.phase == Preprocess && IsSortOf(s.Cur(), order)
    case Finish => AllArrived(s) && !s.fetching && s.phase == Process
    case Fetch => s.fetching && s.queue != []
    case Push(t, _, _, _, _) => 0 < t < |s.tasks| && s.sessions[t] == Idle && IsUpdate(env, step)
    case Return(t) => 0 < t < |s.tasks| && s.sessions[t] == Waiting && s.tasks[t].fulfilled
  }

  /** Which request an index stands for in the second phase. */
  function Target(env: Env, t: Task, i: nat): nat {
    if env.sortInput && i < |t.order| then t.order[i] else i
  }

  function Worked(env: Env, phase: Phase, t: Task, i: nat): Task
    requires |t.keys| == |t.response| == |t.inputs|
  {
    if i >= t.Size() then t
    else
      match phase
      case Preprocess => t.(keys := t.keys[i := env.keyOf(t.inputs[i])])
      case Process =>
        var k := Target(env, t, i);
        if k >= t.Size() then t else t.(response := t.response[k := env.policy(t.inputs[k], t.keys[k])])
  }

  ghost predicate Shaped(env: Env, s: State) {
    && |s.workers| == env.workers > 0
    && |s.tasks| == |s.sessions| && s.current < |s.tasks|
    && (forall t :: t in s.queue ==> t < |s.tasks|)
    && (forall t :: 0 <= t < |s.tasks| ==> |s.tasks[t].keys| == |s.tasks[t].response| == |s.tasks[t].inputs|)
    && |s.done| == s.Cur().Size()
  }

  /** Everyone leaves the barrier; the counter is reset. */
  function Release(s: State, phase: Phase): State
    requires s.current < |s.tasks|
  {
    s.WithTask(s.current, s.Cur().(index := 0))
     .(phase := phase, workers := seq(|s.workers|, _ => Top), owner := [], done := seq(s.Cur().Size(), _ => 0))
  }

  ghost function Apply(env: Env, s: State, step: Step): State
    requires Shaped(env, s) && Enabled(env, s, step)
  {
    match step
    case ReadPhase(w) => s.WithWorker(w, Loop(s.phase))
    case Claim(w) =>
      s.WithWorker(w, Claimed(s.workers[w].phase, s.Cur().index))
       .WithTask(s.current, s.Cur().(index := s.Cur().index + 1)).(owner := s.owner + [w])
    case Work(w) =>
      var i := s.workers[w].index;
      s.WithWorker(w, Recheck(s.workers[w].phase))
       .WithTask(s.current, Worked(env, s.workers[w].phase, s.Cur(), i))
       .(done := if i < |s.done| then s.done[i := s.done[i] + 1] else s.done)
    case Check(w) =>
      s.WithWorker(w, if s.Cur().index < s.Cur().Size() then Loop(s.workers[w].phase) else Arrived)
    case Sort(order) => Release(s.WithTask(s.current, s.Cur().(order := order)), Process)
    case Finish =>
      s.WithTask(s.current, s.Cur().(fulfilled := true)).(fetching := true, finished := s.finished + [s.current])
    case Fetch =>
      assert s.queue[0] in s.queue;
      Release(s.(current := s.queue[0], queue := s.queue[1..], fetching := false), Preprocess)
    case Push(t, inputs, keys, order, response) =>
      var task := Task(inputs, keys, order, response, s.tasks[t].index, false);
      s.WithTask(t, task).(sessions := s.sessions[t := Waiting], queue := s.queue + [t], pushed := s.pushed + [t],
                           done := if t == s.current then seq(|inputs|, _ => 0) else s.done)
    case Return(t) => s.(sessions := s.sessions[t := Idle])
  }

  // --------------------------------------------------------------------------- invariant

  ghost predicate InPhase(pc: Worker, phase: Phase) {
    (pc.Loop? || pc.Claimed? || pc.Recheck?) ==> pc.phase == phase
  }

  /** All workers run the phase the controller is in. */
  ghost predicate SamePhase(s: State) {
    forall w :: 0 <= w < |s.workers| ==> InPhase(s.workers[w], s.phase)
  }

  ghost predicate Holds(s: State, w: nat, i: nat) {
    w < |s.workers| && s.workers[w].Claimed? && s.workers[w].index == i
  }

  /** Every index below _index was fetched by one worker, which holds it or is done with it. */
  ghost predicate ClaimsLogged(s: State)
    requires s.current < |s.tasks|
  {
    && |s.owner| == s.Cur().index
    && (forall i :: 0 <= i < |s.owner| ==> s.owner[i] < |s.workers|)
    && (forall w :: 0 <= w < |s.workers| && s.workers[w].Claimed? ==>
          s.workers[w].index < |s.owner| && s.owner[s.workers[w].index] == w)
    && (forall i :: 0 <= i < |s.done| ==>
          s.done[i] == if i < |s.owner| && !Holds(s, s.owner[i], i) then 1 else 0)
  }

  /** A worker that got an index past the end does not fetch again in this phase. */
  ghost predicate OvershootOnce(s: State)
    requires s.current < |s.tasks|
  {
    && (forall i :: s.Cur().Size() <= i < |s.owner| && s.owner[i] < |s.workers| ==>
          Holds(s, s.owner[i], i) || s.workers[s.owner[i]].Recheck? || s.workers[s.owner[i]].Arrived?)
    && (forall i, j :: s.Cur().Size() <= i < j < |s.owner| ==> s.owner[i] != s.owner[j])
    && (forall w :: 0 <= w < |s.workers| && s.workers[w].Arrived? ==> s.Cur().Size() <= s.Cur().index)
  }

  /** The order is a permutation of the indices. */
  ghost predicate IsPermutation(order: seq<nat>, n: nat) {
    multiset(order) == multiset(seq(n, i => i))
  }

  ghost predicate OrderFits(env: Env, t: Task) {
    if env.sortInput then IsPermutation(t.order, t.Size()) else t.order == []
  }

  /** What the work done so far has put into the current task. */
  ghost predicate WorkStored(env: Env, s: State)
    requires Shaped(env, s)
  {
    var t := s.Cur();
    && OrderFits(env, t)
    && (forall i :: 0 <= i < t.Size() && (s.phase == Process || s.done[i] > 0) ==> t.keys[i] == env.keyOf(t.inputs[i]))
    && (s.phase == Process ==> forall i :: 0 <= i < t.Size() && s.done[i] > 0 ==> Answered(env, t, Target(env, t, i)))
  }

  ghost predicate Answered(env: Env, t: Task, k: nat) {
    k < |t.response| == |t.inputs| && t.response[k] == env.policy(t.inputs[k], env.keyOf(t.inputs[k]))
  }

  /** Every slot holds the result of the last update. */
  ghost predicate FullyAnswered(env: Env, t: Task) {
    |t.response| == |t.inputs| && forall k :: 0 <= k < |t.inputs| ==> Answered(env, t, k)
  }

  ghost predicate Outstanding(s: State, t: nat) {
    t in s.queue || (t == s.current && !s.fetching)
  }

  ghost predicate NoDuplicates(q: seq<nat>) {
    forall i, j :: 0 <= i < j < |q| ==> q[i] != q[j]
  }

  /** Tasks between push and return. */
  ghost predicate HandedOff(env: Env, s: State)
    requires Shaped(env, s)
  {
    && NoDuplicates(s.queue) && (s.fetching || s.current !in s.queue)
    && (s.fetching ==> AllArrived(s) && s.phase == Process)
    && (forall t :: 0 <= t < |s.tasks| && Outstanding(s, t) ==> s.sessions[t] == Waiting && !s.tasks[t].fulfilled)
    && (forall t :: 0 <= t < |s.tasks| && s.sessions[t] == Waiting && !Outstanding(s, t) ==>
          s.tasks[t].fulfilled && FullyAnswered(env, s.tasks[t]))
    && (forall t :: t in s.queue ==> OrderFits(env, s.tasks[t]))
    && s.pushed == s.finished + (if s.fetching then [] else [s.current]) + s.queue
  }

  /** While the controller waits for a task, nothing is known of the one it is done with: its
  owner may be updating it. */
  ghost predicate Inv(env: Env, s: State) {
    && Shaped(env, s) && HandedOff(env, s)
    && (!s.fetching ==> SamePhase(s) && ClaimsLogged(s) && OvershootOnce(s) && WorkStored(env, s))
  }

  // ------------------------------------------------------------- every step keeps it

  lemma InitInv(env: Env, s: State)
    requires Init(env, s)
    ensures Inv(env, s)
  {
  }

  /** The steps of a worker. */
  predicate IsWorkerStep(step: Step) {
    step.ReadPhase? || step.Claim? || step.Work? || step.Check?
  }

  lemma WorkerShape(env: Env, s: State, step: Step)
    requires Inv(env, s) && Enabled(env, s, step) && IsWorkerStep(step)
    ensures !s.fetching && Shaped(env, Apply(env, s, step)) && SamePhase(Apply(env, s, step))
  {
    hide ClaimsLogged, OvershootOnce, WorkStored;
  }

  lemma WorkerHandedOff(env: Env, s: State, step: Step)
    requires Inv(env, s) && Enabled(env, s, step) && IsWorkerStep(step)
    ensures Shaped(env, Apply(env, s, step)) && HandedOff(env, Apply(env, s, step))
  {
    hide ClaimsLogged, OvershootOnce, WorkStored, SamePhase, FullyAnswered, IsPermutation;
    var s' := Apply(env, s, step);
    assert forall t :: 0 <= t < |s.tasks| && t != s.current ==> s'.tasks[t] == s.tasks[t];
    assert s'.Cur().order == s.Cur().order && s'.Cur().fulfilled == s.Cur().fulfilled;
    assert s.current !in s.queue;
  }

  lemma ReadPhaseInv(env: Env, s: State, w: nat)
    requires Inv(env, s) && Enabled(env, s, ReadPhase(w))
    ensures Inv(env, Apply(env, s, ReadPhase(w)))
  {
    WorkerShape(env, s, ReadPhase(w));
    WorkerHandedOff(env, s, ReadPhase(w));
    hide HandedOff, Answered, IsPermutation;
  }

  lemma ClaimInv(env: Env, s: State, w: nat)
    requires Inv(env, s) && Enabled(env, s, Claim(w))
    ensures Inv(env, Apply(env, s, Claim(w)))
  {
    WorkerShape(env, s, Claim(w));
    WorkerHandedOff(env, s, Claim(w));
    ClaimLogged(env, s, w);
    ClaimOvershoot(env, s, w);
    ClaimStored(env, s, w);
    hide HandedOff, SamePhase, ClaimsLogged, OvershootOnce, WorkStored;
  }

  lemma ClaimLogged(env: Env, s: State, w: nat)
    requires Shaped(env, s) && SamePhase(s) && ClaimsLogged(s) && Enabled(env, s, Claim(w))
    ensures ClaimsLogged(Apply(env, s, Claim(w)))
  {
  }

  lemma ClaimOvershoot(env: Env, s: State, w: nat)
    requires Shaped(env, s) && ClaimsLogged(s) && OvershootOnce(s) && Enabled(env, s, Claim(w))
    ensures OvershootOnce(Apply(env, s, Claim(w)))
  {
    var s' := Apply(env, s, Claim(w));
    forall i | s.Cur().Size() <= i < |s.owner| ensures s.owner[i] != w {
      assert s.owner[i] < |s.workers|;
    }
  }

  lemma ClaimStored(env: Env, s: State, w: nat)
    requires Shaped(env, s) && WorkStored(env, s) && Enabled(env, s, Claim(w))
    ensures WorkStored(env, Apply(env, s, Claim(w)))
  {
    hide IsPermutation;
  }

  lemma WorkInv(env: Env, s: State, w: nat)
    requires Inv(env, s) && Enabled(env, s, Work(w))
    ensures Inv(env, Apply(env, s, Work(w)))
  {
    WorkerShape(env, s, Work(w));
    WorkerHandedOff(env, s, Work(w));
    WorkLogged(env, s, w);
    WorkKept(env, s, w);
    hide HandedOff, SamePhase, ClaimsLogged, OvershootOnce, WorkStored;
  }

  lemma WorkLogged(env: Env, s: State, w: nat)
    requires Shaped(env, s) && ClaimsLogged(s) && OvershootOnce(s) && Enabled(env, s, Work(w))
    ensures ClaimsLogged(Apply(env, s, Work(w))) && OvershootOnce(Apply(env, s, Work(w)))
  {
    hide Answered;
    var s' := Apply(env, s, Work(w));
    assert s'.Cur().index == s.Cur().index && s'.Cur().Size() == s.Cur().Size();
  }

  /** Indices are worked on in distinct slots, so nothing already stored is lost. */
  lemma WorkKept(env: Env, s: State, w: nat)
    requires Shaped(env, s) && SamePhase(s) && ClaimsLogged(s) && WorkStored(env, s) && Enabled(env, s, Work(w))
    ensures WorkStored(env, Apply(env, s, Work(w)))
  {
    hide IsPermutation;
    var s' := Apply(env, s, Work(w));
    var i := s.workers[w].index;
    if s.phase == Process && i < s.Cur().Size() {
      TargetInRange(env, s, i);
    }
  }

  lemma TargetInRange(env: Env, s: State, i: nat)
    requires Shaped(env, s) && WorkStored(env, s) && i < s.Cur().Size()
    ensures Target(env, s.Cur(), i) < s.Cur().Size()
  {
    if env.sortInput {
      PermutationRange(s.Cur().order, s.Cur().Size(), i);
    }
  }

  lemma PermutationRange(order: seq<nat>, n: nat, i: nat)
    requires IsPermutation(order, n) && i < n
    ensures |order| == n && order[i] < n
  {
    var id := seq(n, k => k);
    assert |multiset(order)| == |order| && |multiset(id)| == |id|;
    assert order[i] in multiset(order);
    assert order[i] in multiset(id);
    assert order[i] in id;
  }

  lemma CheckInv(env: Env, s: State, w: nat)
    requires Inv(env, s) && Enabled(env, s, Check(w))
    ensures Inv(env, Apply(env, s, Check(w)))
  {
    WorkerShape(env, s, Check(w));
    WorkerHandedOff(env, s, Check(w));
    CheckLogged(env, s, w);
    hide HandedOff, Answered, IsPermutation, ClaimsLogged, OvershootOnce;
  }

  lemma CheckLogged(env: Env, s: State, w: nat)
    requires Shaped(env, s) && ClaimsLogged(s) && OvershootOnce(s) && Enabled(env, s, Check(w))
    ensures ClaimsLogged(Apply(env, s, Check(w))) && OvershootOnce(Apply(env, s, Check(w)))
  {
  }

  /** When all workers are at the barrier, every index was worked on exactly once. */
  lemma BarrierMeansDone(env: Env, s: State)
    requires Inv(env, s) && !s.fetching && AllArrived(s)
    ensures s.Cur().Size() <= |s.owner| && forall i :: 0 <= i < s.Cur().Size() ==> s.done[i] == 1
  {
    hide HandedOff, WorkStored;
    assert s.workers[0] == Arrived;
  }

  /** Leaving the barrier: the bookkeeping starts over. */
  lemma ReleaseLogged(env: Env, s: State, phase: Phase)
    requires s.current < |s.tasks| && Shaped(env, s.(done := seq(s.Cur().Size(), _ => 0)))
    ensures Shaped(env, Release(s, phase)) && SamePhase(Release(s, phase)) && ClaimsLogged(Release(s, phase))
    ensures OvershootOnce(Release(s, phase))
  {
  }

  lemma SortInv(env: Env, s: State, order: seq<nat>)
    requires Inv(env, s) && Enabled(env, s, Sort(order))
    ensures Inv(env, Apply(env, s, Sort(order)))
  {
    SortShape(env, s, order);
    SortStored(env, s, order);
    SortHandedOff(env, s, order);
    hide HandedOff, SamePhase, ClaimsLogged, OvershootOnce, WorkStored;
  }

  lemma SortShape(env: Env, s: State, order: seq<nat>)
    requires Inv(env, s) && Enabled(env, s, Sort(order))
    ensures var s' := Apply(env, s, Sort(order));
      Shaped(env, s') && SamePhase(s') && ClaimsLogged(s') && OvershootOnce(s')
  {
    hide HandedOff, WorkStored, IsSortOf;
    var m := s.WithTask(s.current, s.Cur().(order := order));
    ReleaseLogged(env, m, Process);
  }

  lemma SortStored(env: Env, s: State, order: seq<nat>)
    requires Inv(env, s) && Enabled(env, s, Sort(order)) && Shaped(env, Apply(env, s, Sort(order)))
    ensures WorkStored(env, Apply(env, s, Sort(order)))
  {
    BarrierMeansDone(env, s);
    hide HandedOff, ClaimsLogged, OvershootOnce, SamePhase;
  }

  lemma SortHandedOff(env: Env, s: State, order: seq<nat>)
    requires Inv(env, s) && Enabled(env, s, Sort(order)) && Shaped(env, Apply(env, s, Sort(order)))
    ensures HandedOff(env, Apply(env, s, Sort(order)))
  {
    hide ClaimsLogged, OvershootOnce, WorkStored, SamePhase, FullyAnswered, IsPermutation, IsSortOf;
    var s' := Apply(env, s, Sort(order));
    assert forall t :: 0 <= t < |s.tasks| && t != s.current ==> s'.tasks[t] == s.tasks[t];
    assert s'.Cur().fulfilled == s.Cur().fulfilled;
  }

  /** A permutation of the indices reaches every index. */
  lemma PermutationReaches(order: seq<nat>, n: nat, k: nat) returns (i: nat)
    requires IsPermutation(order, n) && k < n
    ensures i < n == |order| && order[i] == k
  {
    var id := seq(n, j => j);
    assert id[k] == k;
    assert k in multiset(id);
    assert k in order;
    i :| 0 <= i < |order| && order[i] == k;
    PermutationRange(order, n, k);
  }

  /** The promise is kept with every slot answered. */
  lemma FinishAnswered(env: Env, s: State)
    requires Inv(env, s) && Enabled(env, s, Finish)
    ensures FullyAnswered(env, s.Cur())
  {
    BarrierMeansDone(env, s);
    hide HandedOff, ClaimsLogged, OvershootOnce, SamePhase, IsPermutation;
    var t := s.Cur();
    forall k | 0 <= k < |t.inputs| ensures Answered(env, t, k) {
      if env.sortInput {
        var i := PermutationReaches(t.order, t.Size(), k);
        assert s.done[i] == 1;
        assert Target(env, t, i) == k;
      } else {
        assert s.done[k] == 1;
        assert Target(env, t, k) == k;
      }
    }
  }

  lemma AnsweredSame(env: Env, t: Task, u: Task)
    requires u.inputs == t.inputs && u.response == t.response
    ensures FullyAnswered(env, t) == FullyAnswered(env, u)
  {
    assert forall k :: 0 <= k < |t.inputs| ==> Answered(env, t, k) == Answered(env, u, k);
  }

  lemma FinishInv(env: Env, s: State)
    requires Inv(env, s) && Enabled(env, s, Finish)
    ensures Inv(env, Apply(env, s, Finish))
  {
    FinishAnswered(env, s);
    hide ClaimsLogged, OvershootOnce, WorkStored, SamePhase, Answered, IsPermutation;
    var s' := Apply(env, s, Finish);
    AnsweredSame(env, s.Cur(), s'.Cur());
    hide FullyAnswered;
    assert forall t :: 0 <= t < |s.tasks| && t != s.current ==> s'.tasks[t] == s.tasks[t];
  }

  lemma FetchInv(env: Env, s: State)
    requires Inv(env, s) && Enabled(env, s, Fetch)
    ensures Inv(env, Apply(env, s, Fetch))
  {
    assert s.queue[0] in s.queue;
    assert forall t :: t in s.queue[1..] ==> t in s.queue;
    var m := s.(current := s.queue[0], queue := s.queue[1..], fetching := false);
    ReleaseLogged(env, m, Preprocess);
    FetchHandedOff(env, s);
    FetchStored(env, s);
    hide HandedOff, SamePhase, ClaimsLogged, OvershootOnce, WorkStored;
  }

  lemma FetchStored(env: Env, s: State)
    requires Inv(env, s) && Enabled(env, s, Fetch) && Shaped(env, Apply(env, s, Fetch))
    ensures WorkStored(env, Apply(env, s, Fetch))
  {
    hide ClaimsLogged, OvershootOnce, SamePhase, IsPermutation, FullyAnswered;
    assert s.queue[0] in s.queue;
  }

  lemma FetchHandedOff(env: Env, s: State)
    requires Inv(env, s) && Enabled(env, s, Fetch) && Shaped(env, Apply(env, s, Fetch))
    ensures HandedOff(env, Apply(env, s, Fetch))
  {
    hide ClaimsLogged, OvershootOnce, WorkStored, SamePhase, IsPermutation;
    var s' := Apply(env, s, Fetch);
    assert s.queue[0] in s.queue;
    assert s.queue == [s.queue[0]] + s.queue[1..];
    assert forall t :: t in s.queue <==> t == s.queue[0] || t in s.queue[1..];
    FirstIsUnique(s.queue);
    hide FullyAnswered;
    forall t | 0 <= t < |s.tasks|
      ensures FullyAnswered(env, s'.tasks[t]) == FullyAnswered(env, s.tasks[t])
    {
      AnsweredSame(env, s.tasks[t], s'.tasks[t]);
    }
    assert forall t :: 0 <= t < |s.tasks| ==> (Outstanding(s', t) <==> Outstanding(s, t));
    assert s'.tasks[s'.current].order == s.tasks[s'.current].order;
  }

  lemma FirstIsUnique(q: seq<nat>)
    requires q != [] && NoDuplicates(q)
    ensures q[0] !in q[1..] && NoDuplicates(q[1..])
  {
  }

  lemma PushInv(env: Env, s: State, step: Step)
    requires Inv(env, s) && Enabled(env, s, step) && step.Push?
    ensures Inv(env, Apply(env, s, step))
  {
    PushHandedOff(env, s, step);
    if !s.fetching {
      PushElsewhere(env, s, step);
    }
    hide HandedOff, SamePhase, ClaimsLogged, OvershootOnce, WorkStored;
  }

  lemma PushElsewhere(env: Env, s: State, step: Step)
    requires Inv(env, s) && Enabled(env, s, step) && step.Push? && !s.fetching
    ensures var s' := Apply(env, s, step);
      Shaped(env, s') && SamePhase(s') && ClaimsLogged(s') && OvershootOnce(s') && WorkStored(env, s')
  {
    hide FullyAnswered, IsPermutation, Answered;
    assert step.t != s.current by { assert Outstanding(s, s.current); }
    assert Apply(env, s, step).Cur() == s.Cur();
  }

  lemma PushHandedOff(env: Env, s: State, step: Step)
    requires Inv(env, s) && Enabled(env, s, step) && step.Push?
    ensures Shaped(env, Apply(env, s, step)) && HandedOff(env, Apply(env, s, step))
  {
    hide ClaimsLogged, OvershootOnce, WorkStored, SamePhase, FullyAnswered;
    var s' := Apply(env, s, step);
    assert !Outstanding(s, step.t);
    assert forall t :: t in s'.queue <==> t == step.t || t in s.queue;
    assert OrderFits(env, s'.tasks[step.t]);
    hide OrderFits;
    assert forall t :: 0 <= t < |s.tasks| && t != step.t ==>
      s'.tasks[t] == s.tasks[t] && s'.sessions[t] == s.sessions[t] && (Outstanding(s', t) <==> Outstanding(s, t));
  }

  lemma ReturnInv(env: Env, s: State, t: nat)
    requires Inv(env, s) && Enabled(env, s, Return(t))
    ensures Inv(env, Apply(env, s, Return(t)))
  {
    hide FullyAnswered, IsPermutation, Answered;
    var s' := Apply(env, s, Return(t));
    assert !Outstanding(s, t);
    assert s'.tasks == s.tasks && s'.queue == s.queue;
    assert Shaped(env, s') && HandedOff(env, s');
  }

  lemma StepInv(env: Env, s: State, step: Step)
    requires Inv(env, s) && Enabled(env, s, step)
    ensures Inv(env, Apply(env, s, step))
  {
    hide Enabled, Apply, Inv;
    match step {
      case ReadPhase(w) => ReadPhaseInv(env, s, w);
      case Claim(w) => ClaimInv(env, s, w);
      case Work(w) => WorkInv(env, s, w);
      case Check(w) => CheckInv(env, s, w);
      case Sort(order) => SortInv(env, s, order);
      case Finish => FinishInv(env, s);
      case Fetch => FetchInv(env, s);
      case Push(_, _, _, _, _) => PushInv(env, s, step);
      case Return(t) => ReturnInv(env, s, t);
    }
  }

  // -------------------------------------------------------------------------------- runs

  ghost predicate Next(env: Env, s: State, step: Step, s': State) {
    Shaped(env, s) && Enabled(env, s, step) && s' == Apply(env, s, step)
  }

  /** Any interleaving of workers, completions and sessions. */
  ghost predicate IsRun(env: Env, states: seq<State>, steps: seq<Step>) {
    && |states| == |steps| + 1 && Init(env, states[0])
    && forall i :: 0 <= i < |steps| ==> Next(env, states[i], steps[i], states[i + 1])
  }

  lemma {:induction false} RunInv(env: Env, states: seq<State>, steps: seq<Step>, i: nat)
    requires IsRun(env, states, steps) && i < |states|
    ensures Inv(env, states[i])
  {
    hide Init, Enabled, Apply, Inv, Shaped;
    if i == 0 {
      InitInv(env, states[0]);
    } else {
      RunInv(env, states, steps, i - 1);
      assert Next(env, states[i - 1], steps[i - 1], states[i]);
      StepInv(env, states[i - 1], steps[i - 1]);
    }
  }

  /** At every completion of the barrier, every index of the batch was fetched by one worker and
  worked on exactly once in this phase. */
  lemma ExactlyOnce(env: Env, states: seq<State>, steps: seq<Step>, i: nat)
    requires IsRun(env, states, steps) && i < |steps| && (steps[i].Sort? || steps[i].Finish?)
    ensures var s := states[i];
      s.current < |s.tasks| && |s.done| == s.Cur().Size() <= |s.owner| == s.Cur().index
      && forall k :: 0 <= k < s.Cur().Size() ==> s.done[k] == 1 && s.owner[k] < |s.workers|
  {
    RunInv(env, states, steps, i);
    assert Next(env, states[i], steps[i], states[i + 1]);
    BarrierMeansDone(env, states[i]);
  }

  /** Two workers never hold the same index, and all run the phase the controller is in. */
  lemma NoSharedIndex(env: Env, states: seq<State>, steps: seq<Step>, i: nat, v: nat, w: nat)
    requires IsRun(env, states, steps) && i < |states| && v < w < |states[i].workers|
    ensures var s := states[i];
      InPhase(s.workers[v], s.phase) && InPhase(s.workers[w], s.phase)
      && !(s.workers[v].Claimed? && s.workers[w].Claimed? && s.workers[v].index == s.workers[w].index)
  {
    RunInv(env, states, steps, i);
    hide WorkStored, Init;
  }

  // The counter never passes the end of the batch by more than the number of workers.

  ghost predicate Distinct(q: seq<nat>, n: nat) {
    NoDuplicates(q) && forall i :: 0 <= i < |q| ==> q[i] < n
  }

  lemma {:induction false} Pigeonhole(q: seq<nat>, n: nat)
    requires Distinct(q, n)
    ensures |q| <= n
    decreases n
  {
    if q != [] {
      assert q[0] < n;
      if i :| 0 <= i < |q| && q[i] == n - 1 {
        var rest := q[..i] + q[i + 1..];
        assert forall j :: 0 <= j < |rest| ==> rest[j] == if j < i then q[j] else q[j + 1];
        Pigeonhole(rest, n - 1);
      } else {
        Pigeonhole(q, n - 1);
      }
    }
  }

  lemma IndexBound(env: Env, states: seq<State>, steps: seq<Step>, i: nat)
    requires IsRun(env, states, steps) && i < |states| && !states[i].fetching
    ensures states[i].current < |states[i].tasks|
    ensures states[i].Cur().index <= states[i].Cur().Size() + env.workers
  {
    RunInv(env, states, steps, i);
    hide WorkStored, HandedOff, Init;
    var s := states[i];
    if s.Cur().Size() < |s.owner| {
      Pigeonhole(s.owner[s.Cur().Size()..], env.workers);
    }
  }

  // ------------------------------------------------------------------- phases terminate

  /** How much a worker still has to do in this phase, besides what is left of the batch. */
  function Rank(pc: Worker, more: bool): nat {
    match pc
    case Top => 4
    case Loop(_) => 3
    case Claimed(_, _) => if more then 5 else 2
    case Recheck(_) => if more then 4 else 1
    case Arrived => 0
  }

  ghost function Ranks(workers: seq<Worker>, more: bool): nat {
    if workers == [] then 0 else Ranks(workers[..|workers| - 1], more) + Rank(workers[|workers| - 1], more)
  }

  lemma {:induction false} RanksUpdate(workers: seq<Worker>, w: nat, pc: Worker, more: bool)
    requires w < |workers|
    ensures Ranks(workers[w := pc], more) == Ranks(workers, more) - Rank(workers[w], more) + Rank(pc, more)
  {
    var n := |workers| - 1;
    if w == n {
      assert workers[w := pc][..n] == workers[..n];
    } else {
      RanksUpdate(workers[..n], w, pc, more);
      assert workers[w := pc][..n] == workers[..n][w := pc];
    }
  }

  lemma {:induction false} RanksDrop(workers: seq<Worker>)
    ensures Ranks(workers, false) <= Ranks(workers, true)
  {
    if workers != [] {
      RanksDrop(workers[..|workers| - 1]);
    }
  }

  /** The work left in a phase. */
  ghost function Measure(s: State): nat
    requires s.current < |s.tasks|
  {
    var t := s.Cur();
    var left := if t.index < t.Size() then t.Size() - t.index else 0;
    3 * left + Ranks(s.workers, left > 0)
  }

  lemma WorkerStepDecreases(env: Env, s: State, step: Step)
    requires Inv(env, s) && Enabled(env, s, step) && IsWorkerStep(step)
    ensures Shaped(env, Apply(env, s, step)) && Measure(Apply(env, s, step)) < Measure(s)
  {
    WorkerShape(env, s, step);
    RankDecreases(env, s, step);
    var s' := Apply(env, s, step);
    var more := s.Cur().index < s.Cur().Size();
    hide Inv, Enabled, Apply, Shaped, SamePhase, Ranks, Rank;
    RanksUpdate(s.workers, step.w, s'.workers[step.w], more);
    RanksDrop(s'.workers);
  }

  /** The worker that steps has less to do, apart from a block of work it takes from what is left. */
  lemma RankDecreases(env: Env, s: State, step: Step)
    requires Inv(env, s) && Enabled(env, s, step) && IsWorkerStep(step)
    ensures Shaped(env, s) && Shaped(env, Apply(env, s, step))
    ensures var s' := Apply(env, s, step);
      var more := s.Cur().index < s.Cur().Size();
      && s.current == s'.current < |s.tasks| == |s'.tasks| && s'.Cur().Size() == s.Cur().Size()
      && step.w < |s.workers| == |s'.workers| && s'.workers == s.workers[step.w := s'.workers[step.w]]
      && s'.Cur().index == s.Cur().index + (if step.Claim? then 1 else 0)
      && Rank(s'.workers[step.w], more) < Rank(s.workers[step.w], more) + (if step.Claim? && more then 3 else 0)
  {
    WorkerShape(env, s, step);
    hide WorkStored, HandedOff, ClaimsLogged, SamePhase;
  }

  lemma SessionStepKeeps(env: Env, s: State, step: Step)
    requires Inv(env, s) && Enabled(env, s, step) && (step.Push? || step.Return?) && !s.fetching
    ensures Shaped(env, Apply(env, s, step)) && Measure(Apply(env, s, step)) == Measure(s)
  {
    StepInv(env, s, step);
    hide WorkStored, ClaimsLogged, OvershootOnce, Ranks, FullyAnswered, IsUpdate;
    if step.Push? {
      assert step.t != s.current by { assert Outstanding(s, s.current); }
    }
  }

  ghost function WorkerSteps(steps: seq<Step>): nat {
    if steps == [] then 0 else WorkerSteps(steps[..|steps| - 1]) + (if IsWorkerStep(steps[|steps| - 1]) then 1 else 0)
  }

  ghost predicate IsCompletion(step: Step) {
    step.Sort? || step.Finish? || step.Fetch?
  }

  /** A stretch of a run with no completion in it has a bounded number of worker steps: no phase
  goes on for ever. */
  lemma {:induction false} PhaseTerminates(env: Env, states: seq<State>, steps: seq<Step>)
    requires |states| == |steps| + 1 && Inv(env, states[0]) && !states[0].fetching
    requires forall i :: 0 <= i < |steps| ==> Next(env, states[i], steps[i], states[i + 1]) && !IsCompletion(steps[i])
    ensures Inv(env, states[|steps|]) && !states[|steps|].fetching
    ensures WorkerSteps(steps) + Measure(states[|steps|]) <= Measure(states[0])
    decreases |steps|
  {
    hide Enabled, Apply, Inv, Measure;
    if steps == [] {
    } else {
      var n := |steps| - 1;
      PhaseTerminates(env, states[..n + 1], steps[..n]);
      assert Next(env, states[n], steps[n], states[n + 1]);
      StepInv(env, states[n], steps[n]);
      NotFetching(env, states[n], steps[n]);
      if IsWorkerStep(steps[n]) {
        WorkerStepDecreases(env, states[n], steps[n]);
      } else {
        SessionStepKeeps(env, states[n], steps[n]);
      }
    }
  }

  lemma NotFetching(env: Env, s: State, step: Step)
    requires Shaped(env, s) && Enabled(env, s, step) && !IsCompletion(step) && !s.fetching
    ensures !Apply(env, s, step).fetching
  {
  }

  // ----------------------------------------------------------------------------- runs end

  /** What a phase takes at most. */
  function PhaseWork(env: Env, t: Task): nat {
    3 * t.Size() + 4 * env.workers
  }

  ghost function QueueWork(env: Env, tasks: seq<Task>, queue: seq<nat>): nat {
    if queue == [] then 0
    else (if queue[0] < |tasks| then 2 * PhaseWork(env, tasks[queue[0]]) + 3 else 0) + QueueWork(env, tasks, queue[1..])
  }

  function WaitingSessions(sessions: seq<Session>): nat {
    if sessions == [] then 0
    else WaitingSessions(sessions[..|sessions| - 1]) + (if sessions[|sessions| - 1] == Waiting then 1 else 0)
  }

  /** What the current batch still takes. */
  ghost function CurrentWork(env: Env, s: State): nat
    requires s.current < |s.tasks|
  {
    if s.fetching then 0
    else Measure(s) + 1 + (if s.phase == Preprocess then PhaseWork(env, s.Cur()) + 1 else 0)
  }

  /** How many steps are left, at most, if nothing more is pushed. */
  ghost function StepsLeft(env: Env, s: State): nat
    requires s.current < |s.tasks|
  {
    CurrentWork(env, s) + QueueWork(env, s.tasks, s.queue) + WaitingSessions(s.sessions)
  }

  lemma {:induction false} QueueWorkSame(env: Env, tasks: seq<Task>, tasks': seq<Task>, queue: seq<nat>)
    requires |tasks| == |tasks'| && forall t :: 0 <= t < |tasks| ==> tasks[t].Size() == tasks'[t].Size()
    ensures QueueWork(env, tasks, queue) == QueueWork(env, tasks', queue)
  {
    if queue != [] {
      QueueWorkSame(env, tasks, tasks', queue[1..]);
    }
  }

  lemma {:induction false} OneLessWaiting(sessions: seq<Session>, t: nat)
    requires t < |sessions| && sessions[t] == Waiting
    ensures WaitingSessions(sessions[t := Idle]) + 1 == WaitingSessions(sessions)
  {
    var n := |sessions| - 1;
    if t == n {
      assert sessions[t := Idle][..n] == sessions[..n];
    } else {
      OneLessWaiting(sessions[..n], t);
      assert sessions[t := Idle][..n] == sessions[..n][t := Idle];
    }
  }

  lemma {:induction false} RanksOfTops(n: nat, more: bool)
    ensures Ranks(seq(n, _ => Top), more) == 4 * n
  {
    if n > 0 {
      RanksOfTops(n - 1, more);
      assert seq(n, _ => Top)[..n - 1] == seq(n - 1, _ => Top);
    }
  }

  /** A released batch has a whole phase before it. */
  lemma ReleasedWork(env: Env, s: State, phase: Phase)
    requires s.current < |s.tasks| && |s.workers| == env.workers
    ensures Release(s, phase).current < |Release(s, phase).tasks|
    ensures Measure(Release(s, phase)) == PhaseWork(env, s.Cur())
  {
    RanksOfTops(env.workers, s.Cur().Size() > 0);
  }

  lemma SizesKept(env: Env, s: State, step: Step)
    requires Shaped(env, s) && Enabled(env, s, step) && !step.Push?
    ensures |Apply(env, s, step).tasks| == |s.tasks|
    ensures forall t :: 0 <= t < |s.tasks| ==> Apply(env, s, step).tasks[t].Size() == s.tasks[t].Size()
  {
    forall t | 0 <= t < |s.tasks|
      ensures t < |Apply(env, s, step).tasks| && Apply(env, s, step).tasks[t].Size() == s.tasks[t].Size()
    {
      StepKeepsInputs(env, s, step, t);
    }
    NoTaskAdded(env, s, step);
  }

  lemma NoTaskAdded(env: Env, s: State, step: Step)
    requires Shaped(env, s) && Enabled(env, s, step)
    ensures |Apply(env, s, step).tasks| == |s.tasks|
  {
    hide IsSortOf, IsUpdate;
    if step.Fetch? {
      assert s.queue[0] in s.queue;
    }
  }

  lemma StepTakesWork(env: Env, s: State, step: Step)
    requires Inv(env, s) && Enabled(env, s, step) && !step.Push?
    ensures Shaped(env, Apply(env, s, step)) && StepsLeft(env, Apply(env, s, step)) < StepsLeft(env, s)
  {
    var s' := Apply(env, s, step);
    StepInv(env, s, step);
    SizesKept(env, s, step);
    QueueWorkSame(env, s.tasks, s'.tasks, s.queue);
    hide HandedOff, WorkStored, ClaimsLogged, OvershootOnce, SamePhase;
    if IsWorkerStep(step) {
      WorkerTakesWork(env, s, step);
    } else if step.Return? {
      OneLessWaiting(s.sessions, step.t);
    } else {
      CompletionTakesWork(env, s, step);
    }
  }

  lemma WorkerTakesWork(env: Env, s: State, step: Step)
    requires Inv(env, s) && Enabled(env, s, step) && IsWorkerStep(step)
    ensures var s' := Apply(env, s, step);
      && Shaped(env, s') && CurrentWork(env, s') < CurrentWork(env, s)
      && s'.queue == s.queue && s'.sessions == s.sessions
  {
    WorkerStepDecreases(env, s, step);
    WorkerShape(env, s, step);
    RankDecreases(env, s, step);
    hide HandedOff, WorkStored, ClaimsLogged, OvershootOnce, SamePhase, Measure, Rank;
  }

  lemma CompletionTakesWork(env: Env, s: State, step: Step)
    requires Shaped(env, s) && Enabled(env, s, step) && IsCompletion(step)
    ensures var s' := Apply(env, s, step);
      && s'.current < |s'.tasks| && s'.sessions == s.sessions
      && CurrentWork(env, s') + QueueWork(env, s.tasks, s'.queue) < CurrentWork(env, s) + QueueWork(env, s.tasks, s.queue)
  {
    hide Measure, IsSortOf;
    match step
    case Sort(order) =>
      ReleasedWork(env, s.WithTask(s.current, s.Cur().(order := order)), Process);
    case Finish =>
    case Fetch =>
      assert s.queue[0] in s.queue;
      ReleasedWork(env, s.(current := s.queue[0], queue := s.queue[1..], fetching := false), Preprocess);
  }

  /** Without pushes every run ends: in any stretch of a run there are no more steps than were left. */
  lemma {:induction false} RunsEnd(env: Env, states: seq<State>, steps: seq<Step>, i: nat, j: nat)
    requires IsRun(env, states, steps) && i <= j < |states|
    requires forall k :: i <= k < j ==> !steps[k].Push?
    ensures Inv(env, states[i]) && Inv(env, states[j])
    ensures j - i + StepsLeft(env, states[j]) <= StepsLeft(env, states[i])
    decreases j - i
  {
    hide Inv, Next, StepsLeft, Init;
    RunInv(env, states, steps, i);
    if i < j {
      RunsEnd(env, states, steps, i, j - 1);
      RunInv(env, states, steps, j);
      RunStep(env, states[j - 1], steps[j - 1], states[j]);
    }
  }

  lemma RunStep(env: Env, s: State, step: Step, s': State)
    requires Inv(env, s) && Next(env, s, step, s') && !step.Push?
    ensures s.current < |s.tasks| && s'.current < |s'.tasks| && StepsLeft(env, s') < StepsLeft(env, s)
  {
    StepTakesWork(env, s, step);
  }

  // -------------------------------------------------------------------------- no deadlock

  /** The comparison of indices by their keys, for any two numbers. */
  function ByKey(keys: seq<Key>): (nat, nat) -> bool {
    (i: nat, j: nat) => Before(KeyAt(keys, i), KeyAt(keys, j))
  }

  function KeyAt(keys: seq<Key>, i: nat): Key {
    if i < |keys| then keys[i] else ZERO_SIZE
  }

  lemma ByKeyIsWeakOrder(keys: seq<Key>)
    ensures Sorting.WeakOrder(ByKey(keys))
  {
    hide KeyAt;
    var before := ByKey(keys);
    assert forall a, b, c :: before(a, c) ==> before(a, b) || before(b, c);
  }

  lemma SortExists(keys: seq<Key>, order: seq<nat>) returns (r: seq<nat>)
    requires forall i :: 0 <= i < |order| ==> order[i] < |keys|
    ensures multiset(r) == multiset(order)
    ensures forall i :: 0 <= i < |r| ==> r[i] < |keys|
    ensures forall i, j :: 0 <= i < j < |r| ==> !Before(keys[r[j]], keys[r[i]])
  {
    hide Sorting.WeakOrder, Sorting.Sort, Before;
    ByKeyIsWeakOrder(keys);
    Sorting.SortSorted(ByKey(keys), order);
    r := Sorting.Sort(ByKey(keys), order);
    forall i | 0 <= i < |r| ensures r[i] < |keys| {
      assert r[i] in multiset(r);
      assert r[i] in order;
    }
    forall i, j | 0 <= i < j < |r| ensures !Before(keys[r[j]], keys[r[i]]) {
      assert !ByKey(keys)(r[j], r[i]);
    }
  }

  /** Some step is always possible, unless the controller is waiting for a batch. */
  lemma NoDeadlock(env: Env, s: State) returns (step: Step)
    requires Inv(env, s) && !(s.fetching && s.queue == [])
    ensures Enabled(env, s, step) && (IsWorkerStep(step) || IsCompletion(step))
  {
    hide ClaimsLogged, OvershootOnce, SamePhase, FullyAnswered, IsPermutation;
    if s.fetching {
      step := Fetch;
    } else if w :| 0 <= w < |s.workers| && s.workers[w] != Arrived {
      step := match s.workers[w]
        case Top => ReadPhase(w)
        case Loop(_) => Claim(w)
        case Claimed(_, _) => Work(w)
        case Recheck(_) => Check(w);
    } else if s.phase == Process {
      step := Finish;
    } else {
      var t := s.Cur();
      OrderInRange(env, t);
      var order := SortExists(t.keys, t.order);
      step := Sort(order);
    }
  }

  /** Another batch can be pushed whenever the session is idle. */
  lemma PushPossible(env: Env, s: State, t: nat, inputs: seq<string>) returns (step: Step)
    requires Inv(env, s) && 0 < t < |s.tasks| && s.sessions[t] == Idle
    ensures Enabled(env, s, step) && step.Push? && step.t == t && step.inputs == inputs
  {
    hide HandedOff, WorkStored, ClaimsLogged, OvershootOnce, SamePhase;
    step := Push(t, inputs, seq(|inputs|, _ => ZERO_SIZE), if env.sortInput then seq(|inputs|, i => i) else [],
                 seq(|inputs|, _ => ""));
  }

  /** If nothing but a push is possible, every batch was returned. */
  lemma NothingLeftBehind(env: Env, s: State)
    requires Inv(env, s) && forall step :: Enabled(env, s, step) ==> step.Push?
    ensures forall t :: 0 < t < |s.sessions| ==> s.sessions[t] == Idle
  {
    if !(s.fetching && s.queue == []) {
      var step := NoDeadlock(env, s);
    }
    hide HandedOff, WorkStored, ClaimsLogged, OvershootOnce, SamePhase, Enabled;
    forall t | 0 < t < |s.sessions| ensures s.sessions[t] == Idle {
      if s.sessions[t] == Waiting {
        ReturnPossible(env, s, t);
      }
    }
  }

  lemma ReturnPossible(env: Env, s: State, t: nat)
    requires Inv(env, s) && s.fetching && s.queue == [] && 0 < t < |s.sessions| && s.sessions[t] == Waiting
    ensures Enabled(env, s, Return(t))
  {
    hide WorkStored, ClaimsLogged, OvershootOnce, SamePhase, FullyAnswered, IsPermutation;
    assert !Outstanding(s, t);
  }

  lemma OrderInRange(env: Env, t: Task)
    requires OrderFits(env, t) && |t.keys| == t.Size()
    ensures forall i :: 0 <= i < |t.order| ==> t.order[i] < |t.keys|
  {
    if env.sortInput && t.order != [] {
      var id := seq(t.Size(), i => i);
      assert |multiset(t.order)| == |t.order| && |multiset(id)| == |id|;
      forall i | 0 <= i < |t.order| ensures t.order[i] < |t.keys| {
        PermutationRange(t.order, t.Size(), i);
      }
    }
  }

  // ---------------------------------------------------------------------------- hand-off

  /** Tasks finish in push order. */
  lemma FinishedInPushOrder(env: Env, states: seq<State>, steps: seq<Step>, i: nat)
    requires IsRun(env, states, steps) && i < |states|
    ensures states[i].finished <= states[i].pushed
  {
    RunInv(env, states, steps, i);
    hide WorkStored, ClaimsLogged, OvershootOnce, SamePhase, FullyAnswered;
  }

  /** Every pushed batch has its promise kept exactly once: as often as it was pushed, except for
  the one that is still outstanding, whose promise is not kept yet. */
  lemma PromisesKeptOnce(env: Env, states: seq<State>, steps: seq<Step>, i: nat, t: nat)
    requires IsRun(env, states, steps) && i < |states| && t < |states[i].tasks|
    ensures var s := states[i];
      multiset(s.pushed)[t] == multiset(s.finished)[t] + (if Outstanding(s, t) then 1 else 0)
      && (Outstanding(s, t) ==> !s.tasks[t].fulfilled)
  {
    RunInv(env, states, steps, i);
    hide WorkStored, ClaimsLogged, OvershootOnce, SamePhase, FullyAnswered;
    var s := states[i];
    NoDuplicateCount(s.queue, t);
  }

  lemma {:induction false} NoDuplicateCount(q: seq<nat>, t: nat)
    requires NoDuplicates(q)
    ensures multiset(q)[t] == if t in q then 1 else 0
  {
    if q != [] {
      var n := |q| - 1;
      assert q == q[..n] + [q[n]];
      NoDuplicateCount(q[..n], t);
    }
  }

  /** `processTask` returns only when every slot of the batch holds the result of this update,
  computed from this update's requests. */
  lemma ReturnsAnswered(env: Env, states: seq<State>, steps: seq<Step>, i: nat)
    requires IsRun(env, states, steps) && i < |steps| && steps[i].Return?
    ensures var s, t := states[i], steps[i].t;
      t < |s.tasks| && |s.tasks[t].response| == |s.tasks[t].inputs|
      && forall k :: 0 <= k < |s.tasks[t].inputs| ==>
        s.tasks[t].response[k] == env.policy(s.tasks[t].inputs[k], env.keyOf(s.tasks[t].inputs[k]))
  {
    RunInv(env, states, steps, i);
    hide WorkStored, ClaimsLogged, OvershootOnce, SamePhase, Init;
    var s, t := states[i], steps[i].t;
    assert Next(env, s, steps[i], states[i + 1]);
    assert FullyAnswered(env, s.tasks[t]);
    forall k | 0 <= k < |s.tasks[t].inputs|
      ensures s.tasks[t].response[k] == env.policy(s.tasks[t].inputs[k], env.keyOf(s.tasks[t].inputs[k]))
    {
      assert Answered(env, s.tasks[t], k);
    }
  }

  /** From the moment its promise is kept until it is pushed again, nobody touches a task. */
  lemma NotTouched(env: Env, states: seq<State>, steps: seq<Step>, i: nat, t: nat)
    requires IsRun(env, states, steps) && i < |steps| && t < |states[i].tasks| && !Outstanding(states[i], t)
    requires !(steps[i].Push? && steps[i].t == t)
    ensures t < |states[i + 1].tasks| && states[i + 1].tasks[t] == states[i].tasks[t]
  {
    RunInv(env, states, steps, i);
    hide WorkStored, ClaimsLogged, OvershootOnce, FullyAnswered, Init;
    var s, step := states[i], steps[i];
    assert Next(env, s, step, states[i + 1]);
    if step.Fetch? {
      assert s.queue[0] in s.queue;
    } else if s.fetching && IsWorkerStep(step) {
      assert s.workers[step.w] == Arrived;
    }
  }

  /** Between push and return the inputs stay as they were pushed. */
  lemma InputsKept(env: Env, states: seq<State>, steps: seq<Step>, i: nat, t: nat)
    requires IsRun(env, states, steps) && i < |steps| && t < |states[i].tasks|
    requires !(steps[i].Push? && steps[i].t == t)
    ensures t < |states[i + 1].tasks| && states[i + 1].tasks[t].inputs == states[i].tasks[t].inputs
  {
    assert Next(env, states[i], steps[i], states[i + 1]);
    StepKeepsInputs(env, states[i], steps[i], t);
  }

  lemma StepKeepsInputs(env: Env, s: State, step: Step, t: nat)
    requires Shaped(env, s) && Enabled(env, s, step) && t < |s.tasks| && !(step.Push? && step.t == t)
    ensures t < |Apply(env, s, step).tasks| && Apply(env, s, step).tasks[t].inputs == s.tasks[t].inputs
  {
    hide IsSortOf, IsUpdate;
    if step.Fetch? {
      assert s.queue[0] in s.queue;
    }
  }

  ghost predicate Touches(step: Step, t: nat) {
    (step.Push? || step.Return?) && step.t == t
  }

  /** Step i is the return that belongs to the push at step p: the session is busy in between. */
  ghost predicate Answers(steps: seq<Step>, p: nat, i: nat) {
    && p < i < |steps| && steps[p].Push? && steps[i].Return? && steps[i].t == steps[p].t
    && forall j :: p < j < i ==> !Touches(steps[j], steps[p].t)
  }

  /** Every return belongs to a push. */
  lemma ReturnHasPush(env: Env, states: seq<State>, steps: seq<Step>, i: nat) returns (p: nat)
    requires IsRun(env, states, steps) && i < |steps| && steps[i].Return?
    ensures Answers(steps, p, i)
  {
    assert Next(env, states[i], steps[i], states[i + 1]);
    hide Next;
    p := LastPush(env, states, steps, i, steps[i].t);
  }

  lemma {:induction false} LastPush(env: Env, states: seq<State>, steps: seq<Step>, i: nat, t: nat) returns (p: nat)
    requires IsRun(env, states, steps) && i < |states|
    requires 0 < t < |states[i].sessions| && states[i].sessions[t] == Waiting
    ensures p < i && p < |steps| && steps[p].Push? && steps[p].t == t && forall j :: p < j < i ==> !Touches(steps[j], t)
  {
    hide Next, Init;
    if i == 0 {
      InitIdle(env, states[0], t);
    } else {
      assert Next(env, states[i - 1], steps[i - 1], states[i]);
      SessionBefore(env, states[i - 1], steps[i - 1], states[i], t);
      if Touches(steps[i - 1], t) {
        p := i - 1;
      } else {
        p := LastPush(env, states, steps, i - 1, t);
      }
    }
  }

  lemma InitIdle(env: Env, s: State, t: nat)
    requires Init(env, s) && 0 < t < |s.sessions|
    ensures s.sessions[t] == Idle
  {
  }

  lemma SessionBefore(env: Env, s: State, step: Step, s': State, t: nat)
    requires Next(env, s, step, s') && t < |s'.sessions| && s'.sessions[t] == Waiting
    ensures t < |s.sessions|
    ensures if Touches(step, t) then step.Push? else s.sessions[t] == Waiting
  {
    hide IsSortOf, IsUpdate;
  }

  /** A run that cannot go on without a push has returned every batch: each push has its return. */
  lemma PushHasReturn(env: Env, states: seq<State>, steps: seq<Step>, p: nat) returns (i: nat)
    requires IsRun(env, states, steps) && p < |steps| && steps[p].Push?
    requires forall step :: Shaped(env, states[|steps|]) && Enabled(env, states[|steps|], step) ==> step.Push?
    ensures Answers(steps, p, i)
  {
    RunInv(env, states, steps, |steps|);
    assert Next(env, states[p], steps[p], states[p + 1]);
    PushWaits(env, states[p], steps[p], states[p + 1]);
    hide Next, Init, Enabled;
    LastInv(env, states[|steps|]);
    i := FirstReturn(env, states, steps, p, p + 1);
  }

  lemma LastInv(env: Env, s: State)
    requires Inv(env, s) && forall step :: Shaped(env, s) && Enabled(env, s, step) ==> step.Push?
    ensures forall t :: 0 < t < |s.sessions| ==> s.sessions[t] == Idle
  {
    hide HandedOff, WorkStored, ClaimsLogged, OvershootOnce, SamePhase, Enabled;
    NothingLeftBehind(env, s);
  }

  lemma PushWaits(env: Env, s: State, step: Step, s': State)
    requires Next(env, s, step, s') && step.Push?
    ensures 0 < step.t < |s'.sessions| && s'.sessions[step.t] == Waiting
  {
  }

  lemma {:induction false} FirstReturn(env: Env, states: seq<State>, steps: seq<Step>, p: nat, j: nat) returns (i: nat)
    requires IsRun(env, states, steps) && p < j <= |steps| && steps[p].Push?
    requires forall k :: p < k < j ==> !Touches(steps[k], steps[p].t)
    requires 0 < steps[p].t < |states[j].sessions| && states[j].sessions[steps[p].t] == Waiting
    requires forall t :: 0 < t < |states[|steps|].sessions| ==> states[|steps|].sessions[t] == Idle
    ensures Answers(steps, p, i)
    decreases |steps| - j
  {
    hide Next, Init;
    assert j < |steps|;
    assert Next(env, states[j], steps[j], states[j + 1]);
    SessionAfter(env, states[j], steps[j], states[j + 1], steps[p].t);
    if Touches(steps[j], steps[p].t) {
      i := j;
    } else {
      i := FirstReturn(env, states, steps, p, j + 1);
    }
  }

  lemma SessionAfter(env: Env, s: State, step: Step, s': State, t: nat)
    requires Next(env, s, step, s') && t < |s.sessions| && s.sessions[t] == Waiting
    ensures t < |s'.sessions|
    ensures if Touches(step, t) then step.Return? else s'.sessions[t] == Waiting
  {
    hide IsSortOf, IsUpdate;
  }

  /** The inputs of a task are those that were pushed. */
  lemma {:induction false} PushedInputs(env: Env, states: seq<State>, steps: seq<Step>, p: nat, i: nat)
    requires IsRun(env, states, steps) && p < i < |states| && steps[p].Push?
    requires forall j :: p < j < i ==> !Touches(steps[j], steps[p].t)
    ensures steps[p].t < |states[i].tasks| && states[i].tasks[steps[p].t].inputs == steps[p].inputs
  {
    if i == p + 1 {
      assert Next(env, states[p], steps[p], states[i]);
    } else {
      hide IsRun;
      PushedInputs(env, states, steps, p, i - 1);
      InputsKept(env, states, steps, i - 1, steps[p].t);
    }
  }

  ghost function Replies(env: Env, inputs: seq<string>): seq<string> {
    seq(|inputs|, k requires 0 <= k < |inputs| => env.policy(inputs[k], env.keyOf(inputs[k])))
  }

  /** What a batch gets back: the replies to the requests that were pushed, in their order. */
  lemma PushedIsAnswered(env: Env, states: seq<State>, steps: seq<Step>, p: nat, i: nat)
    requires IsRun(env, states, steps) && Answers(steps, p, i)
    ensures steps[i].t < |states[i].tasks| && states[i].tasks[steps[i].t].response == Replies(env, steps[p].inputs)
  {
    assert |states| == |steps| + 1;
    hide IsRun;
    PushedInputs(env, states, steps, p, i);
    ReturnsAnswered(env, states, steps, i);
  }

  /** Sorted or not, with any number of workers and any interleaving: two batches that were pushed
  with the same inputs are returned with the same responses, in request order. */
  lemma ModeDoesNotMatter(env1: Env, states1: seq<State>, steps1: seq<Step>, p: nat, i: nat,
                          env2: Env, states2: seq<State>, steps2: seq<Step>, q: nat, j: nat)
    requires env1.keyOf == env2.keyOf && env1.policy == env2.policy
    requires IsRun(env1, states1, steps1) && Answers(steps1, p, i)
    requires IsRun(env2, states2, steps2) && Answers(steps2, q, j)
    requires steps1[p].inputs == steps2[q].inputs
    ensures steps1[i].t < |states1[i].tasks| && steps2[j].t < |states2[j].tasks|
    ensures states1[i].tasks[steps1[i].t].response == states2[j].tasks[steps2[j].t].response
  {
    assert |states1| == |steps1| + 1 && |states2| == |steps2| + 1;
    hide IsRun;
    PushedIsAnswered(env1, states1, steps1, p, i);
    PushedIsAnswered(env2, states2, steps2, q, j);
  }
}
