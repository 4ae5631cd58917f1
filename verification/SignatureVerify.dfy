/**
 The parallel signature check: one master fills a bounded queue page by page, workers drain it
 in batches and collect the numbers of transactions with a bad signature.

 The protocol is a step relation over the shared variables and the program counters of the
 threads. A program counter names the statement a thread is about to execute; a section that
 runs under the mutex and touches no condition variable is one step.
 */
module SignatureVerify {

  /** A transaction as the workers see it: its number and the outcome of checking each pair. */
  datatype Tx = Tx(nr: nat, signatures: seq<bool>)

  const BATCH_SIZE: nat := 500

  /** What one call of verifySignatures runs with; `pages` is what the blockchain returns per page. */
  datatype Config = Config(pages: nat -> seq<Tx>, firstPage: nat, threadCount: nat)
  {
    function QueueSize(): nat { BATCH_SIZE * (threadCount + 1) }
  }

  datatype ThreadingPolicy = SingleThread | Quarter | Half | ThreeQuarter | All | AllExceptOne

  /** There is always a worker, and never more than the hardware has threads; 0 means that their number is not known. */
  function ResolveThreadCount(policy: ThreadingPolicy, hardware: nat): (count: nat)
    ensures 1 <= count && (hardware > 0 ==> count <= hardware)
    ensures policy.SingleThread? || hardware == 0 ==> count == 1
    ensures policy.All? && hardware > 0 ==> count == hardware
    ensures policy.AllExceptOne? && hardware > 1 ==> count + 1 == hardware
    ensures policy.Quarter? && hardware >= 4 ==> 4 * count <= hardware < 4 * (count + 1)
    ensures policy.Half? && hardware >= 2 ==> 2 * count <= hardware < 2 * (count + 1)
    ensures policy.ThreeQuarter? && hardware >= 2 ==> 4 * count <= 3 * hardware < 4 * (count + 1)
  {
    if hardware == 0 then 1
    else match policy
      case SingleThread => 1
      case Quarter => if hardware / 4 < 1 then 1 else hardware / 4
      case Half => if hardware / 2 < 1 then 1 else hardware / 2
      case ThreeQuarter => if hardware * 3 / 4 < 1 then 1 else hardware * 3 / 4
      case All => hardware
      case AllExceptOne => if hardware > 1 then hardware - 1 else 1
  }

  datatype MasterPc =
    | Lock                          // take the mutex before looking at the queue size
    | CheckSpace                    // holding: is there room in the queue?
    | Fetch                         // ask the blockchain for the next page, unlocked
    | LockAfterDone                 // done is set, take the mutex before leaving the loop
    | LockForPush(fetched: seq<Tx>)
    | Push(fetched: seq<Tx>)        // holding: append the page and unlock
    | NotifyOne
    | Unlock                        // holding: left the filling loop
    | NotifyAll
    | LockForWait
    | WaitCheck                     // holding: evaluate the wait predicate
    | Asleep                        // inside wait, not yet notified
    | Awake                         // notified, has to take the mutex again
    | Join(next: nat)
    | Finished

  datatype WorkerPc =
    | WLock
    | WCheckQueue                   // holding
    | WNotify                       // unlocked, about to notify the master
    | WRelock
    | WPredicate                    // holding: evaluate the wait predicate
    | WGoToSleep                    // holding: predicate was false, about to sleep
    | WAsleep
    | WAwake
    | WTake                         // holding: exit or take a batch
    | WVerify(batch: seq<Tx>)       // unlocked
    | WLockForReport(batch: seq<Tx>)
    | WReport(batch: seq<Tx>)       // holding: append the number of batch[0]
    | WExited

  datatype Holder = Nobody | Master | Worker(id: nat)

  /** `popped` and `verified` are history: what was ever taken from the queue, and what was checked. */
  datatype State = State(
    queue: seq<Tx>, invalidTxNrs: seq<nat>, done: bool, page: nat, holder: Holder,
    master: MasterPc, workers: seq<WorkerPc>, popped: seq<Tx>, verified: seq<Tx>)

  predicate MasterHolds(pc: MasterPc) {
    pc.CheckSpace? || pc.Push? || pc.Unlock? || pc.WaitCheck?
  }

  predicate WorkerHolds(pc: WorkerPc) {
    pc.WCheckQueue? || pc.WPredicate? || pc.WGoToSleep? || pc.WTake? || pc.WReport?
  }

  /** The inner loop over the signature pairs: the first failing pair makes the transaction bad. */
  predicate HasBadSignature(signatures: seq<bool>)
    ensures HasBadSignature(signatures) <==> false in signatures
  {
    signatures != [] && (!signatures[0] || HasBadSignature(signatures[1..]))
  }

  // ---------- steps ----------

  ghost predicate Init(c: Config, s: State) {
    && s == State([], [], false, c.firstPage, Nobody, Lock, s.workers, [], [])
    && |s.workers| == c.threadCount
    && forall i :: 0 <= i < |s.workers| ==> s.workers[i] == WLock
  }

  /** notify_one on the workers' condition variable: wakes one sleeper, if there is one. */
  ghost predicate WakeOne(ws: seq<WorkerPc>, ws': seq<WorkerPc>) {
    || (ws' == ws && forall i :: 0 <= i < |ws| ==> !ws[i].WAsleep?)
    || exists i :: 0 <= i < |ws| && ws[i].WAsleep? && ws' == ws[i := WAwake]
  }

  function WakeAll(ws: seq<WorkerPc>): (ws': seq<WorkerPc>)
    ensures |ws'| == |ws|
    ensures forall i :: 0 <= i < |ws| ==> ws'[i] == if ws[i].WAsleep? then WAwake else ws[i]
  {
    seq(|ws|, i requires 0 <= i < |ws| => if ws[i].WAsleep? then WAwake else ws[i])
  }

  ghost predicate MasterStep(c: Config, s: State, s': State) {
    match s.master
    case Lock =>
      s.holder == Nobody && s' == s.(holder := Master, master := CheckSpace)
    case CheckSpace =>
      if |s.queue| < c.QueueSize()
      then s' == s.(holder := Nobody, master := Fetch)
      else s' == s.(master := Unlock)
    case Fetch =>
      if c.pages(s.page) == []
      then s' == s.(done := true, master := LockAfterDone)
      else s' == s.(master := LockForPush(c.pages(s.page)))
    case LockAfterDone =>
      s.holder == Nobody && s' == s.(holder := Master, master := Unlock)
    case LockForPush(fetched) =>
      s.holder == Nobody && s' == s.(holder := Master, master := Push(fetched))
    case Push(fetched) =>
      s' == s.(queue := s.queue + fetched, page := s.page + 1, holder := Nobody, master := NotifyOne)
    case NotifyOne =>
      WakeOne(s.workers, s'.workers) && s' == s.(workers := s'.workers, master := Lock)
    case Unlock =>
      s' == s.(holder := Nobody, master := NotifyAll)
    case NotifyAll =>
      s' == s.(workers := WakeAll(s.workers), master := if s.done then Join(0) else LockForWait)
    case LockForWait =>
      s.holder == Nobody && s' == s.(holder := Master, master := WaitCheck)
    case WaitCheck =>
      s' == s.(holder := Nobody, master := if |s.queue| < c.QueueSize() then Lock else Asleep)
    case Asleep => false
    case Awake =>
      s.holder == Nobody && s' == s.(holder := Master, master := WaitCheck)
    case Join(next) =>
      if next < |s.workers|
      then s.workers[next].WExited? && s' == s.(master := Join(next + 1))
      else s' == s.(master := Finished)
    case Finished => false
  }

  ghost predicate WorkerStep(s: State, i: nat, s': State)
    requires i < |s.workers|
  {
    var At := (pc: WorkerPc) => s.(workers := s.workers[i := pc]);
    match s.workers[i]
    case WLock =>
      s.holder == Nobody && s' == At(WCheckQueue).(holder := Worker(i))
    case WCheckQueue =>
      if s.queue == [] then s' == At(WNotify).(holder := Nobody) else s' == At(WTake)
    case WNotify =>
      s' == At(WRelock).(master := if s.master.Asleep? then Awake else s.master)
    case WRelock =>
      s.holder == Nobody && s' == At(WPredicate).(holder := Worker(i))
    case WPredicate =>
      s' == At(if s.done || s.queue != [] then WTake else WGoToSleep)
    case WGoToSleep =>
      s' == At(WAsleep).(holder := Nobody)
    case WAsleep => false
    case WAwake =>
      s.holder == Nobody && s' == At(WPredicate).(holder := Worker(i))
    case WTake =>
      if s.done && s.queue == [] then s' == At(WExited).(holder := Nobody)
      else
        var n := if |s.queue| < BATCH_SIZE then |s.queue| else BATCH_SIZE;
        s' == At(WVerify(s.queue[..n])).(holder := Nobody, queue := s.queue[n..], popped := s.popped + s.queue[..n])
    case WVerify(batch) =>
      if batch == [] then s' == At(WLock)
      else if HasBadSignature(batch[0].signatures) then s' == At(WLockForReport(batch))
      else s' == At(WVerify(batch[1..])).(verified := s.verified + [batch[0]])
    case WLockForReport(batch) =>
      s.holder == Nobody && s' == At(WReport(batch)).(holder := Worker(i))
    case WReport(batch) =>
      batch != [] &&
      s' == At(WVerify(batch[1..])).(holder := Nobody, invalidTxNrs := s.invalidTxNrs + [batch[0].nr],
                                    verified := s.verified + [batch[0]])
    case WExited => false
  }

  /** A step of the program: every thread moves by executing its next statement. */
  ghost predicate Step(c: Config, s: State, s': State) {
    || MasterStep(c, s, s')
    || exists i :: 0 <= i < |s.workers| && WorkerStep(s, i, s')
  }

  /** Condition variables may also wake a sleeper without any notification. */
  ghost predicate SpuriousWakeup(s: State, s': State) {
    || (s.master.Asleep? && s' == s.(master := Awake))
    || exists i :: 0 <= i < |s.workers| && s.workers[i].WAsleep? && s' == s.(workers := s.workers[i := WAwake])
  }

  ghost predicate Next(c: Config, s: State, s': State) {
    Step(c, s, s') || SpuriousWakeup(s, s')
  }

  // ---------- the invariant ----------

  /** Everything on the pages first..last-1, in order. */
  ghost function Fetched(c: Config, last: nat): seq<Tx> {
    if last <= c.firstPage then [] else Fetched(c, last - 1) + c.pages(last - 1)
  }

  /** The transactions a worker has taken and not finished yet. */
  function InHand(pc: WorkerPc): seq<Tx> {
    match pc
    case WVerify(batch) => batch
    case WLockForReport(batch) => batch
    case WReport(batch) => batch
    case _ => []
  }

  ghost function Count(txs: seq<Tx>, t: Tx): nat {
    if txs == [] then 0 else (if txs[0] == t then 1 else 0) + Count(txs[1..], t)
  }

  /** How often t is in the hands of some worker. */
  ghost function AllInHand(ws: seq<WorkerPc>, t: Tx): nat {
    if ws == [] then 0 else Count(InHand(ws[0]), t) + AllInHand(ws[1..], t)
  }

  function BadNumbers(txs: seq<Tx>): seq<nat> {
    if txs == [] then []
    else BadNumbers(txs[..|txs|-1]) +
         if HasBadSignature(txs[|txs|-1].signatures) then [txs[|txs|-1].nr] else []
  }

  /** The places of the transactions of a number that have a failing signature. */
  ghost function BadPlaces(txs: seq<Tx>, nr: nat): set<nat> {
    set i: nat | i < |txs| && txs[i].nr == nr && false in txs[i].signatures
  }

  lemma BadPlacesOfInit(txs: seq<Tx>, nr: nat)
    ensures txs == [] ==> BadPlaces(txs, nr) == {}
    ensures txs != [] ==>
      var last := |txs| - 1;
      && last !in BadPlaces(txs[..last], nr)
      && BadPlaces(txs, nr) ==
         BadPlaces(txs[..last], nr) + if txs[last].nr == nr && false in txs[last].signatures then {last} else {}
  {
    if txs != [] {
      var last := |txs| - 1;
      forall i ensures i in BadPlaces(txs[..last], nr) <==> i in BadPlaces(txs, nr) && i != last {
        assert 0 <= i < last ==> txs[..last][i] == txs[i];
      }
    }
  }

  /** A number is reported as often as transactions of that number have a failing signature. */
  lemma {:induction false} BadNumbersAreCounted(txs: seq<Tx>, nr: nat)
    ensures multiset(BadNumbers(txs))[nr] == |BadPlaces(txs, nr)|
  {
    hide BadPlaces;
    BadPlacesOfInit(txs, nr);
    if txs != [] {
      BadNumbersAreCounted(txs[..|txs|-1], nr);
    }
  }

  /** A worker that will notify the master before it can fall asleep, unless it finds work. */
  predicate WillNotify(pc: WorkerPc) {
    pc.WLock? || pc.WCheckQueue? || pc.WNotify? || pc.WVerify? || pc.WLockForReport? || pc.WReport?
  }

  predicate Waiting(pc: MasterPc) {
    pc.LockForWait? || pc.WaitCheck? || pc.Asleep? || pc.Awake?
  }

  ghost predicate MutexInv(s: State) {
    && (s.holder == Master <==> MasterHolds(s.master))
    && (forall i :: 0 <= i < |s.workers| ==> (WorkerHolds(s.workers[i]) <==> s.holder == Worker(i)))
    && (s.holder.Worker? ==> s.holder.id < |s.workers|)
  }

  ghost predicate MasterInv(c: Config, s: State) {
    && c.firstPage <= s.page
    && (forall p :: c.firstPage <= p < s.page ==> c.pages(p) != [])
    && (s.done ==> c.pages(s.page) == [])
    && (s.done ==> s.master.LockAfterDone? || s.master.Unlock? || s.master.NotifyAll? || s.master.Join? || s.master.Finished?)
    && (s.master.LockAfterDone? || s.master.Join? || s.master.Finished? ==> s.done)
    && (s.master.LockForPush? || s.master.Push? ==> s.master.fetched == c.pages(s.page) != [])
    && (s.master.Fetch? || s.master.LockForPush? || s.master.Push? ==> |s.queue| < c.QueueSize())
    && (s.master.Join? ==> s.master.next <= |s.workers| && forall i :: 0 <= i < s.master.next ==> s.workers[i].WExited?)
    && (s.master.Finished? ==> forall i :: 0 <= i < |s.workers| ==> s.workers[i].WExited?)
  }

  ghost predicate WorkerInv(s: State, pc: WorkerPc) {
    && (pc.WTake? ==> s.done || s.queue != [])
    && (pc.WGoToSleep? ==> s.queue == [] && (s.done ==> s.master.LockAfterDone?))
    && (pc.WExited? ==> s.done && s.queue == [])
    && (pc.WLockForReport? || pc.WReport? ==> pc.batch != [] && HasBadSignature(pc.batch[0].signatures))
    && |InHand(pc)| <= BATCH_SIZE
    // no lost wake-up of a worker
    && (pc.WAsleep? ==> !s.master.Join? && !s.master.Finished?)
    && (pc.WAsleep? && Waiting(s.master) ==> s.queue == [])
  }

  ghost predicate WakeupInv(s: State) {
    // no lost wake-up of the master
    s.master.Asleep? ==> s.queue != [] || exists i :: 0 <= i < |s.workers| && WillNotify(s.workers[i])
  }

  ghost predicate ConservationInv(c: Config, s: State) {
    && Fetched(c, s.page) == s.popped + s.queue
    && (forall t :: Count(s.popped, t) == Count(s.verified, t) + AllInHand(s.workers, t))
    && s.invalidTxNrs == BadNumbers(s.verified)
  }

  ghost predicate Inv(c: Config, s: State) {
    && |s.workers| == c.threadCount
    && MutexInv(s)
    && MasterInv(c, s)
    && (forall i :: 0 <= i < |s.workers| ==> WorkerInv(s, s.workers[i]))
    && WakeupInv(s)
    && ConservationInv(c, s)
  }

  // ---------- lemmas about the batches in hand ----------

  lemma {:induction false} AllInHandUpdate(ws: seq<WorkerPc>, i: nat, pc: WorkerPc, t: Tx)
    requires i < |ws|
    ensures AllInHand(ws[i := pc], t) + Count(InHand(ws[i]), t) == AllInHand(ws, t) + Count(InHand(pc), t)
  {
    if i == 0 {
      assert ws[i := pc][1..] == ws[1..];
    } else {
      assert ws[i := pc][1..] == ws[1..][i - 1 := pc];
      AllInHandUpdate(ws[1..], i - 1, pc, t);
    }
  }

  lemma {:induction false} AllInHandSame(ws: seq<WorkerPc>, ws': seq<WorkerPc>, t: Tx)
    requires |ws| == |ws'|
    requires forall i :: 0 <= i < |ws| ==> InHand(ws[i]) == InHand(ws'[i])
    ensures AllInHand(ws, t) == AllInHand(ws', t)
  {
    if ws != [] {
      AllInHandSame(ws[1..], ws'[1..], t);
    }
  }

  lemma {:induction false} NothingInHand(ws: seq<WorkerPc>, t: Tx)
    requires forall i :: 0 <= i < |ws| ==> InHand(ws[i]) == []
    ensures AllInHand(ws, t) == 0
  {
    if ws != [] {
      NothingInHand(ws[1..], t);
    }
  }

  lemma {:induction false} CountConcat(a: seq<Tx>, b: seq<Tx>, t: Tx)
    ensures Count(a + b, t) == Count(a, t) + Count(b, t)
  {
    if a == [] {
      assert a + b == b;
    } else {
      assert (a + b)[1..] == a[1..] + b;
      CountConcat(a[1..], b, t);
    }
  }

  // ---------- safety ----------

  lemma InitInv(c: Config, s: State)
    requires Init(c, s)
    ensures Inv(c, s)
  {
    forall t { NothingInHand(s.workers, t); }
  }

  lemma MasterStepKeepsControl(c: Config, s: State, s': State)
    requires |s.workers| == c.threadCount && MutexInv(s) && MasterInv(c, s) && MasterStep(c, s, s')
    ensures |s'.workers| == c.threadCount && MutexInv(s') && MasterInv(c, s')
  {
  }

  lemma MasterStepKeepsWorkers(c: Config, s: State, s': State, i: nat)
    requires MutexInv(s) && MasterInv(c, s) && MasterStep(c, s, s') && |s'.workers| == |s.workers|
    requires i < |s.workers| && WorkerInv(s, s.workers[i])
    ensures WorkerInv(s', s'.workers[i])
  {
  }

  lemma MasterStepKeepsConservation(c: Config, s: State, s': State)
    requires MasterInv(c, s) && ConservationInv(c, s) && MasterStep(c, s, s')
    ensures ConservationInv(c, s')
  {
    assert |s.workers| == |s'.workers|;
    forall t { AllInHandSame(s.workers, s'.workers, t); }
    if s.master.Push? {
      assert s'.popped + s'.queue == (s.popped + s.queue) + s.master.fetched;
    }
  }

  lemma MasterStepKeepsInv(c: Config, s: State, s': State)
    requires Inv(c, s) && MasterStep(c, s, s')
    ensures Inv(c, s')
  {
    MasterStepKeepsControl(c, s, s');
    forall i | 0 <= i < |s'.workers| ensures WorkerInv(s', s'.workers[i]) {
      MasterStepKeepsWorkers(c, s, s', i);
    }
    MasterStepKeepsConservation(c, s, s');
  }

  lemma WorkerStepKeepsMutex(s: State, i: nat, s': State)
    requires MutexInv(s) && i < |s.workers| && WorkerStep(s, i, s')
    ensures |s'.workers| == |s.workers| && MutexInv(s')
  {
    WorkerStepUsesMutex(s, i, s');
    hide WorkerStep, MasterHolds, WorkerHolds;
  }

  /** A worker's step keeps the mutex where it is, takes it while it is free, or gives it back. */
  lemma WorkerStepUsesMutex(s: State, i: nat, s': State)
    requires i < |s.workers| && WorkerStep(s, i, s')
    ensures |s'.workers| == |s.workers| && s'.workers == s.workers[i := s'.workers[i]]
    ensures MasterHolds(s'.master) == MasterHolds(s.master)
    ensures var before, after := WorkerHolds(s.workers[i]), WorkerHolds(s'.workers[i]);
      if before == after then s'.holder == s.holder
      else if after then s.holder == Nobody && s'.holder == Worker(i)
      else s'.holder == Nobody
  {
  }

  lemma WorkerStepKeepsMaster(c: Config, s: State, i: nat, s': State)
    requires MasterInv(c, s) && i < |s.workers| && WorkerStep(s, i, s')
    ensures MasterInv(c, s')
  {
    assert forall j :: 0 <= j < |s.workers| && s.workers[j].WExited? ==> s'.workers[j].WExited?;
    assert |s'.queue| <= |s.queue|;
  }

  lemma WorkerStepKeepsItself(s: State, i: nat, s': State)
    requires i < |s.workers| && MutexInv(s) && (s.master.Join? || s.master.Finished? ==> s.done)
    requires WorkerInv(s, s.workers[i]) && WorkerStep(s, i, s')
    ensures |s'.workers| == |s.workers| && WorkerInv(s', s'.workers[i])
  {
  }

  lemma WorkerStepKeepsOthers(s: State, i: nat, s': State, j: nat)
    requires i < |s.workers| && j < |s.workers| && j != i && MutexInv(s)
    requires WorkerInv(s, s.workers[j]) && WorkerStep(s, i, s')
    ensures |s'.workers| == |s.workers| && WorkerInv(s', s'.workers[j])
  {
  }

  lemma WorkerStepKeepsWakeup(s: State, i: nat, s': State)
    requires i < |s.workers| && WorkerInv(s, s.workers[i]) && WakeupInv(s) && WorkerStep(s, i, s')
    ensures WakeupInv(s')
  {
    if s'.master.Asleep? && s'.queue == [] {
      if s.queue != [] {
        assert WillNotify(s'.workers[i]);
      } else {
        var j :| 0 <= j < |s.workers| && WillNotify(s.workers[j]);
        assert WillNotify(s'.workers[j]);
      }
    }
  }

  /** A worker's step takes a prefix of the queue in hand, finishes the head of its batch, or neither. */
  ghost predicate Transfer(s: State, i: nat, s': State)
    requires i < |s.workers|
  {
    && |s'.workers| == |s.workers| && s'.page == s.page
    && s'.workers == s.workers[i := s'.workers[i]]
    && var hand, hand' := InHand(s.workers[i]), InHand(s'.workers[i]);
      if s'.popped != s.popped || s'.queue != s.queue then
        && s'.popped == s.popped + hand' && s.queue == hand' + s'.queue && hand == []
        && s'.verified == s.verified && s'.invalidTxNrs == s.invalidTxNrs
      else if s'.verified != s.verified then
        && hand != [] && hand' == hand[1..] && s'.verified == s.verified + [hand[0]]
        && s'.invalidTxNrs == s.invalidTxNrs + if HasBadSignature(hand[0].signatures) then [hand[0].nr] else []
      else
        hand' == hand && s'.invalidTxNrs == s.invalidTxNrs
  }

  lemma WorkerStepTransfers(s: State, i: nat, s': State)
    requires i < |s.workers| && WorkerInv(s, s.workers[i]) && WorkerStep(s, i, s')
    ensures Transfer(s, i, s')
  {
  }

  lemma TransferConservesCount(s: State, i: nat, s': State, t: Tx)
    requires i < |s.workers| && Transfer(s, i, s')
    requires Count(s.popped, t) == Count(s.verified, t) + AllInHand(s.workers, t)
    ensures Count(s'.popped, t) == Count(s'.verified, t) + AllInHand(s'.workers, t)
  {
    var hand, hand' := InHand(s.workers[i]), InHand(s'.workers[i]);
    AllInHandUpdate(s.workers, i, s'.workers[i], t);
    CountConcat(s.popped, hand', t);
    if hand != [] {
      assert hand == [hand[0]] + hand[1..];
      CountConcat([hand[0]], hand[1..], t);
      CountConcat(s.verified, [hand[0]], t);
    }
  }

  lemma TransferKeepsConservation(c: Config, s: State, i: nat, s': State)
    requires i < |s.workers| && Transfer(s, i, s') && ConservationInv(c, s)
    ensures ConservationInv(c, s')
  {
    forall t ensures Count(s'.popped, t) == Count(s'.verified, t) + AllInHand(s'.workers, t) {
      TransferConservesCount(s, i, s', t);
    }
    assert s'.popped + s'.queue == s.popped + s.queue;
    if s'.verified != s.verified {
      assert s'.verified[..|s.verified|] == s.verified;
    }
  }

  lemma WorkerStepKeepsInv(c: Config, s: State, i: nat, s': State)
    requires Inv(c, s) && i < |s.workers| && WorkerStep(s, i, s')
    ensures Inv(c, s')
  {
    WorkerStepKeepsMutex(s, i, s');
    WorkerStepKeepsMaster(c, s, i, s');
    forall j | 0 <= j < |s'.workers| ensures WorkerInv(s', s'.workers[j]) {
      if j == i {
        WorkerStepKeepsItself(s, i, s');
      } else {
        WorkerStepKeepsOthers(s, i, s', j);
      }
    }
    WorkerStepKeepsWakeup(s, i, s');
    WorkerStepTransfers(s, i, s');
    TransferKeepsConservation(c, s, i, s');
  }

  lemma SpuriousWakeupKeepsControl(c: Config, s: State, s': State)
    requires MutexInv(s) && MasterInv(c, s) && SpuriousWakeup(s, s')
    ensures |s'.workers| == |s.workers| && MutexInv(s') && MasterInv(c, s')
  {
  }

  lemma SpuriousWakeupKeepsWorkers(s: State, s': State, j: nat)
    requires SpuriousWakeup(s, s') && |s'.workers| == |s.workers| && j < |s.workers| && WorkerInv(s, s.workers[j])
    ensures WorkerInv(s', s'.workers[j]) && InHand(s'.workers[j]) == InHand(s.workers[j])
    ensures WillNotify(s.workers[j]) ==> WillNotify(s'.workers[j])
  {
  }

  lemma SpuriousWakeupKeepsInv(c: Config, s: State, s': State)
    requires Inv(c, s) && SpuriousWakeup(s, s')
    ensures Inv(c, s')
  {
    SpuriousWakeupKeepsControl(c, s, s');
    forall j | 0 <= j < |s.workers|
      ensures WorkerInv(s', s'.workers[j]) && InHand(s'.workers[j]) == InHand(s.workers[j])
      ensures WillNotify(s.workers[j]) ==> WillNotify(s'.workers[j])
    {
      SpuriousWakeupKeepsWorkers(s, s', j);
    }
    forall t { AllInHandSame(s.workers, s'.workers, t); }
  }

  /** The invariant holds in every state any interleaving can reach, spurious wake-ups included. */
  lemma NextKeepsInv(c: Config, s: State, s': State)
    requires Inv(c, s) && Next(c, s, s')
    ensures Inv(c, s')
  {
    if SpuriousWakeup(s, s') {
      SpuriousWakeupKeepsInv(c, s, s');
    } else if MasterStep(c, s, s') {
      MasterStepKeepsInv(c, s, s');
    } else {
      var i :| 0 <= i < |s.workers| && WorkerStep(s, i, s');
      WorkerStepKeepsInv(c, s, i, s');
    }
  }

  /** front() and pop() are only ever reached on a non-empty queue, and a batch never exceeds its limit. */
  lemma TakenBatchIsProper(c: Config, s: State, i: nat, s': State)
    requires Inv(c, s) && i < |s.workers| && s.workers[i].WTake? && WorkerStep(s, i, s') && !s'.workers[i].WExited?
    ensures s.queue != [] && s'.workers[i].WVerify? && 1 <= |s'.workers[i].batch| <= 500
    ensures |s'.workers[i].batch| < 500 ==> s'.queue == []
    ensures s.queue == s'.workers[i].batch + s'.queue
  {
    assert WorkerInv(s, s.workers[i]);
  }

  /** Two threads are never inside the mutex together. */
  lemma MutualExclusion(c: Config, s: State, i: nat, j: nat)
    requires Inv(c, s) && i < j < |s.workers|
    ensures !(WorkerHolds(s.workers[i]) && WorkerHolds(s.workers[j]))
    ensures MasterHolds(s.master) ==> !WorkerHolds(s.workers[i]) && !WorkerHolds(s.workers[j])
  {
  }

  /** The queue only grows by one page at a time, and only while it is below its limit. */
  lemma QueueStaysBounded(c: Config, s: State, s': State)
    requires Inv(c, s) && Next(c, s, s')
    ensures |s'.queue| <= |s.queue| ||
            (|s.queue| < 500 * (c.threadCount + 1) && s'.queue == s.queue + c.pages(s.page) && s'.page == s.page + 1)
  {
  }

  // ---------- no deadlock ----------

  predicate MasterNeedsMutex(pc: MasterPc) {
    pc.Lock? || pc.LockAfterDone? || pc.LockForPush? || pc.LockForWait? || pc.Awake?
  }

  predicate WorkerNeedsMutex(pc: WorkerPc) {
    pc.WLock? || pc.WRelock? || pc.WAwake? || pc.WLockForReport?
  }

  lemma MasterCanStep(c: Config, s: State)
    requires !s.master.Asleep? && !s.master.Finished?
    requires MasterNeedsMutex(s.master) ==> s.holder == Nobody
    requires s.master.Join? && s.master.next < |s.workers| ==> s.workers[s.master.next].WExited?
    ensures exists s' :: MasterStep(c, s, s')
  {
    var empty := c.pages(s.page) == [];
    var woken := s.workers;
    if i :| 0 <= i < |s.workers| && s.workers[i].WAsleep? {
      woken := s.workers[i := WAwake];
    }
    assert WakeOne(s.workers, woken);
    var s' := match s.master
      case Lock => s.(holder := Master, master := CheckSpace)
      case CheckSpace =>
        if |s.queue| < c.QueueSize() then s.(holder := Nobody, master := Fetch) else s.(master := Unlock)
      case Fetch =>
        if empty then s.(done := true, master := LockAfterDone) else s.(master := LockForPush(c.pages(s.page)))
      case LockAfterDone => s.(holder := Master, master := Unlock)
      case LockForPush(fetched) => s.(holder := Master, master := Push(fetched))
      case Push(fetched) =>
        s.(queue := s.queue + fetched, page := s.page + 1, holder := Nobody, master := NotifyOne)
      case NotifyOne => s.(workers := woken, master := Lock)
      case Unlock => s.(holder := Nobody, master := NotifyAll)
      case NotifyAll => s.(workers := WakeAll(s.workers), master := if s.done then Join(0) else LockForWait)
      case LockForWait => s.(holder := Master, master := WaitCheck)
      case WaitCheck => s.(holder := Nobody, master := if |s.queue| < c.QueueSize() then Lock else Asleep)
      case Awake => s.(holder := Master, master := WaitCheck)
      case Join(next) => if next < |s.workers| then s.(master := Join(next + 1)) else s.(master := Finished)
      case _ => s;
    assert MasterStep(c, s, s');
  }

  lemma WorkerCanStep(s: State, i: nat)
    requires i < |s.workers| && !s.workers[i].WAsleep? && !s.workers[i].WExited?
    requires WorkerInv(s, s.workers[i])
    requires WorkerNeedsMutex(s.workers[i]) ==> s.holder == Nobody
    ensures exists s' :: WorkerStep(s, i, s')
  {
    var n := if |s.queue| < BATCH_SIZE then |s.queue| else BATCH_SIZE;
    var to := (pc: WorkerPc) => s.(workers := s.workers[i := pc]);
    var s' := match s.workers[i]
      case WLock => to(WCheckQueue).(holder := Worker(i))
      case WCheckQueue => if s.queue == [] then to(WNotify).(holder := Nobody) else to(WTake)
      case WNotify => to(WRelock).(master := if s.master.Asleep? then Awake else s.master)
      case WPredicate => to(if s.done || s.queue != [] then WTake else WGoToSleep)
      case WGoToSleep => to(WAsleep).(holder := Nobody)
      case WTake =>
        if s.done && s.queue == [] then to(WExited).(holder := Nobody)
        else to(WVerify(s.queue[..n])).(holder := Nobody, queue := s.queue[n..], popped := s.popped + s.queue[..n])
      case WVerify(batch) =>
        if batch == [] then to(WLock)
        else if HasBadSignature(batch[0].signatures) then to(WLockForReport(batch))
        else to(WVerify(batch[1..])).(verified := s.verified + [batch[0]])
      case WLockForReport(batch) => to(WReport(batch)).(holder := Worker(i))
      case WReport(batch) =>
        to(WVerify(batch[1..])).(holder := Nobody, invalidTxNrs := s.invalidTxNrs + [batch[0].nr],
                                verified := s.verified + [batch[0]])
      case _ => to(WPredicate).(holder := Worker(i));
    assert WorkerStep(s, i, s');
  }

  /** A master waiting on a full queue leaves every worker awake to drain it. */
  lemma FullQueueHasDrainers(c: Config, s: State, i: nat)
    requires Inv(c, s) && s.master.Asleep? && s.queue != [] && i < |s.workers|
    ensures !s.workers[i].WAsleep? && !s.workers[i].WExited?
  {
    assert WorkerInv(s, s.workers[i]);
  }

  /** With at least one worker, every unfinished state has a step that needs no spurious wake-up. */
  lemma NoDeadlock(c: Config, s: State)
    requires Inv(c, s) && 1 <= c.threadCount && !s.master.Finished?
    ensures exists s' :: Step(c, s, s')
  {
    var i: nat := 0;
    if s.holder.Worker? {
      i := s.holder.id;
    } else if s.master.Asleep? {
      if s.queue == [] {
        i :| 0 <= i < |s.workers| && WillNotify(s.workers[i]);
      } else {
        FullQueueHasDrainers(c, s, 0);
      }
    } else if s.master.Join? && s.master.next < |s.workers| && !s.workers[s.master.next].WExited? {
      i := s.master.next;
    } else {
      MasterCanStep(c, s);
      var next :| MasterStep(c, s, next);
      assert Step(c, s, next);
      return;
    }
    assert WorkerInv(s, s.workers[i]);
    WorkerCanStep(s, i);
    var next :| WorkerStep(s, i, next);
    assert Step(c, s, next);
  }

  // ---------- termination ----------

  function Total(ws: seq<WorkerPc>, rank: WorkerPc -> nat): nat {
    if ws == [] then 0 else rank(ws[0]) + Total(ws[1..], rank)
  }

  function BatchRank(pc: WorkerPc): nat {
    match pc
    case WVerify(batch) => 3 * |batch| + 2
    case WLockForReport(batch) => 3 * |batch| + 1
    case WReport(batch) => 3 * |batch|
    case _ => 0
  }

  function NotifyRank(pc: WorkerPc): nat {
    match pc
    case WVerify(_) => 4
    case WLockForReport(_) => 4
    case WReport(_) => 4
    case WLock => 3
    case WCheckQueue => 2
    case WNotify => 1
    case _ => 0
  }

  function SleepRank(pc: WorkerPc): nat {
    match pc
    case WRelock => 6
    case WAwake => 5
    case WPredicate => 4
    case WGoToSleep => 3
    case WTake => 2
    case _ => 0
  }

  function MasterRank(c: Config, s: State): nat {
    var full := c.QueueSize() <= |s.queue|;
    match s.master
    case LockAfterDone => |s.workers| + 31
    case NotifyOne => |s.workers| + 30
    case Lock => |s.workers| + if full then 29 else 15
    case CheckSpace => |s.workers| + if full then 28 else 14
    case Unlock => |s.workers| + 20
    case NotifyAll => |s.workers| + 19
    case LockForWait => |s.workers| + 18
    case Awake => |s.workers| + 17
    case WaitCheck => |s.workers| + 16
    case Fetch => |s.workers| + 13
    case LockForPush(_) => |s.workers| + 12
    case Push(_) => |s.workers| + 11
    case Join(next) => if next <= |s.workers| then |s.workers| + 1 - next else 0
    case Asleep => 0
    case Finished => 0
  }

  lemma {:induction false} TotalUpdate(ws: seq<WorkerPc>, i: nat, pc: WorkerPc, rank: WorkerPc -> nat)
    requires i < |ws|
    ensures Total(ws[i := pc], rank) + rank(ws[i]) == Total(ws, rank) + rank(pc)
  {
    if i == 0 {
      assert ws[i := pc][1..] == ws[1..];
    } else {
      assert ws[i := pc][1..] == ws[1..][i - 1 := pc];
      TotalUpdate(ws[1..], i - 1, pc, rank);
    }
  }

  lemma {:induction false} TotalSame(ws: seq<WorkerPc>, ws': seq<WorkerPc>, rank: WorkerPc -> nat)
    requires |ws| == |ws'|
    requires forall i :: 0 <= i < |ws| ==> rank(ws[i]) == rank(ws'[i])
    ensures Total(ws, rank) == Total(ws', rank)
  {
    if ws != [] {
      TotalSame(ws[1..], ws'[1..], rank);
    }
  }

  /** Pages that are still to be pushed, plus one until `done` is set. */
  ghost function PagesLeft(s: State, emptyPage: nat): int {
    emptyPage - s.page + if s.done then 0 else 1
  }

  /** The lexicographic order on (pages, queue, batches, pending notifications, master, sleepers). */
  ghost predicate Decreases(c: Config, emptyPage: nat, s: State, s': State) {
    if PagesLeft(s', emptyPage) != PagesLeft(s, emptyPage) then PagesLeft(s', emptyPage) < PagesLeft(s, emptyPage)
    else if |s'.queue| != |s.queue| then |s'.queue| < |s.queue|
    else if Total(s'.workers, BatchRank) != Total(s.workers, BatchRank)
      then Total(s'.workers, BatchRank) < Total(s.workers, BatchRank)
    else if Total(s'.workers, NotifyRank) != Total(s.workers, NotifyRank)
      then Total(s'.workers, NotifyRank) < Total(s.workers, NotifyRank)
    else if MasterRank(c, s') != MasterRank(c, s) then MasterRank(c, s') < MasterRank(c, s)
    else Total(s'.workers, SleepRank) < Total(s.workers, SleepRank)
  }

  lemma MasterStepDecreases(c: Config, emptyPage: nat, s: State, s': State)
    requires MasterInv(c, s) && MasterStep(c, s, s')
    ensures Decreases(c, emptyPage, s, s')
  {
    if s'.page == s.page && s'.done == s.done {
      assert |s'.workers| == |s.workers|;
      TotalSame(s.workers, s'.workers, BatchRank);
      TotalSame(s.workers, s'.workers, NotifyRank);
      MasterRankDecreases(c, s, s');
    }
  }

  lemma MasterRankDecreases(c: Config, s: State, s': State)
    requires MasterInv(c, s) && MasterStep(c, s, s') && s'.page == s.page && s'.done == s.done
    ensures MasterRank(c, s') < MasterRank(c, s)
  {
  }

  lemma WorkerStepDecreases(c: Config, emptyPage: nat, s: State, i: nat, s': State)
    requires i < |s.workers| && WorkerInv(s, s.workers[i]) && WorkerStep(s, i, s')
    ensures Decreases(c, emptyPage, s, s')
  {
    if |s'.queue| == |s.queue| {
      TotalUpdate(s.workers, i, s'.workers[i], BatchRank);
      TotalUpdate(s.workers, i, s'.workers[i], NotifyRank);
      TotalUpdate(s.workers, i, s'.workers[i], SleepRank);
      WorkerRankDecreases(s, i, s');
    }
  }

  lemma WorkerRankDecreases(s: State, i: nat, s': State)
    requires i < |s.workers| && WorkerInv(s, s.workers[i]) && WorkerStep(s, i, s') && |s'.queue| == |s.queue|
    ensures s'.workers == s.workers[i := s'.workers[i]] && s'.page == s.page && s'.done == s.done
    ensures
      var pc, pc' := s.workers[i], s'.workers[i];
      if BatchRank(pc') != BatchRank(pc) then BatchRank(pc') < BatchRank(pc)
      else if NotifyRank(pc') != NotifyRank(pc) then NotifyRank(pc') < NotifyRank(pc)
      else s'.master == s.master && SleepRank(pc') < SleepRank(pc)
  {
  }

  lemma StepDecreases(c: Config, emptyPage: nat, s: State, s': State)
    requires Inv(c, s) && Step(c, s, s')
    ensures Decreases(c, emptyPage, s, s')
  {
    if MasterStep(c, s, s') {
      MasterStepDecreases(c, emptyPage, s, s');
    } else {
      var i :| 0 <= i < |s.workers| && WorkerStep(s, i, s');
      assert WorkerInv(s, s.workers[i]);
      WorkerStepDecreases(c, emptyPage, s, i, s');
    }
  }

  /**
   A run takes a step in every unfinished state, in any order of the threads. Before the position calm
   there may be any number of spurious wake-ups.
   */
  ghost predicate IsRun(c: Config, run: nat -> State, calm: nat) {
    && Init(c, run(0))
    && (forall n: nat :: !run(n).master.Finished? ==> Next(c, run(n), run(n + 1)))
    && (forall n: nat :: calm <= n && !run(n).master.Finished? ==> Step(c, run(n), run(n + 1)))
  }

  /** The invariant holds up to any position, or the run is finished before. */
  lemma {:induction false} InvUpTo(c: Config, run: nat -> State, calm: nat, n: nat) returns (m: nat)
    requires IsRun(c, run, calm)
    ensures m <= n && Inv(c, run(m)) && (m == n || run(m).master.Finished?)
  {
    if n == 0 {
      m := 0;
      InitInv(c, run(0));
    } else {
      m := InvUpTo(c, run, calm, n - 1);
      if !run(m).master.Finished? {
        NextKeepsInv(c, run(m), run(m + 1));
        m := n;
      }
    }
  }

  lemma {:induction false} RunFinishesFrom(c: Config, run: nat -> State, calm: nat, emptyPage: nat, n: nat) returns (m: nat)
    requires IsRun(c, run, calm) && Inv(c, run(n)) && (calm <= n || run(n).master.Finished?)
    requires c.firstPage <= emptyPage && c.pages(emptyPage) == []
    ensures run(m).master.Finished? && Inv(c, run(m))
    decreases PagesLeft(run(n), emptyPage), |run(n).queue|, Total(run(n).workers, BatchRank),
              Total(run(n).workers, NotifyRank), MasterRank(c, run(n)), Total(run(n).workers, SleepRank)
  {
    if run(n).master.Finished? {
      m := n;
    } else {
      NextKeepsInv(c, run(n), run(n + 1));
      StepDecreases(c, emptyPage, run(n), run(n + 1));
      assert run(n + 1).page <= emptyPage;
      m := RunFinishesFrom(c, run, calm, emptyPage, n + 1);
    }
  }

  // ---------- the result ----------

  lemma {:induction false} CountIsMultiplicity(txs: seq<Tx>, t: Tx)
    ensures Count(txs, t) == multiset(txs)[t]
  {
    if txs != [] {
      CountIsMultiplicity(txs[1..], t);
      assert txs == [txs[0]] + txs[1..];
    }
  }

  lemma {:induction false} BadNumbersConcat(a: seq<Tx>, b: seq<Tx>)
    ensures BadNumbers(a + b) == BadNumbers(a) + BadNumbers(b)
  {
    if b == [] {
      assert a + b == a;
    } else {
      assert (a + b)[..|a + b| - 1] == a + b[..|b| - 1];
      BadNumbersConcat(a, b[..|b| - 1]);
    }
  }

  function Without(txs: seq<Tx>, j: nat): seq<Tx>
    requires j < |txs|
  {
    txs[..j] + txs[j+1..]
  }

  lemma WithoutMultiset(txs: seq<Tx>, j: nat)
    requires j < |txs|
    ensures multiset(txs) == multiset(Without(txs, j)) + multiset{txs[j]}
  {
    assert txs == txs[..j] + ([txs[j]] + txs[j+1..]);
  }

  lemma BadNumbersWithout(txs: seq<Tx>, j: nat)
    requires j < |txs|
    ensures multiset(BadNumbers(txs)) == multiset(BadNumbers(Without(txs, j))) + multiset(BadNumbers([txs[j]]))
  {
    hide BadNumbers;
    var before, x, after := txs[..j], [txs[j]], txs[j+1..];
    assert txs == before + (x + after) by { assert txs[j..] == x + after; }
    BadNumbersConcat(before, x + after);
    BadNumbersConcat(x, after);
    BadNumbersConcat(before, after);
    Swap(BadNumbers(before), BadNumbers(x), BadNumbers(after));
  }

  lemma Swap(a: seq<nat>, b: seq<nat>, c: seq<nat>)
    ensures multiset(a + (b + c)) == multiset(a + c) + multiset(b)
  {
  }

  /** The numbers collected do not depend on the order in which transactions are verified. */
  lemma {:induction false} BadNumbersAnyOrder(a: seq<Tx>, b: seq<Tx>)
    requires multiset(a) == multiset(b)
    ensures multiset(BadNumbers(a)) == multiset(BadNumbers(b))
  {
    if a == [] {
      assert |multiset(b)| == 0;
    } else {
      assert a[0] in multiset(b);
      var j :| 0 <= j < |b| && b[j] == a[0];
      WithoutMultiset(a, 0);
      WithoutMultiset(b, j);
      assert multiset(Without(a, 0)) == multiset(a) - multiset{a[0]};
      assert multiset(Without(b, j)) == multiset(b) - multiset{a[0]};
      BadNumbersAnyOrder(Without(a, 0), Without(b, j));
      BadNumbersWithout(a, 0);
      BadNumbersWithout(b, j);
    }
  }

  /** All transactions verifySignatures has to look at: the pages before the first empty one. */
  ghost predicate FirstEmptyPage(c: Config, emptyPage: nat) {
    && c.firstPage <= emptyPage && c.pages(emptyPage) == []
    && forall p :: c.firstPage <= p < emptyPage ==> c.pages(p) != []
  }

  /** When the master returns, every transaction was verified exactly once and exactly the bad ones are reported. */
  lemma FinishedIsCorrect(c: Config, s: State, emptyPage: nat)
    requires Inv(c, s) && s.master.Finished? && 1 <= c.threadCount && FirstEmptyPage(c, emptyPage)
    ensures s.popped == Fetched(c, emptyPage) && s.queue == []
    ensures multiset(s.verified) == multiset(Fetched(c, emptyPage))
    ensures multiset(s.invalidTxNrs) == multiset(BadNumbers(Fetched(c, emptyPage)))
  {
    assert WorkerInv(s, s.workers[0]);
    assert s.popped + s.queue == s.popped;
    assert s.page == emptyPage;
    forall t ensures multiset(s.verified)[t] == multiset(s.popped)[t] {
      NothingInHand(s.workers, t);
      CountIsMultiplicity(s.verified, t);
      CountIsMultiplicity(s.popped, t);
    }
    BadNumbersAnyOrder(s.verified, s.popped);
  }

  /**
   Under every schedule with finitely many spurious wake-ups the check returns, with the numbers of
   exactly the badly signed transactions.
   */
  lemma EveryRunReturnsTheBadNumbers(c: Config, run: nat -> State, calm: nat, emptyPage: nat)
    requires IsRun(c, run, calm) && 1 <= c.threadCount && FirstEmptyPage(c, emptyPage)
    ensures exists m: nat ::
      && run(m).master.Finished?
      && multiset(run(m).verified) == multiset(Fetched(c, emptyPage))
      && multiset(run(m).invalidTxNrs) == multiset(BadNumbers(Fetched(c, emptyPage)))
      && forall nr: nat :: multiset(run(m).invalidTxNrs)[nr] == |BadPlaces(Fetched(c, emptyPage), nr)|
  {
    var n := InvUpTo(c, run, calm, calm);
    var m := RunFinishesFrom(c, run, calm, emptyPage, n);
    FinishedIsCorrect(c, run(m), emptyPage);
    forall nr { BadNumbersAreCounted(Fetched(c, emptyPage), nr); }
  }
}
