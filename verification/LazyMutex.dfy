/** The lazy initialisation of statically declared mutexes (src/libthr/pthread.c) and the mutex
    operations built on it, as a step system.

    A state holds any number of threads, each with a program counter, any number of shim mutexes and
    every native mutex object created so far. One step is one access to shared memory or one call into
    the native library; a run is any interleaving of enabled steps. Memory is sequentially consistent.

    A MutexId stands for one lifetime of the storage of a mutex, from its initialiser to its destruction. */
module LazyMutex {
  import opened Wrappers

  type ThreadId = nat
  type MutexId = nat
  type NativeId = nat

  const LINUX_NORMAL: nat := 0
  const LINUX_RECURSIVE: nat := 1
  const LINUX_ERRORCHECK: nat := 2
  const LINUX_ADAPTIVE_NP: nat := 3

  datatype NativeKind = NativeNormal | NativeRecursive | NativeErrorCheck | NativeAdaptive

  /** FreeBSD's PTHREAD_MUTEX_DEFAULT: what the native library makes of a NULL mutex or a NULL attribute. */
  const DEFAULT_KIND := NativeErrorCheck

  /** linux_to_native_mutex_kind; None is its PANIC branch. */
  function TranslateKind(linuxKind: nat): Option<NativeKind> {
    if linuxKind == LINUX_NORMAL then Some(NativeNormal)
    else if linuxKind == LINUX_RECURSIVE then Some(NativeRecursive)
    else if linuxKind == LINUX_ERRORCHECK then Some(NativeErrorCheck)
    else if linuxKind == LINUX_ADAPTIVE_NP then Some(NativeAdaptive)
    else None
  }

  /** The value of the `_wrapped_mutex` field; the native library leaves a marker after a destroy. */
  datatype Wrapped = Null | Live(id: NativeId) | Destroyed

  /** linuxKind is the field of the structure. The other two record how the mutex was made: by pthread_mutex_init, and
      then with which kind in its attribute, if it had one. */
  datatype ShimMutex = ShimMutex(linuxKind: nat, wrapped: Wrapped, viaInit: bool, attrKind: Option<nat>)

  /** Who created a native object and how. Lazy also records who held the guard at that moment. */
  datatype Birth = Lazy(creator: ThreadId, guard: Option<ThreadId>) | Static(creator: ThreadId) | Explicit(creator: ThreadId)

  datatype NativeMutex = NativeMutex(kind: NativeKind, owner: Option<ThreadId>, depth: nat, origin: MutexId, birth: Birth)

  datatype Op = Lock | TryLock | TimedLock | CondWait | CondTimedWait

  predicate IsWait(op: Op) { op.CondWait? || op.CondTimedWait? }

  /** Where a thread is: the first six lines are those of init_mutex_if_necessary. A thread inside cond_wait
      has given its mutex up: `saved` is the depth the native library will restore, `count` is how often the
      client had locked it by its own account. */
  datatype Pc =
    | Idle
    | Ended
    | ReadPointer(op: Op, m: MutexId)   // mutex->_wrapped_mutex == NULL
    | ReadKind(op: Op, m: MutexId)      // mutex->linux_kind != NORMAL
    | LockGuard(op: Op, m: MutexId)
    | Recheck(op: Op, m: MutexId)       // mutex->_wrapped_mutex == NULL, under the guard
    | Create(op: Op, m: MutexId)
    | UnlockGuard(op: Op, m: MutexId)
    | InNative(op: Op, m: MutexId)      // the call into the native library
    | Waiting(op: Op, m: MutexId, n: NativeId, saved: nat, count: nat)
    | Woken(op: Op, m: MutexId, n: NativeId, saved: nat, count: nat)
    | Unlocking(m: MutexId)

  /** `held` is the client's ledger: how often the calls that returned success have locked each mutex. */
  datatype Thread = Thread(pc: Pc, held: multiset<MutexId>)

  /** Which assertion or PANIC ended the process. */
  datatype Cause =
    | UnknownKind(m: MutexId)
    | GuardLockFailed(t: ThreadId)
    | GuardUnlockFailed(t: ThreadId)
    | UnlockOfNull(t: ThreadId, m: MutexId)
    | DestroyOfNull(t: ThreadId, m: MutexId)

  datatype State = State(
    threads: map<ThreadId, Thread>,
    mutexes: map<MutexId, ShimMutex>,
    natives: seq<NativeMutex>,
    guard: Option<ThreadId>,
    aborted: Option<Cause>)

  const INITIAL := State(map[], map[], [], None, None)

  // ----- Steps

  datatype Step =
    | Spawn(t: ThreadId)
    | Exit(t: ThreadId)
    | Declare(m: MutexId, linuxKind: nat)
    | Init(t: ThreadId, m: MutexId, garbage: nat, attrKind: Option<nat>)
    | Call(t: ThreadId, op: Op, m: MutexId)
    | Proceed(t: ThreadId)
    | StaticInit(t: ThreadId)
    | Grant(t: ThreadId)
    | Nest(t: ThreadId)
    | Refuse(t: ThreadId)
    | Park(t: ThreadId)
    | Wake(t: ThreadId)
    | Resume(t: ThreadId)
    | BeginUnlock(t: ThreadId, m: MutexId)
    | FinishUnlock(t: ThreadId)
    | Destroy(t: ThreadId, m: MutexId)

  predicate Outside(pc: Pc) { pc.Idle? || pc.Ended? }

  predicate At(s: State, t: ThreadId, m: MutexId) {
    t in s.threads && !Outside(s.threads[t].pc) && s.threads[t].pc.m == m
  }

  predicate IdleThread(s: State, t: ThreadId) { t in s.threads && s.threads[t].pc.Idle? }

  predicate Usable(s: State, m: MutexId) { m in s.mutexes && !s.mutexes[m].wrapped.Destroyed? }

  predicate InInitPath(pc: Pc) {
    pc.ReadPointer? || pc.ReadKind? || pc.LockGuard? || pc.Recheck? || pc.Create? || pc.UnlockGuard?
  }

  predicate InRegion(pc: Pc) { pc.Recheck? || pc.Create? || pc.UnlockGuard? }

  /** The thread is in a native call on a mutex whose native object exists. */
  predicate InNativeOn(s: State, t: ThreadId) {
    && t in s.threads && s.threads[t].pc.InNative?
    && s.threads[t].pc.m in s.mutexes
    && s.mutexes[s.threads[t].pc.m].wrapped.Live?
    && s.mutexes[s.threads[t].pc.m].wrapped.id < |s.natives|
  }

  function NativeOf(s: State, m: MutexId): NativeId
    requires m in s.mutexes && s.mutexes[m].wrapped.Live?
  {
    s.mutexes[m].wrapped.id
  }

  /** The native lock cannot simply be granted: what the call returns instead of blocking for ever. */
  predicate Refuses(op: Op, n: NativeMutex, t: ThreadId) {
    match op
    case Lock => n.owner == Some(t) && (n.kind.NativeErrorCheck? || n.kind.NativeAdaptive?)
    case TryLock => n.owner.Some? && !(n.owner == Some(t) && n.kind.NativeRecursive?)
    case TimedLock => n.owner.Some? && !(n.owner == Some(t) && n.kind.NativeRecursive?)
    case CondWait => n.owner != Some(t)
    case CondTimedWait => n.owner != Some(t)
  }

  /** What must hold for a step to happen. The conditions on Init, Call and Destroy are the obligations
      POSIX puts on the program; the others say where the thread is and what the native library allows. */
  predicate Enabled(s: State, step: Step) {
    && s.aborted.None?
    && match step
       case Spawn(t) => t !in s.threads
       case Exit(t) => IdleThread(s, t)
       case Declare(m, k) => m !in s.mutexes
       case Init(t, m, g, k) => IdleThread(s, t) && m !in s.mutexes && (k.Some? ==> k.value <= LINUX_ADAPTIVE_NP)
       case Call(t, op, m) => IdleThread(s, t) && Usable(s, m)
       case Proceed(t) =>
         && t in s.threads
         && InInitPath(s.threads[t].pc)
         && s.threads[t].pc.m in s.mutexes
         && (s.threads[t].pc.LockGuard? ==> s.guard.None? || s.guard == Some(t))
       case StaticInit(t) =>
         && t in s.threads && s.threads[t].pc.InNative?
         && s.threads[t].pc.m in s.mutexes
         && s.mutexes[s.threads[t].pc.m].wrapped.Null?
       case Grant(t) =>
         && InNativeOn(s, t)
         && !IsWait(s.threads[t].pc.op)
         && s.natives[NativeOf(s, s.threads[t].pc.m)].owner.None?
       case Nest(t) =>
         && InNativeOn(s, t)
         && !IsWait(s.threads[t].pc.op)
         && var n := s.natives[NativeOf(s, s.threads[t].pc.m)];
            n.owner == Some(t) && n.kind.NativeRecursive?
       case Refuse(t) =>
         && InNativeOn(s, t)
         && Refuses(s.threads[t].pc.op, s.natives[NativeOf(s, s.threads[t].pc.m)], t)
       case Park(t) =>
         && InNativeOn(s, t)
         && IsWait(s.threads[t].pc.op)
         && s.natives[NativeOf(s, s.threads[t].pc.m)].owner == Some(t)
       case Wake(t) => t in s.threads && s.threads[t].pc.Waiting?
       case Resume(t) =>
         && t in s.threads && s.threads[t].pc.Woken?
         && s.threads[t].pc.n < |s.natives|
         && s.natives[s.threads[t].pc.n].owner.None?
       case BeginUnlock(t, m) => IdleThread(s, t) && Usable(s, m)
       case FinishUnlock(t) =>
         && t in s.threads && s.threads[t].pc.Unlocking?
         && s.threads[t].pc.m in s.mutexes
         && s.mutexes[s.threads[t].pc.m].wrapped.Live?
         && NativeOf(s, s.threads[t].pc.m) < |s.natives|
       case Destroy(t, m) =>
         && IdleThread(s, t) && Usable(s, m)
         && (forall u :: u in s.threads ==> !At(s, u, m))
         && (s.mutexes[m].wrapped.Live? ==> NativeOf(s, m) < |s.natives|)
  }

  function Goto(s: State, t: ThreadId, pc: Pc): State
    requires t in s.threads
  {
    s.(threads := s.threads[t := s.threads[t].(pc := pc)])
  }

  function Abort(s: State, cause: Cause): State { s.(aborted := Some(cause)) }

  /** Appends a new native object and stores its handle in the mutex. */
  function NewNative(s: State, m: MutexId, kind: NativeKind, birth: Birth): State
    requires m in s.mutexes
  {
    s.(natives := s.natives + [NativeMutex(kind, None, 0, m, birth)],
       mutexes := s.mutexes[m := s.mutexes[m].(wrapped := Live(|s.natives|))])
  }

  /** What a successful native call does: it sets owner and depth of object n, and the client, which sees
      only that its call succeeded, sets its own count for m. */
  function Transfer(s: State, t: ThreadId, m: MutexId, n: NativeId, owner: Option<ThreadId>, depth: nat, count: nat, pc: Pc): State
    requires t in s.threads && n < |s.natives|
  {
    s.(natives := s.natives[n := s.natives[n].(owner := owner, depth := depth)],
       threads := s.threads[t := Thread(pc, s.threads[t].held[m := count])])
  }

  /** How often the client has locked m and not unlocked it, by its own account. */
  function Count(s: State, t: ThreadId, m: MutexId): nat
    requires t in s.threads
  {
    s.threads[t].held[m]
  }

  function Less(count: nat): nat { if count > 0 then count - 1 else 0 }

  /** One line of init_mutex_if_necessary. */
  function ProceedFrom(s: State, t: ThreadId): State
    requires Enabled(s, Proceed(t))
  {
    var pc := s.threads[t].pc;
    var shim := s.mutexes[pc.m];
    match pc
    case ReadPointer(op, m) => Goto(s, t, if shim.wrapped.Null? then ReadKind(op, m) else InNative(op, m))
    case ReadKind(op, m) => Goto(s, t, if shim.linuxKind != LINUX_NORMAL then LockGuard(op, m) else InNative(op, m))
    case LockGuard(op, m) =>
      if s.guard == Some(t) then Abort(s, GuardLockFailed(t))
      else Goto(s.(guard := Some(t)), t, Recheck(op, m))
    case Recheck(op, m) => Goto(s, t, if shim.wrapped.Null? then Create(op, m) else UnlockGuard(op, m))
    case Create(op, m) =>
      (match TranslateKind(shim.linuxKind)
       case None => Abort(s, UnknownKind(m))
       case Some(kind) => Goto(NewNative(s, m, kind, Lazy(t, s.guard)), t, UnlockGuard(op, m)))
    case UnlockGuard(op, m) =>
      if s.guard != Some(t) then Abort(s, GuardUnlockFailed(t))
      else Goto(s.(guard := None), t, InNative(op, m))
  }

  function Apply(s: State, step: Step): State
    requires Enabled(s, step)
  {
    match step
    case Spawn(t) => s.(threads := s.threads[t := Thread(Idle, multiset{})])
    case Exit(t) => Goto(s, t, Ended)
    case Declare(m, k) => s.(mutexes := s.mutexes[m := ShimMutex(k, Null, false, None)])
    case Init(t, m, g, k) =>
      var kind := if k.None? then DEFAULT_KIND else TranslateKind(k.value).value;
      NewNative(s.(mutexes := s.mutexes[m := ShimMutex(g, Null, true, k)]), m, kind, Explicit(t))
    case Call(t, op, m) => Goto(s, t, ReadPointer(op, m))
    case Proceed(t) => ProceedFrom(s, t)
    case StaticInit(t) => NewNative(s, s.threads[t].pc.m, DEFAULT_KIND, Static(t))
    case Grant(t) =>
      var m := s.threads[t].pc.m;
      Transfer(s, t, m, NativeOf(s, m), Some(t), 1, Count(s, t, m) + 1, Idle)
    case Nest(t) =>
      var m := s.threads[t].pc.m;
      Transfer(s, t, m, NativeOf(s, m), Some(t), s.natives[NativeOf(s, m)].depth + 1, Count(s, t, m) + 1, Idle)
    case Refuse(t) => Goto(s, t, Idle)
    case Park(t) =>
      var pc := s.threads[t].pc;
      var n := NativeOf(s, pc.m);
      Transfer(s, t, pc.m, n, None, 0, 0, Waiting(pc.op, pc.m, n, s.natives[n].depth, Count(s, t, pc.m)))
    case Wake(t) =>
      var pc := s.threads[t].pc;
      Goto(s, t, Woken(pc.op, pc.m, pc.n, pc.saved, pc.count))
    case Resume(t) =>
      var pc := s.threads[t].pc;
      Transfer(s, t, pc.m, pc.n, Some(t), pc.saved, Count(s, t, pc.m) + pc.count, Idle)
    case BeginUnlock(t, m) =>
      if s.mutexes[m].wrapped.Null? then Abort(s, UnlockOfNull(t, m)) else Goto(s, t, Unlocking(m))
    case FinishUnlock(t) =>
      var m := s.threads[t].pc.m;
      var n := NativeOf(s, m);
      if s.natives[n].owner != Some(t) || s.natives[n].depth == 0 then Goto(s, t, Idle)
      else if s.natives[n].depth == 1 then Transfer(s, t, m, n, None, 0, Less(Count(s, t, m)), Idle)
      else Transfer(s, t, m, n, Some(t), s.natives[n].depth - 1, Less(Count(s, t, m)), Idle)
    case Destroy(t, m) =>
      if s.mutexes[m].wrapped.Null? then Abort(s, DestroyOfNull(t, m))
      else if s.natives[NativeOf(s, m)].owner.Some? then s
      else s.(mutexes := s.mutexes[m := s.mutexes[m].(wrapped := Destroyed)])
  }

  /** The state after the given steps, or None when one of them is not enabled. */
  function Run(s: State, steps: seq<Step>): Option<State>
    decreases |steps|
  {
    if steps == [] then Some(s)
    else if Enabled(s, steps[0]) then Run(Apply(s, steps[0]), steps[1..])
    else None
  }

  // ----- The inductive invariant

  type Threads = map<ThreadId, Thread>
  type Mutexes = map<MutexId, ShimMutex>
  type Natives = seq<NativeMutex>

  /** The guard is held exactly by the one thread between its lock and its unlock. */
  ghost predicate GuardInv(ts: Threads, guard: Option<ThreadId>) {
    && (guard.Some? ==> guard.value in ts && InRegion(ts[guard.value].pc))
    && (forall t :: t in ts && InRegion(ts[t].pc) ==> guard == Some(t))
  }

  /** A cond_wait has given up the mutex: the depth to be restored is what its client had counted. */
  ghost predicate WaitOk(ns: Natives, shim: ShimMutex, n: NativeId, saved: nat, count: nat) {
    && shim.wrapped == Live(n) && n < |ns|
    && saved == count >= 1 && (saved > 1 ==> ns[n].kind.NativeRecursive?)
  }

  ghost predicate PcOk(ms: Mutexes, ns: Natives, pc: Pc) {
    Outside(pc) ||
    ( && pc.m in ms
      && var shim := ms[pc.m];
         && !shim.wrapped.Destroyed?
         && (pc.LockGuard? || pc.Recheck? || pc.Create? ==> shim.linuxKind != LINUX_NORMAL)
         && (pc.Create? ==> shim.wrapped.Null?)
         && (pc.UnlockGuard? || pc.Unlocking? ==> shim.wrapped.Live?)
         && (pc.InNative? ==> shim.wrapped.Live? || shim.linuxKind == LINUX_NORMAL)
         && (pc.Waiting? || pc.Woken? ==> WaitOk(ns, shim, pc.n, pc.saved, pc.count)))
  }

  ghost predicate PcInv(ts: Threads, ms: Mutexes, ns: Natives) {
    forall t :: t in ts ==> PcOk(ms, ns, ts[t].pc)
  }

  /** A client inside cond_wait does not count the mutex as locked. */
  ghost predicate Settled(thread: Thread) {
    thread.pc.Waiting? || thread.pc.Woken? ==> thread.pc.m !in thread.held
  }

  ghost predicate WaitInv(ts: Threads) { forall t :: t in ts ==> Settled(ts[t]) }

  /** Mutexes and native objects point at each other, and no two native objects serve one mutex. */
  ghost predicate LinkInv(ms: Mutexes, ns: Natives) {
    && (forall m :: m in ms && ms[m].wrapped.Live? ==> ms[m].wrapped.id < |ns| && ns[ms[m].wrapped.id].origin == m)
    && (forall n :: 0 <= n < |ns| ==>
          && ns[n].origin in ms
          && (ms[ns[n].origin].wrapped == Live(n) || ms[ns[n].origin].wrapped.Destroyed?))
    && (forall i, j :: 0 <= i < j < |ns| ==> ns[i].origin != ns[j].origin)
  }

  /** The Linux number of a native kind. */
  predicate HasNumber(kind: NativeKind, number: nat) {
    match kind
    case NativeNormal => number == 0
    case NativeRecursive => number == 1
    case NativeErrorCheck => number == 2
    case NativeAdaptive => number == 3
  }

  /** The native object was created the way its mutex calls for. */
  ghost predicate BirthOk(n: NativeMutex, shim: ShimMutex) {
    match n.birth
    case Lazy(creator, guard) =>
      && !shim.viaInit && guard == Some(creator)
      && shim.linuxKind != LINUX_NORMAL && HasNumber(n.kind, shim.linuxKind)
    case Static(_) => !shim.viaInit && shim.linuxKind == LINUX_NORMAL && n.kind.NativeErrorCheck?
    case Explicit(_) =>
      shim.viaInit && if shim.attrKind.Some? then HasNumber(n.kind, shim.attrKind.value) else n.kind.NativeErrorCheck?
  }

  ghost predicate BirthInv(ms: Mutexes, ns: Natives) {
    && (forall n :: 0 <= n < |ns| ==> ns[n].origin in ms && BirthOk(ns[n], ms[ns[n].origin]))
    && (forall m :: m in ms && ms[m].viaInit ==> !ms[m].wrapped.Null?)
  }

  /** The owner and the depth of a native object agree with the ledger of its owner. */
  ghost predicate OwnedOk(ts: Threads, native: NativeMutex) {
    && (native.owner.None? <==> native.depth == 0)
    && (native.depth > 1 ==> native.kind.NativeRecursive?)
    && (native.owner.Some? ==>
          native.owner.value in ts && ts[native.owner.value].held[native.origin] == native.depth)
  }

  ghost predicate HolderOk(ms: Mutexes, ns: Natives, t: ThreadId, m: MutexId) {
    && m in ms && ms[m].wrapped.Live? && ms[m].wrapped.id < |ns|
    && ns[ms[m].wrapped.id].owner == Some(t)
  }

  ghost predicate OwnerInv(ts: Threads, ms: Mutexes, ns: Natives) {
    && (forall n :: 0 <= n < |ns| ==> OwnedOk(ts, ns[n]))
    && (forall t, m :: t in ts && m in ts[t].held ==> HolderOk(ms, ns, t, m))
  }

  /** The process is only ever ended by a kind glibc does not define, or by the unlock or the
      destruction of a mutex that has no native object yet. */
  ghost predicate AbortInv(aborted: Option<Cause>, ms: Mutexes) {
    match aborted
    case None => true
    case Some(UnknownKind(m)) => m in ms && TranslateKind(ms[m].linuxKind).None? && ms[m].wrapped.Null?
    case Some(GuardLockFailed(t)) => false
    case Some(GuardUnlockFailed(t)) => false
    case Some(UnlockOfNull(t, m)) => m in ms && ms[m].wrapped.Null?
    case Some(DestroyOfNull(t, m)) => m in ms && ms[m].wrapped.Null?
  }

  ghost predicate Inv(s: State) {
    && GuardInv(s.threads, s.guard)
    && PcInv(s.threads, s.mutexes, s.natives)
    && WaitInv(s.threads)
    && LinkInv(s.mutexes, s.natives)
    && BirthInv(s.mutexes, s.natives)
    && OwnerInv(s.threads, s.mutexes, s.natives)
    && AbortInv(s.aborted, s.mutexes)
  }

  lemma PcKnown(s: State, t: ThreadId)
    requires Inv(s) && t in s.threads
    ensures PcOk(s.mutexes, s.natives, s.threads[t].pc) && Settled(s.threads[t])
  {
  }

  lemma GuardKnown(s: State, t: ThreadId)
    requires Inv(s) && t in s.threads
    ensures s.guard == Some(t) <==> InRegion(s.threads[t].pc)
  {
  }

  lemma OwnerKnown(s: State, n: NativeId)
    requires Inv(s) && n < |s.natives|
    ensures OwnedOk(s.threads, s.natives[n])
  {
  }

  // ----- Every step keeps the invariant

  lemma AbortKeeps(s: State, cause: Cause)
    requires Inv(s) && AbortInv(Some(cause), s.mutexes)
    ensures Inv(Abort(s, cause))
  {
  }

  /** One thread moves between lines that the guard does not protect. */
  lemma ThreadReplaced(ts: Threads, t: ThreadId, thread: Thread, ms: Mutexes, ns: Natives, guard: Option<ThreadId>)
    requires GuardInv(ts, guard) && PcInv(ts, ms, ns) && WaitInv(ts) && t in ts
    requires PcOk(ms, ns, thread.pc) && Settled(thread) && !InRegion(thread.pc) && !InRegion(ts[t].pc)
    ensures var ts' := ts[t := thread]; GuardInv(ts', guard) && PcInv(ts', ms, ns) && WaitInv(ts')
  {
    hide PcOk, Settled;
  }

  lemma GotoKeeps(s: State, t: ThreadId, pc: Pc)
    requires Inv(s) && t in s.threads && PcOk(s.mutexes, s.natives, pc) && Settled(Thread(pc, s.threads[t].held))
    requires !InRegion(pc) && !InRegion(s.threads[t].pc)
    ensures Inv(Goto(s, t, pc))
  {
    hide GuardInv, PcInv, WaitInv, LinkInv, BirthInv, OwnerInv, PcOk, Settled;
    ThreadReplaced(s.threads, t, Thread(pc, s.threads[t].held), s.mutexes, s.natives, s.guard);
    GotoKeepsOwners(s, t, pc);
  }

  lemma GotoKeepsOwners(s: State, t: ThreadId, pc: Pc)
    requires OwnerInv(s.threads, s.mutexes, s.natives) && t in s.threads
    ensures OwnerInv(Goto(s, t, pc).threads, s.mutexes, s.natives)
  {
  }

  lemma TransferKeepsOwners(s: State, t: ThreadId, m: MutexId, n: NativeId, owner: Option<ThreadId>, depth: nat, count: nat, pc: Pc)
    requires OwnerInv(s.threads, s.mutexes, s.natives) && LinkInv(s.mutexes, s.natives)
    requires t in s.threads && m in s.mutexes && s.mutexes[m].wrapped == Live(n) && n < |s.natives|
    requires s.natives[n].owner.None? || s.natives[n].owner == Some(t)
    requires count == depth && ((owner == None && depth == 0) || (owner == Some(t) && depth >= 1))
    requires depth > 1 ==> s.natives[n].kind.NativeRecursive?
    ensures var s' := Transfer(s, t, m, n, owner, depth, count, pc);
      OwnerInv(s'.threads, s'.mutexes, s'.natives)
  {
    var s' := Transfer(s, t, m, n, owner, depth, count, pc);
    forall i | 0 <= i < |s'.natives| ensures OwnedOk(s'.threads, s'.natives[i]) {
      assert OwnedOk(s.threads, s.natives[i]);
      assert i != n ==> s.natives[i].origin != s.natives[n].origin;
    }
    forall u | u in s.threads && m in s.threads[u].held ensures u == t {
      assert HolderOk(s.mutexes, s.natives, u, m);
    }
    forall u, k | u in s'.threads && k in s'.threads[u].held ensures HolderOk(s'.mutexes, s'.natives, u, k) {
      if k != m { assert HolderOk(s.mutexes, s.natives, u, k); }
    }
  }

  /** Owner and depth play no part in the links, the births and the counters. */
  lemma RelockKeepsShape(ts: Threads, ms: Mutexes, ns: Natives, n: NativeId, owner: Option<ThreadId>, depth: nat)
    requires PcInv(ts, ms, ns) && LinkInv(ms, ns) && BirthInv(ms, ns) && n < |ns|
    ensures var ns' := ns[n := ns[n].(owner := owner, depth := depth)];
      PcInv(ts, ms, ns') && LinkInv(ms, ns') && BirthInv(ms, ns')
  {
  }

  lemma TransferKeeps(s: State, t: ThreadId, m: MutexId, n: NativeId, owner: Option<ThreadId>, depth: nat, count: nat, pc: Pc)
    requires Inv(s) && t in s.threads && !InRegion(s.threads[t].pc) && !InRegion(pc) && !pc.Create?
    requires PcOk(s.mutexes, s.natives, pc) && (pc.Waiting? || pc.Woken? ==> pc.m == m && depth == 0)
    requires m in s.mutexes && s.mutexes[m].wrapped == Live(n) && n < |s.natives|
    requires s.natives[n].owner.None? || s.natives[n].owner == Some(t)
    requires count == depth && ((owner == None && depth == 0) || (owner == Some(t) && depth >= 1))
    requires depth > 1 ==> s.natives[n].kind.NativeRecursive?
    ensures Inv(Transfer(s, t, m, n, owner, depth, count, pc))
  {
    assert Settled(Thread(pc, s.threads[t].held[m := count]));
    hide GuardInv, PcInv, WaitInv, LinkInv, BirthInv, OwnerInv, PcOk, Settled;
    ThreadReplaced(s.threads, t, Thread(pc, s.threads[t].held[m := count]), s.mutexes, s.natives, s.guard);
    var s' := Transfer(s, t, m, n, owner, depth, count, pc);
    RelockKeepsShape(s'.threads, s.mutexes, s.natives, n, owner, depth);
    TransferKeepsOwners(s, t, m, n, owner, depth, count, pc);
  }

  /** Creating the native object of a mutex that has none. */
  lemma NewNativeKeeps(s: State, m: MutexId, kind: NativeKind, birth: Birth)
    requires LinkInv(s.mutexes, s.natives) && BirthInv(s.mutexes, s.natives) && OwnerInv(s.threads, s.mutexes, s.natives)
    requires m in s.mutexes && s.mutexes[m].wrapped.Null?
    requires BirthOk(NativeMutex(kind, None, 0, m, birth), s.mutexes[m])
    ensures var s' := NewNative(s, m, kind, birth);
      LinkInv(s'.mutexes, s'.natives) && BirthInv(s'.mutexes, s'.natives) && OwnerInv(s'.threads, s'.mutexes, s'.natives)
  {
    var s' := NewNative(s, m, kind, birth);
    assert OwnerInv(s'.threads, s'.mutexes, s'.natives) by {
      forall u, k | u in s'.threads && k in s'.threads[u].held ensures HolderOk(s'.mutexes, s'.natives, u, k) {
        assert HolderOk(s.mutexes, s.natives, u, k);
      }
    }
  }

  /** A counter that is not about to create, or is on another mutex, stays legal. */
  lemma NewNativeKeepsPc(s: State, m: MutexId, kind: NativeKind, birth: Birth, pc: Pc)
    requires m in s.mutexes && s.mutexes[m].wrapped.Null?
    requires PcOk(s.mutexes, s.natives, pc)
    requires !Outside(pc) && pc.m == m ==> !pc.Create?
    ensures var s' := NewNative(s, m, kind, birth);
      PcOk(s'.mutexes, s'.natives, pc)
  {
  }

  lemma ProceedKeepsInv(s: State, t: ThreadId)
    requires Inv(s) && Enabled(s, Proceed(t))
    ensures Inv(ProceedFrom(s, t))
  {
    hide Inv;
    PcKnown(s, t);
    GuardKnown(s, t);
    var pc := s.threads[t].pc;
    var shim := s.mutexes[pc.m];
    match pc
    case ReadPointer(op, m) => GotoKeeps(s, t, if shim.wrapped.Null? then ReadKind(op, m) else InNative(op, m));
    case ReadKind(op, m) => GotoKeeps(s, t, if shim.linuxKind != LINUX_NORMAL then LockGuard(op, m) else InNative(op, m));
    case LockGuard(op, m) => GuardStepKeeps(s, t, Recheck(op, m), Some(t));
    case Recheck(op, m) => GuardStepKeeps(s, t, if shim.wrapped.Null? then Create(op, m) else UnlockGuard(op, m), s.guard);
    case Create(op, m) => CreateKeepsInv(s, t);
    case UnlockGuard(op, m) => GuardStepKeeps(s, t, InNative(op, m), None);
  }

  /** Entering, moving inside and leaving the region the guard protects. */
  lemma GuardStepKeeps(s: State, t: ThreadId, pc: Pc, guard: Option<ThreadId>)
    requires Inv(s) && t in s.threads && PcOk(s.mutexes, s.natives, pc) && !pc.Waiting? && !pc.Woken?
    requires s.guard.None? || s.guard == Some(t)
    requires guard == if InRegion(pc) then Some(t) else None
    ensures Inv(Goto(s.(guard := guard), t, pc))
  {
    hide LinkInv, BirthInv, OwnerInv, PcOk;
    GotoKeepsOwners(s, t, pc);
    assert WaitInv(Goto(s, t, pc).threads);
  }

  lemma CreateKeepsInv(s: State, t: ThreadId)
    requires Inv(s) && Enabled(s, Proceed(t)) && s.threads[t].pc.Create?
    ensures Inv(ProceedFrom(s, t))
  {
    var m := s.threads[t].pc.m;
    assert PcOk(s.mutexes, s.natives, s.threads[t].pc);
    var kind := TranslateKind(s.mutexes[m].linuxKind);
    if kind.Some? {
      var birth := Lazy(t, s.guard);
      NewNativeKeeps(s, m, kind.value, birth);
      var s1 := NewNative(s, m, kind.value, birth);
      var next := UnlockGuard(s.threads[t].pc.op, m);
      GotoKeepsOwners(s1, t, next);
      var s' := Goto(s1, t, next);
      forall u | u in s'.threads ensures PcOk(s'.mutexes, s'.natives, s'.threads[u].pc) {
        if u != t {
          assert PcOk(s.mutexes, s.natives, s.threads[u].pc);
          NewNativeKeepsPc(s, m, kind.value, birth, s.threads[u].pc);
        }
      }
    }
  }

  lemma StaticInitKeepsInv(s: State, t: ThreadId)
    requires Inv(s) && Enabled(s, StaticInit(t))
    ensures Inv(Apply(s, StaticInit(t)))
  {
    var m := s.threads[t].pc.m;
    assert PcOk(s.mutexes, s.natives, s.threads[t].pc);
    assert !s.mutexes[m].viaInit;
    NewNativeKeeps(s, m, DEFAULT_KIND, Static(t));
    var s' := Apply(s, StaticInit(t));
    forall u | u in s'.threads ensures PcOk(s'.mutexes, s'.natives, s'.threads[u].pc) {
      assert PcOk(s.mutexes, s.natives, s.threads[u].pc);
      NewNativeKeepsPc(s, m, DEFAULT_KIND, Static(t), s.threads[u].pc);
    }
  }

  lemma InitKeepsInv(s: State, step: Step)
    requires Inv(s) && Enabled(s, step) && step.Init?
    ensures Inv(Apply(s, step))
  {
    var s' := Apply(s, step);
    InitKeepsLinks(s, step);
    forall t | t in s.threads ensures PcOk(s'.mutexes, s'.natives, s.threads[t].pc) {
      assert PcOk(s.mutexes, s.natives, s.threads[t].pc);
    }
    forall u, k | u in s'.threads && k in s'.threads[u].held ensures HolderOk(s'.mutexes, s'.natives, u, k) {
      assert HolderOk(s.mutexes, s.natives, u, k);
    }
  }

  lemma InitKeepsLinks(s: State, step: Step)
    requires LinkInv(s.mutexes, s.natives) && BirthInv(s.mutexes, s.natives) && Enabled(s, step) && step.Init?
    ensures var s' := Apply(s, step);
      LinkInv(s'.mutexes, s'.natives) && BirthInv(s'.mutexes, s'.natives)
  {
  }

  lemma DeclareKeepsInv(s: State, m: MutexId, linuxKind: nat)
    requires Inv(s) && Enabled(s, Declare(m, linuxKind))
    ensures Inv(Apply(s, Declare(m, linuxKind)))
  {
    var s' := Apply(s, Declare(m, linuxKind));
    forall t | t in s.threads ensures PcOk(s'.mutexes, s'.natives, s.threads[t].pc) {
      assert PcOk(s.mutexes, s.natives, s.threads[t].pc);
    }
    forall u, k | u in s'.threads && k in s'.threads[u].held ensures HolderOk(s'.mutexes, s'.natives, u, k) {
      assert HolderOk(s.mutexes, s.natives, u, k);
    }
  }

  lemma DestroyKeepsInv(s: State, t: ThreadId, m: MutexId)
    requires Inv(s) && Enabled(s, Destroy(t, m))
    ensures Inv(Apply(s, Destroy(t, m)))
  {
    var s' := Apply(s, Destroy(t, m));
    if s.mutexes[m].wrapped.Live? && s.natives[NativeOf(s, m)].owner.None? {
      forall u | u in s.threads ensures PcOk(s'.mutexes, s'.natives, s.threads[u].pc) {
        assert PcOk(s.mutexes, s.natives, s.threads[u].pc);
        assert !At(s, u, m);
      }
      forall u, k | u in s'.threads && k in s'.threads[u].held ensures HolderOk(s'.mutexes, s'.natives, u, k) {
        assert HolderOk(s.mutexes, s.natives, u, k);
      }
    }
  }

  /** A thread that starts is idle and holds nothing. */
  lemma SpawnKeepsOwners(ts: Threads, t: ThreadId, ms: Mutexes, ns: Natives)
    requires OwnerInv(ts, ms, ns) && t !in ts
    ensures OwnerInv(ts[t := Thread(Idle, multiset{})], ms, ns)
  {
    var ts' := ts[t := Thread(Idle, multiset{})];
    forall n | 0 <= n < |ns| ensures OwnedOk(ts', ns[n]) {
      assert OwnedOk(ts, ns[n]);
    }
    forall u, k | u in ts' && k in ts'[u].held ensures HolderOk(ms, ns, u, k) {
      assert HolderOk(ms, ns, u, k);
    }
  }

  lemma SpawnKeepsCounters(ts: Threads, t: ThreadId, ms: Mutexes, ns: Natives, guard: Option<ThreadId>)
    requires GuardInv(ts, guard) && PcInv(ts, ms, ns) && t !in ts
    ensures WaitInv(ts) ==> WaitInv(ts[t := Thread(Idle, multiset{})])
    ensures GuardInv(ts[t := Thread(Idle, multiset{})], guard) && PcInv(ts[t := Thread(Idle, multiset{})], ms, ns)
  {
  }

  lemma SpawnKeepsInv(s: State, t: ThreadId)
    requires Inv(s) && Enabled(s, Spawn(t))
    ensures Inv(Apply(s, Spawn(t)))
  {
    SpawnKeepsOwners(s.threads, t, s.mutexes, s.natives);
    SpawnKeepsCounters(s.threads, t, s.mutexes, s.natives, s.guard);
  }

  /** By its own count a client holds a mutex as deeply as the native library says: not at all, if the native
      object is another's or nobody's. */
  lemma CountIsDepth(s: State, t: ThreadId, m: MutexId)
    requires Inv(s) && t in s.threads && m in s.mutexes && s.mutexes[m].wrapped.Live?
    ensures NativeOf(s, m) < |s.natives|
    ensures var native := s.natives[NativeOf(s, m)]; Count(s, t, m) == if native.owner == Some(t) then native.depth else 0
  {
    assert OwnedOk(s.threads, s.natives[NativeOf(s, m)]);
    if m in s.threads[t].held { assert HolderOk(s.mutexes, s.natives, t, m); }
  }

  /** Taking a native mutex, by a lock call or at the end of a wait. */
  lemma TakingKeepsInv(s: State, step: Step)
    requires Inv(s) && Enabled(s, step) && (step.Grant? || step.Nest? || step.Resume?)
    ensures Inv(Apply(s, step))
  {
    hide Inv;
    var t := step.t;
    PcKnown(s, t);
    var pc := s.threads[t].pc;
    var n := NativeOf(s, pc.m);
    CountIsDepth(s, t, pc.m);
    OwnerKnown(s, n);
    var depth := if step.Grant? then 1 else if step.Nest? then s.natives[n].depth + 1 else pc.saved;
    TransferKeeps(s, t, pc.m, n, Some(t), depth, depth, Idle);
  }

  /** Giving a native mutex up at the start of a wait. */
  lemma ParkKeepsInv(s: State, t: ThreadId)
    requires Inv(s) && Enabled(s, Park(t))
    ensures Inv(Apply(s, Park(t)))
  {
    hide Inv;
    PcKnown(s, t);
    var pc := s.threads[t].pc;
    var n := NativeOf(s, pc.m);
    OwnerKnown(s, n);
    CountIsDepth(s, t, pc.m);
    TransferKeeps(s, t, pc.m, n, None, 0, 0, Waiting(pc.op, pc.m, n, s.natives[n].depth, Count(s, t, pc.m)));
  }

  /** Giving a native mutex up by an unlock of its owner. */
  lemma OwnerUnlockKeepsInv(s: State, t: ThreadId, m: MutexId, n: NativeId, depth: nat)
    requires Inv(s) && t in s.threads && s.threads[t].pc == Unlocking(m)
    requires m in s.mutexes && s.mutexes[m].wrapped == Live(n) && n < |s.natives|
    requires s.natives[n].owner == Some(t) && s.natives[n].depth == depth + 1
    ensures Count(s, t, m) == depth + 1
    ensures Inv(Transfer(s, t, m, n, if depth == 0 then None else Some(t), depth, depth, Idle))
  {
    hide Inv;
    OwnerKnown(s, n);
    CountIsDepth(s, t, m);
    TransferKeeps(s, t, m, n, if depth == 0 then None else Some(t), depth, depth, Idle);
  }

  lemma UnlockKeepsInv(s: State, t: ThreadId)
    requires Inv(s) && Enabled(s, FinishUnlock(t))
    ensures Inv(Apply(s, FinishUnlock(t)))
  {
    hide Inv;
    PcKnown(s, t);
    var m := s.threads[t].pc.m;
    var n := NativeOf(s, m);
    if s.natives[n].owner != Some(t) || s.natives[n].depth == 0 {
      GotoKeeps(s, t, Idle);
    } else {
      OwnerUnlockKeepsInv(s, t, m, n, s.natives[n].depth - 1);
    }
  }

  /** Steps that only move a thread: into a call, out of it, out of a wait, or to their end. */
  lemma MovingKeepsInv(s: State, step: Step)
    requires Inv(s) && Enabled(s, step) && (step.Exit? || step.Call? || step.Wake? || step.BeginUnlock? || step.Refuse?)
    ensures Inv(Apply(s, step))
  {
    hide Inv;
    PcKnown(s, step.t);
    match step
    case Exit(t) => GotoKeeps(s, t, Ended);
    case Call(t, op, m) => GotoKeeps(s, t, ReadPointer(op, m));
    case Wake(t) =>
      var pc := s.threads[t].pc;
      GotoKeeps(s, t, Woken(pc.op, pc.m, pc.n, pc.saved, pc.count));
    case BeginUnlock(t, m) =>
      if s.mutexes[m].wrapped.Null? { AbortKeeps(s, UnlockOfNull(t, m)); } else { GotoKeeps(s, t, Unlocking(m)); }
    case Refuse(t) => GotoKeeps(s, t, Idle);
  }

  lemma StepKeepsInv(s: State, step: Step)
    requires Inv(s) && Enabled(s, step)
    ensures Inv(Apply(s, step))
  {
    hide Inv;
    match step
    case Spawn(t) => SpawnKeepsInv(s, t);
    case Declare(m, k) => DeclareKeepsInv(s, m, k);
    case Init(t, m, g, k) => InitKeepsInv(s, step);
    case Proceed(t) => ProceedKeepsInv(s, t);
    case StaticInit(t) => StaticInitKeepsInv(s, t);
    case Destroy(t, m) => DestroyKeepsInv(s, t, m);
    case Park(t) => ParkKeepsInv(s, t);
    case FinishUnlock(t) => UnlockKeepsInv(s, t);
    case Grant(t) => TakingKeepsInv(s, step);
    case Nest(t) => TakingKeepsInv(s, step);
    case Resume(t) => TakingKeepsInv(s, step);
    case _ => MovingKeepsInv(s, step);
  }

  // ----- Runs

  lemma {:induction false} RunKeepsInv(s: State, steps: seq<Step>)
    requires Inv(s) && Run(s, steps).Some?
    ensures Inv(Run(s, steps).value)
    decreases |steps|
  {
    hide Inv;
    if steps != [] {
      StepKeepsInv(s, steps[0]);
      RunKeepsInv(Apply(s, steps[0]), steps[1..]);
    }
  }

  /** s can be reached from the empty process by some interleaving. */
  ghost predicate Reachable(s: State) {
    exists steps :: Run(INITIAL, steps) == Some(s)
  }

  lemma ReachableInv(s: State)
    requires Reachable(s)
    ensures Inv(s)
  {
    var steps :| Run(INITIAL, steps) == Some(s);
    RunKeepsInv(INITIAL, steps);
  }

  // ----- Safety over every run

  /** A client that has locked m and not unlocked it owns the one native object of m, to the depth of
      its own count; hence no two clients hold m, and nobody holds a free native object. */
  lemma MutualExclusion(s: State, m: MutexId)
    requires Reachable(s)
    ensures forall t :: t in s.threads && m in s.threads[t].held ==>
      && m in s.mutexes && s.mutexes[m].wrapped.Live? && NativeOf(s, m) < |s.natives|
      && s.natives[NativeOf(s, m)].owner == Some(t)
      && s.natives[NativeOf(s, m)].depth == s.threads[t].held[m]
    ensures forall t, u :: t in s.threads && u in s.threads && m in s.threads[t].held && m in s.threads[u].held ==> t == u
    ensures forall n :: 0 <= n < |s.natives| ==>
      && (s.natives[n].depth > 0 <==> s.natives[n].owner.Some?)
      && (s.natives[n].depth > 1 ==> s.natives[n].kind.NativeRecursive?)
      && (s.natives[n].owner.Some? ==>
            s.natives[n].owner.value in s.threads && s.natives[n].origin in s.threads[s.natives[n].owner.value].held)
  {
    ReachableInv(s);
    forall t | t in s.threads && m in s.threads[t].held
      ensures HolderOk(s.mutexes, s.natives, t, m) && s.natives[NativeOf(s, m)].depth == s.threads[t].held[m]
    {
      assert HolderOk(s.mutexes, s.natives, t, m);
      assert OwnedOk(s.threads, s.natives[NativeOf(s, m)]);
    }
    forall n | 0 <= n < |s.natives| ensures OwnedOk(s.threads, s.natives[n]) {}
  }

  /** What a client has locked and not unlocked, with what it lays aside during a cond_wait. */
  function Tally(s: State, t: ThreadId, m: MutexId): nat {
    if t !in s.threads then 0
    else
      var pc := s.threads[t].pc;
      Count(s, t, m) + (if (pc.Waiting? || pc.Woken?) && pc.m == m then pc.count else 0)
  }

  /** What a step adds to it: 1 for a lock that succeeds, -1 for an unlock that does, and nothing for a wait. */
  function Gain(s: State, step: Step, t: ThreadId, m: MutexId): int
    requires Enabled(s, step)
  {
    match step
    case Grant(u) => if u == t && s.threads[u].pc.m == m then 1 else 0
    case Nest(u) => if u == t && s.threads[u].pc.m == m then 1 else 0
    case FinishUnlock(u) =>
      if u == t && s.threads[u].pc.m == m && s.natives[NativeOf(s, m)].owner == Some(t) then -1 else 0
    case _ => 0
  }

  function Balance(s: State, steps: seq<Step>, t: ThreadId, m: MutexId): int
    requires Run(s, steps).Some?
    decreases |steps|
  {
    if steps == [] then 0 else Gain(s, steps[0], t, m) + Balance(Apply(s, steps[0]), steps[1..], t, m)
  }

  lemma StepTallies(s: State, step: Step, t: ThreadId, m: MutexId)
    requires Inv(s) && Enabled(s, step)
    ensures Tally(Apply(s, step), t, m) == Tally(s, t, m) + Gain(s, step, t, m)
  {
    hide Inv;
    if step.Grant? || step.Nest? || step.Park? || step.Resume? || step.FinishUnlock? {
      PcKnown(s, step.t);
      var k := s.threads[step.t].pc.m;
      CountIsDepth(s, step.t, k);
      OwnerKnown(s, NativeOf(s, k));
      if step.FinishUnlock? { UnlockTallies(s, step.t, t, m); } else { LockTallies(s, step, t, m); }
    } else {
      OtherStepsTally(s, step, t, m);
    }
  }

  lemma UnlockTallies(s: State, u: ThreadId, t: ThreadId, m: MutexId)
    requires Enabled(s, FinishUnlock(u))
    requires var k := s.threads[u].pc.m; var native := s.natives[NativeOf(s, k)];
      && Count(s, u, k) == (if native.owner == Some(u) then native.depth else 0)
      && (native.owner.Some? ==> native.depth > 0)
    ensures Tally(Apply(s, FinishUnlock(u)), t, m) == Tally(s, t, m) + Gain(s, FinishUnlock(u), t, m)
  {
  }

  lemma LockTallies(s: State, step: Step, t: ThreadId, m: MutexId)
    requires Enabled(s, step) && (step.Grant? || step.Nest? || step.Park? || step.Resume?)
    ensures Tally(Apply(s, step), t, m) == Tally(s, t, m) + Gain(s, step, t, m)
  {
  }

  lemma OtherStepsTally(s: State, step: Step, t: ThreadId, m: MutexId)
    requires Enabled(s, step) && !(step.Grant? || step.Nest? || step.Park? || step.Resume? || step.FinishUnlock?)
    ensures Tally(Apply(s, step), t, m) == Tally(s, t, m)
  {
  }

  /** Over every run, a client has locked a mutex as often as its successful locks outnumber its successful
      unlocks. */
  lemma {:induction false} TallyIsBalance(s: State, steps: seq<Step>, t: ThreadId, m: MutexId)
    requires Inv(s) && Run(s, steps).Some?
    ensures Tally(Run(s, steps).value, t, m) == Tally(s, t, m) + Balance(s, steps, t, m)
    decreases |steps|
  {
    hide Inv;
    if steps != [] {
      StepKeepsInv(s, steps[0]);
      StepTallies(s, steps[0], t, m);
      TallyIsBalance(Apply(s, steps[0]), steps[1..], t, m);
    }
  }

  /** The depth of a native object is the number of successful locks of its owner, less the unlocks. */
  lemma DepthIsBalance(steps: seq<Step>, n: NativeId)
    requires Run(INITIAL, steps).Some? && n < |Run(INITIAL, steps).value.natives|
    ensures var native := Run(INITIAL, steps).value.natives[n];
      native.owner.Some? ==> native.depth == Balance(INITIAL, steps, native.owner.value, native.origin)
  {
    var s := Run(INITIAL, steps).value;
    var native := s.natives[n];
    RunKeepsInv(INITIAL, steps);
    if native.owner.Some? {
      var t := native.owner.value;
      OwnerKnown(s, n);
      PcKnown(s, t);
      TallyIsBalance(INITIAL, steps, t, native.origin);
    }
  }

  /** A zero-wrapped mutex whose kind is not NORMAL gets one native object, created under the guard by
      the thread holding it, with the translation of its kind; the native library's own static
      initialisation never fires for it, and every thread past the initialisation uses that object. */
  lemma LazyCreatesOnceUnderGuard(s: State, m: MutexId)
    requires Reachable(s) && m in s.mutexes && !s.mutexes[m].viaInit && s.mutexes[m].linuxKind != LINUX_NORMAL
    ensures forall n :: 0 <= n < |s.natives| && s.natives[n].origin == m ==>
      && s.natives[n].birth.Lazy? && s.natives[n].birth.guard == Some(s.natives[n].birth.creator)
      && HasNumber(s.natives[n].kind, s.mutexes[m].linuxKind)
    ensures forall i, j :: 0 <= i < |s.natives| && 0 <= j < |s.natives| && s.natives[i].origin == s.natives[j].origin == m ==> i == j
    ensures (exists n :: 0 <= n < |s.natives| && s.natives[n].origin == m) || s.mutexes[m].wrapped.Null? || s.mutexes[m].wrapped.Destroyed?
    ensures forall t :: At(s, t, m) && !InInitPath(s.threads[t].pc) ==>
      s.mutexes[m].wrapped.Live? && NativeOf(s, m) < |s.natives| && s.natives[NativeOf(s, m)].origin == m
  {
    ReachableInv(s);
    forall n | 0 <= n < |s.natives| && s.natives[n].origin == m ensures BirthOk(s.natives[n], s.mutexes[m]) {}
    forall t | At(s, t, m) && !InInitPath(s.threads[t].pc) ensures s.mutexes[m].wrapped.Live? {
      assert PcOk(s.mutexes, s.natives, s.threads[t].pc);
    }
  }

  /** The native object has the kind its declaration asks for exactly when that kind is not NORMAL: a
      NORMAL mutex is left to the native library, whose default kind checks errors. */
  lemma StaticKindKeptUnlessNormal(s: State, n: NativeId)
    requires Reachable(s) && n < |s.natives| && s.natives[n].origin in s.mutexes && !s.mutexes[s.natives[n].origin].viaInit
    ensures var kind := s.mutexes[s.natives[n].origin].linuxKind;
      && (HasNumber(s.natives[n].kind, kind) <==> kind != 0)
      && (kind == 0 ==> s.natives[n].kind.NativeErrorCheck?)
  {
    ReachableInv(s);
    assert BirthOk(s.natives[n], s.mutexes[s.natives[n].origin]);
  }

  /** The native object of an initialised mutex has the kind of the attribute, or checks errors if there was none. */
  lemma InitialisedKindKept(s: State, n: NativeId)
    requires Inv(s) && n < |s.natives| && s.natives[n].origin in s.mutexes && s.mutexes[s.natives[n].origin].viaInit
    ensures var asked := s.mutexes[s.natives[n].origin].attrKind;
      if asked.Some? then HasNumber(s.natives[n].kind, asked.value) else s.natives[n].kind.NativeErrorCheck?
  {
    assert BirthOk(s.natives[n], s.mutexes[s.natives[n].origin]);
  }

  /** What a second lock by the holder does, by the number of the kind: it succeeds for RECURSIVE alone, it is refused for
      ERRORCHECK and ADAPTIVE, without an attribute, and for a static NORMAL mutex; for an initialised NORMAL mutex it does
      neither, it blocks. Where it would block, trylock and timedlock are refused. */
  lemma RelockByNumber(s: State, t: ThreadId)
    requires Inv(s) && s.aborted.None? && InNativeOn(s, t) && !IsWait(s.threads[t].pc.op)
    requires s.natives[NativeOf(s, s.threads[t].pc.m)].owner == Some(t)
    ensures var shim := s.mutexes[s.threads[t].pc.m];
      && (Enabled(s, Nest(t)) <==> if shim.viaInit then shim.attrKind == Some(1) else shim.linuxKind == 1)
      && (s.threads[t].pc.op.Lock? ==> (Enabled(s, Refuse(t)) <==>
            if shim.viaInit then shim.attrKind in {None, Some(2), Some(3)} else shim.linuxKind in {0, 2, 3}))
      && (!s.threads[t].pc.op.Lock? ==> (Enabled(s, Refuse(t)) <==> !Enabled(s, Nest(t))))
      && !Enabled(s, Grant(t))
  {
    var n := NativeOf(s, s.threads[t].pc.m);
    assert s.natives[n].origin == s.threads[t].pc.m;
    assert BirthOk(s.natives[n], s.mutexes[s.threads[t].pc.m]);
  }

  /** A caller who does not own the mutex gets it exactly when nobody does, and otherwise waits for it, or is refused by
      trylock and timedlock; a wait asks for the owner. */
  lemma OthersWait(s: State, t: ThreadId)
    requires s.aborted.None? && InNativeOn(s, t)
    ensures var native, op := s.natives[NativeOf(s, s.threads[t].pc.m)], s.threads[t].pc.op;
      && (op.Lock? || op.TryLock? || op.TimedLock? ==> (Enabled(s, Grant(t)) <==> native.owner.None?))
      && (op.Lock? && native.owner != Some(t) ==> !Enabled(s, Nest(t)) && !Enabled(s, Refuse(t)))
      && ((op.TryLock? || op.TimedLock?) && native.owner != Some(t) ==> (Enabled(s, Refuse(t)) <==> native.owner.Some?))
      && (op.CondWait? || op.CondTimedWait? ==>
            && (Enabled(s, Park(t)) <==> native.owner == Some(t)) && (Enabled(s, Refuse(t)) <==> native.owner != Some(t))
            && !Enabled(s, Grant(t)) && !Enabled(s, Nest(t)))
  {
  }

  /** How a mutex was made is never forgotten. */
  lemma StepKeepsMaking(s: State, step: Step, m: MutexId)
    requires Enabled(s, step) && m in s.mutexes
    ensures var s' := Apply(s, step);
      m in s'.mutexes && s'.mutexes[m].(wrapped := Null) == s.mutexes[m].(wrapped := Null)
  {
  }

  lemma {:induction false} RunKeepsMaking(s: State, steps: seq<Step>, m: MutexId)
    requires Run(s, steps).Some? && m in s.mutexes
    ensures var s' := Run(s, steps).value;
      m in s'.mutexes && s'.mutexes[m].(wrapped := Null) == s.mutexes[m].(wrapped := Null)
    decreases |steps|
  {
    if steps != [] {
      StepKeepsMaking(s, steps[0], m);
      RunKeepsMaking(Apply(s, steps[0]), steps[1..], m);
    }
  }

  /** From the making of a mutex over every run to a second lock by its holder: which of the two answers it can get
      depends on the number the program gave, and on nothing that happened in between. */
  lemma RelockAsAsked(s: State, making: Step, steps: seq<Step>, t: ThreadId)
    requires Inv(s) && Enabled(s, making) && (making.Declare? || making.Init?) && Run(Apply(s, making), steps).Some?
    requires var s' := Run(Apply(s, making), steps).value;
      && s'.aborted.None? && InNativeOn(s', t) && s'.threads[t].pc.op.Lock? && s'.threads[t].pc.m == making.m
      && s'.natives[NativeOf(s', making.m)].owner == Some(t)
    ensures var s' := Run(Apply(s, making), steps).value;
      && (Enabled(s', Nest(t)) <==> if making.Init? then making.attrKind == Some(1) else making.linuxKind == 1)
      && (Enabled(s', Refuse(t)) <==>
            if making.Init? then making.attrKind in {None, Some(2), Some(3)} else making.linuxKind in {0, 2, 3})
  {
    hide Inv, Enabled, InNativeOn, Run;
    var s1 := Apply(s, making);
    StepKeepsInv(s, making);
    RunKeepsInv(s1, steps);
    RunKeepsMaking(s1, steps, making.m);
    RelockByNumber(Run(s1, steps).value, t);
  }

  /** The first lock of a static NORMAL mutex: its native object is not of the kind NORMAL translates to. */
  lemma StaticNormalIsNotNormal() returns (s: State)
    ensures Reachable(s) && |s.natives| == 1 && s.natives[0].origin == 7
    ensures 7 in s.mutexes && s.mutexes[7].linuxKind == 0 && !HasNumber(s.natives[0].kind, 0)
  {
    hide Reachable, Run;
    s := NormalIsLocked();
    s := ReachableStep(s, Proceed(0));
    s := ReachableStep(s, Proceed(0));
    assert s.threads[0].pc == InNative(Lock, 7);
    s := ReachableStep(s, StaticInit(0));
  }

  lemma NormalIsLocked() returns (s: State)
    ensures Reachable(s) && s.natives == [] && s.aborted.None?
    ensures 0 in s.threads && s.threads[0].pc == ReadPointer(Lock, 7)
    ensures 7 in s.mutexes && s.mutexes[7] == ShimMutex(0, Null, false, None)
  {
    assert Run(INITIAL, []) == Some(INITIAL);
    assert Reachable(INITIAL);
    hide Reachable, Run;
    s := ReachableStep(INITIAL, Spawn(0));
    s := ReachableStep(s, Declare(7, LINUX_NORMAL));
    s := ReachableStep(s, Call(0, Lock, 7));
  }

  lemma ReachableStep(s: State, step: Step) returns (s': State)
    requires Reachable(s) && Enabled(s, step)
    ensures Reachable(s') && s' == Apply(s, step)
  {
    var steps :| Run(INITIAL, steps) == Some(s);
    RunSnoc(INITIAL, steps, step);
    s' := Apply(s, step);
  }

  lemma {:induction false} RunSnoc(s: State, steps: seq<Step>, step: Step)
    requires Run(s, steps).Some? && Enabled(Run(s, steps).value, step)
    ensures Run(s, steps + [step]) == Some(Apply(Run(s, steps).value, step))
    decreases |steps|
  {
    if steps == [] {
      assert Run(Apply(s, step), []) == Some(Apply(s, step));
      assert [step][1..] == [];
    } else {
      RunSnoc(Apply(s, steps[0]), steps[1..], step);
      assert (steps + [step])[1..] == steps[1..] + [step];
    }
  }

  /** Once created, a native object stays the object of its mutex until the mutex is destroyed. */
  lemma {:induction false} NativeNeverReplaced(s: State, steps: seq<Step>, m: MutexId)
    requires Inv(s) && Run(s, steps).Some?
    requires m in s.mutexes && !s.mutexes[m].wrapped.Null?
    ensures var s' := Run(s, steps).value;
      && m in s'.mutexes && (s'.mutexes[m].wrapped == s.mutexes[m].wrapped || s'.mutexes[m].wrapped.Destroyed?)
      && s'.mutexes[m].linuxKind == s.mutexes[m].linuxKind
      && |s.natives| <= |s'.natives|
      && forall n :: 0 <= n < |s.natives| ==>
           && s'.natives[n].origin == s.natives[n].origin
           && s'.natives[n].kind == s.natives[n].kind && s'.natives[n].birth == s.natives[n].birth
    decreases |steps|
  {
    if steps != [] {
      StepKeepsInv(s, steps[0]);
      StepKeepsNatives(s, steps[0], m);
      NativeNeverReplaced(Apply(s, steps[0]), steps[1..], m);
    }
  }

  lemma StepKeepsNatives(s: State, step: Step, m: MutexId)
    requires Inv(s) && Enabled(s, step)
    requires m in s.mutexes && !s.mutexes[m].wrapped.Null?
    ensures var s' := Apply(s, step);
      && NativesKept(s.natives, s'.natives)
      && m in s'.mutexes && (s'.mutexes[m].wrapped == s.mutexes[m].wrapped || s'.mutexes[m].wrapped.Destroyed?)
      && s'.mutexes[m].linuxKind == s.mutexes[m].linuxKind
  {
    if step.Proceed? {
      assert PcOk(s.mutexes, s.natives, s.threads[step.t].pc);
      ProceedKeepsNatives(s, step.t, m);
    } else if step.Init? || step.StaticInit? || step.Declare? || step.Destroy? {
      MakersKeepNatives(s, step, m);
    } else {
      OthersKeepNatives(s, step);
    }
  }

  lemma MakersKeepNatives(s: State, step: Step, m: MutexId)
    requires Enabled(s, step) && (step.Init? || step.StaticInit? || step.Declare? || step.Destroy?)
    requires m in s.mutexes && !s.mutexes[m].wrapped.Null?
    ensures var s' := Apply(s, step);
      && NativesKept(s.natives, s'.natives)
      && m in s'.mutexes && (s'.mutexes[m].wrapped == s.mutexes[m].wrapped || s'.mutexes[m].wrapped.Destroyed?)
      && s'.mutexes[m].linuxKind == s.mutexes[m].linuxKind
  {
  }

  lemma OthersKeepNatives(s: State, step: Step)
    requires Enabled(s, step) && !(step.Proceed? || step.Init? || step.StaticInit? || step.Declare? || step.Destroy?)
    ensures Apply(s, step).mutexes == s.mutexes && NativesKept(s.natives, Apply(s, step).natives)
  {
  }

  /** No native object changes its mutex, its kind or its birth. */
  ghost predicate NativesKept(ns: Natives, ns': Natives) {
    && |ns| <= |ns'|
    && forall n :: 0 <= n < |ns| ==> ns'[n].origin == ns[n].origin && ns'[n].kind == ns[n].kind && ns'[n].birth == ns[n].birth
  }

  lemma ProceedKeepsNatives(s: State, t: ThreadId, m: MutexId)
    requires Enabled(s, Proceed(t)) && m in s.mutexes && !s.mutexes[m].wrapped.Null?
    requires PcOk(s.mutexes, s.natives, s.threads[t].pc)
    ensures var s' := ProceedFrom(s, t);
      && NativesKept(s.natives, s'.natives)
      && m in s'.mutexes && s'.mutexes[m] == s.mutexes[m]
  {
  }

  /** A mutex that can still be used has a NULL pointer exactly when it was declared with an initialiser and no
      native object was ever made for it. */
  lemma NullIfNeverMade(s: State, m: MutexId)
    requires Reachable(s) && Usable(s, m)
    ensures s.mutexes[m].wrapped.Null? <==> !s.mutexes[m].viaInit && forall n :: 0 <= n < |s.natives| ==> s.natives[n].origin != m
  {
    ReachableInv(s);
    if s.mutexes[m].wrapped.Live? { assert s.natives[s.mutexes[m].wrapped.id].origin == m; }
  }

  /** Exactly when the assertion of the unlock shim ends the process, whoever calls: if the mutex was declared with an
      initialiser and no native object was ever made for it. So it never does for a thread that holds the mutex. */
  lemma UnlockAbortsIffNeverMade(s: State, t: ThreadId, m: MutexId)
    requires Reachable(s) && Enabled(s, BeginUnlock(t, m))
    ensures Apply(s, BeginUnlock(t, m)).aborted.Some? <==>
      !s.mutexes[m].viaInit && forall n :: 0 <= n < |s.natives| ==> s.natives[n].origin != m
    ensures m in s.threads[t].held ==> Apply(s, BeginUnlock(t, m)).aborted.None?
  {
    ReachableInv(s);
    NullIfNeverMade(s, m);
    if m in s.threads[t].held { assert HolderOk(s.mutexes, s.natives, t, m); }
  }

  /** Exactly when the assertion of the destroy shim ends the process. */
  lemma DestroyAbortsIffNeverMade(s: State, t: ThreadId, m: MutexId)
    requires Reachable(s) && Enabled(s, Destroy(t, m))
    ensures Apply(s, Destroy(t, m)).aborted.Some? <==>
      !s.mutexes[m].viaInit && forall n :: 0 <= n < |s.natives| ==> s.natives[n].origin != m
  {
    NullIfNeverMade(s, m);
  }

  /** Destroying a mutex makes it unusable exactly when it has a native object and nobody owns that; nobody holds it then,
      and it stays unusable over every run. */
  lemma DestroyedIsGone(s: State, t: ThreadId, m: MutexId, steps: seq<Step>)
    requires Inv(s) && Enabled(s, Destroy(t, m)) && Run(Apply(s, Destroy(t, m)), steps).Some?
    ensures var s1 := Apply(s, Destroy(t, m));
      !Usable(s1, m) <==> s.mutexes[m].wrapped.Live? && forall u :: u in s.threads ==> m !in s.threads[u].held
    ensures var s1, s' := Apply(s, Destroy(t, m)), Run(Apply(s, Destroy(t, m)), steps).value;
      !Usable(s1, m) ==> !Usable(s', m) && forall u :: u in s'.threads ==> m !in s'.threads[u].held
  {
    var s1 := Apply(s, Destroy(t, m));
    HeldIsOwned(s, m);
    StepKeepsInv(s, Destroy(t, m));
    RunKeepsInv(s1, steps);
    var s' := Run(s1, steps).value;
    hide Inv, Run;
    if !Usable(s1, m) {
      NativeNeverReplaced(s1, steps, m);
      HeldIsOwned(s', m);
    }
  }

  /** A mutex is held exactly when it has a native object that somebody owns. */
  lemma HeldIsOwned(s: State, m: MutexId)
    requires Inv(s) && m in s.mutexes
    ensures (exists u :: u in s.threads && m in s.threads[u].held) <==>
      s.mutexes[m].wrapped.Live? && NativeOf(s, m) < |s.natives| && s.natives[NativeOf(s, m)].owner.Some?
  {
    if u :| u in s.threads && m in s.threads[u].held { assert HolderOk(s.mutexes, s.natives, u, m); }
    if s.mutexes[m].wrapped.Live? {
      var native := s.natives[NativeOf(s, m)];
      assert OwnedOk(s.threads, native);
      if native.owner.Some? { assert m in s.threads[native.owner.value].held; }
    }
  }

  /** POSIX lets a program destroy a static mutex it never used, and makes the unlock of a free mutex that checks
      errors fail with EPERM. Here either call ends the process. */
  lemma UnusedStaticAborts() returns (s: State, s': State)
    ensures Reachable(s) && s.aborted == Some(DestroyOfNull(0, 7)) && 7 in s.mutexes && s.mutexes[7].linuxKind == LINUX_RECURSIVE
    ensures Reachable(s') && s'.aborted == Some(UnlockOfNull(0, 7)) && 7 in s'.mutexes && s'.mutexes[7].linuxKind == LINUX_ERRORCHECK
  {
    assert Run(INITIAL, []) == Some(INITIAL);
    assert Reachable(INITIAL);
    hide Reachable, Run;
    var s0 := ReachableStep(INITIAL, Spawn(0));
    s := ReachableStep(s0, Declare(7, LINUX_RECURSIVE));
    s := ReachableStep(s, Destroy(0, 7));
    s' := ReachableStep(s0, Declare(7, LINUX_ERRORCHECK));
    s' := ReachableStep(s', BeginUnlock(0, 7));
  }

  /** How the process can end: no assertion about the guard ever fails; a kind must be undefined, or a static
      mutex must be unlocked or destroyed that has no native object, which nobody holds. */
  lemma HowTheProcessEnds(s: State)
    requires Reachable(s) && s.aborted.Some?
    ensures match s.aborted.value
      case UnknownKind(m) => m in s.mutexes && s.mutexes[m].linuxKind > LINUX_ADAPTIVE_NP && !s.mutexes[m].viaInit
      case UnlockOfNull(_, m) => UnusedStatic(s, m)
      case DestroyOfNull(_, m) => UnusedStatic(s, m)
      case _ => false
  {
    ReachableInv(s);
    forall t, m | t in s.threads && m in s.threads[t].held ensures HolderOk(s.mutexes, s.natives, t, m) {}
  }

  ghost predicate UnusedStatic(s: State, m: MutexId) {
    && m in s.mutexes && !s.mutexes[m].viaInit && s.mutexes[m].wrapped.Null?
    && forall t :: t in s.threads ==> m !in s.threads[t].held
  }

  // ----- Progress

  /** How many of its own steps a thread is away from its native call. */
  function Rank(pc: Pc): nat {
    match pc
    case ReadPointer(_, _) => 6
    case ReadKind(_, _) => 5
    case LockGuard(_, _) => 4
    case Recheck(_, _) => 3
    case Create(_, _) => 2
    case UnlockGuard(_, _) => 1
    case _ => 0
  }

  function CountProceeds(steps: seq<Step>, t: ThreadId): nat {
    if steps == [] then 0 else (if steps[0] == Proceed(t) then 1 else 0) + CountProceeds(steps[1..], t)
  }

  /** A step of another thread leaves a thread inside a call where it is. */
  lemma OthersLeaveAlone(s: State, step: Step, t: ThreadId)
    requires Enabled(s, step) && t in s.threads && InInitPath(s.threads[t].pc) && step != Proceed(t)
    ensures t in Apply(s, step).threads && Apply(s, step).threads[t].pc == s.threads[t].pc
  {
    if !step.Declare? { assert step.t != t; }
  }

  /** Its own step brings it closer and keeps the call it is making. */
  lemma OwnStepAdvances(s: State, t: ThreadId)
    requires Enabled(s, Proceed(t)) && ProceedFrom(s, t).aborted.None?
    ensures var pc, pc' := s.threads[t].pc, ProceedFrom(s, t).threads[t].pc;
      Rank(pc') < Rank(pc) && (pc' == InNative(pc.op, pc.m) || (InInitPath(pc') && pc'.op == pc.op && pc'.m == pc.m))
  {
  }

  /** One step of anyone: a thread inside the initialisation stays in its call, and moves if it is its turn. */
  lemma AnyStepAdvances(s: State, step: Step, t: ThreadId)
    requires Enabled(s, step) && Apply(s, step).aborted.None? && t in s.threads && InInitPath(s.threads[t].pc)
    ensures t in Apply(s, step).threads
    ensures var pc, pc' := s.threads[t].pc, Apply(s, step).threads[t].pc;
      && Rank(pc') <= Rank(pc) - (if step == Proceed(t) then 1 else 0)
      && (pc' == InNative(pc.op, pc.m) || (InInitPath(pc') && pc'.op == pc.op && pc'.m == pc.m))
  {
    if step == Proceed(t) { OwnStepAdvances(s, t); } else { OthersLeaveAlone(s, step, t); }
  }

  /** The thread is at its call into the native library, and does not hold the guard. */
  ghost predicate Arrived(s: State, t: ThreadId, op: Op, m: MutexId) {
    t in s.threads && s.threads[t].pc == InNative(op, m) && s.guard != Some(t)
  }

  lemma OutsideHoldsNoGuard(s: State, t: ThreadId, op: Op, m: MutexId)
    requires GuardInv(s.threads, s.guard) && t in s.threads && s.threads[t].pc == InNative(op, m)
    ensures Arrived(s, t, op, m)
  {
  }

  /** One step of anyone brings a caller that is scheduled closer to its call, or to it. */
  lemma Approaches(s: State, step: Step, t: ThreadId, op: Op, m: MutexId)
    requires Inv(s) && Enabled(s, step) && Apply(s, step).aborted.None? && t in s.threads
    requires InInitPath(s.threads[t].pc) && s.threads[t].pc.op == op && s.threads[t].pc.m == m
    ensures Inv(Apply(s, step)) && t in Apply(s, step).threads
    ensures var pc' := Apply(s, step).threads[t].pc;
      && Rank(pc') <= Rank(s.threads[t].pc) - (if step == Proceed(t) then 1 else 0)
      && if InInitPath(pc') then pc'.op == op && pc'.m == m else Arrived(Apply(s, step), t, op, m)
  {
    StepKeepsInv(s, step);
    AnyStepAdvances(s, step, t);
    if Apply(s, step).threads[t].pc == InNative(op, m) { OutsideHoldsNoGuard(Apply(s, step), t, op, m); }
  }

  /** A caller that is scheduled Rank times, in whatever interleaving, gets to its native call. */
  lemma {:induction false} CallerReachesNative(s: State, steps: seq<Step>, t: ThreadId) returns (k: nat)
    requires Inv(s) && t in s.threads && InInitPath(s.threads[t].pc)
    requires Run(s, steps).Some? && Run(s, steps).value.aborted.None?
    requires CountProceeds(steps, t) >= Rank(s.threads[t].pc)
    ensures k <= |steps| && Run(s, steps[..k]).Some?
    ensures Arrived(Run(s, steps[..k]).value, t, s.threads[t].pc.op, s.threads[t].pc.m)
    decreases |steps|
  {
    hide Inv;
    var s1, rest := Apply(s, steps[0]), steps[1..];
    StaysAlive(s1, rest);
    Approaches(s, steps[0], t, s.threads[t].pc.op, s.threads[t].pc.m);
    k := 0;
    if InInitPath(s1.threads[t].pc) { k := CallerReachesNative(s1, rest, t); }
    RunPrefix(s, steps, k);
    k := k + 1;
  }

  lemma RunPrefix(s: State, steps: seq<Step>, k: nat)
    requires k < |steps| && Enabled(s, steps[0])
    ensures Run(s, steps[..k + 1]) == Run(Apply(s, steps[0]), steps[1..][..k])
  {
    assert steps[..k + 1][1..] == steps[1..][..k];
  }

  lemma {:induction false} StaysAlive(s: State, steps: seq<Step>)
    requires Run(s, steps).Some? && Run(s, steps).value.aborted.None?
    ensures s.aborted.None?
  {
  }

  /** The guard cannot be leaked: a holder that is scheduled three times, in whatever interleaving, has
      released it at some point. */
  lemma HolderReleasesGuard(s: State, steps: seq<Step>, t: ThreadId) returns (k: nat)
    requires Reachable(s) && s.guard == Some(t)
    requires Run(s, steps).Some? && Run(s, steps).value.aborted.None? && CountProceeds(steps, t) >= 3
    ensures k <= |steps| && Run(s, steps[..k]).Some? && Run(s, steps[..k]).value.guard != Some(t)
  {
    ReachableInv(s);
    k := CallerReachesNative(s, steps, t);
  }

  /** The initialisation never deadlocks: whenever some thread is inside it, that thread or the holder of
      the guard can step. */
  lemma InitNeverStuck(s: State, t: ThreadId) returns (u: ThreadId)
    requires Inv(s) && s.aborted.None? && t in s.threads && InInitPath(s.threads[t].pc)
    ensures u in s.threads && InInitPath(s.threads[u].pc) && Enabled(s, Proceed(u))
    ensures u == t || s.guard == Some(u)
  {
    u := if s.guard.Some? then s.guard.value else t;
    assert PcOk(s.mutexes, s.natives, s.threads[u].pc);
  }

  /** The own steps all the given threads are away from their native calls. */
  ghost function TotalRank(ts: Threads, ids: set<ThreadId>): nat
    requires ids <= ts.Keys
  {
    if ids == {} then 0
    else
      var t :| t in ids;
      Rank(ts[t].pc) + TotalRank(ts, ids - {t})
  }

  lemma {:induction false} TotalRankSplit(ts: Threads, ids: set<ThreadId>, t: ThreadId)
    requires ids <= ts.Keys && t in ids
    ensures TotalRank(ts, ids) == Rank(ts[t].pc) + TotalRank(ts, ids - {t})
    decreases ids
  {
    var u :| u in ids && TotalRank(ts, ids) == Rank(ts[u].pc) + TotalRank(ts, ids - {u});
    if u != t {
      TotalRankSplit(ts, ids - {u}, t);
      TotalRankSplit(ts, ids - {t}, u);
      assert ids - {u} - {t} == ids - {t} - {u};
    }
  }

  lemma {:induction false} TotalRankFrame(ts: Threads, ts': Threads, ids: set<ThreadId>)
    requires ids <= ts.Keys && ids <= ts'.Keys && forall t :: t in ids ==> ts[t].pc == ts'[t].pc
    ensures TotalRank(ts, ids) == TotalRank(ts', ids)
    decreases ids
  {
    if ids != {} {
      var t :| t in ids;
      TotalRankSplit(ts, ids, t);
      TotalRankSplit(ts', ids, t);
      TotalRankFrame(ts, ts', ids - {t});
    }
  }

  ghost predicate OnlyProceeds(steps: seq<Step>) {
    forall i :: 0 <= i < |steps| ==> steps[i].Proceed?
  }

  /** A step inside the initialisation that does not end the process lowers the total. */
  lemma ProceedLowersTotal(s: State, t: ThreadId)
    requires Enabled(s, Proceed(t)) && ProceedFrom(s, t).aborted.None?
    ensures var s' := ProceedFrom(s, t);
      && s'.threads.Keys == s.threads.Keys
      && TotalRank(s'.threads, s'.threads.Keys) < TotalRank(s.threads, s.threads.Keys)
  {
    var s' := ProceedFrom(s, t);
    OwnStepAdvances(s, t);
    assert s'.threads.Keys == s.threads.Keys;
    TotalRankSplit(s.threads, s.threads.Keys, t);
    TotalRankSplit(s'.threads, s.threads.Keys, t);
    TotalRankFrame(s.threads, s'.threads, s.threads.Keys - {t});
  }

  /** Every schedule of the threads inside the initialisation is shorter than TotalRank, up to the step
      that meets an unknown kind and ends the process. */
  lemma {:induction false} InitialisationTerminates(s: State, steps: seq<Step>)
    requires OnlyProceeds(steps) && Run(s, steps).Some?
    ensures |steps| <= TotalRank(s.threads, s.threads.Keys) + 1
    ensures Run(s, steps).value.aborted.None? ==> |steps| <= TotalRank(s.threads, s.threads.Keys)
    decreases |steps|
  {
    if steps != [] {
      var s1 := Apply(s, steps[0]);
      InitialisationTerminates(s1, steps[1..]);
      if s1.aborted.None? {
        ProceedLowersTotal(s, steps[0].t);
      } else {
        StaysAborted(s1, steps[1..]);
      }
    }
  }

  lemma StaysAborted(s: State, steps: seq<Step>)
    requires s.aborted.Some? && Run(s, steps).Some?
    ensures steps == []
  {
  }

  /** A schedule that cannot go on has taken every thread to its native call, or has met an unknown kind. */
  lemma InitialisationDrains(s: State, steps: seq<Step>)
    requires Reachable(s) && OnlyProceeds(steps) && Run(s, steps).Some?
    requires forall u :: u in Run(s, steps).value.threads ==> !Enabled(Run(s, steps).value, Proceed(u))
    ensures var s' := Run(s, steps).value;
      || (s'.aborted.None? && forall u :: u in s'.threads ==> !InInitPath(s'.threads[u].pc))
      || (s'.aborted.Some? && (s.aborted == s'.aborted || s'.aborted.value.UnknownKind?))
  {
    ReachableInv(s);
    RunKeepsInv(s, steps);
    var s' := Run(s, steps).value;
    if s'.aborted.None? {
      if t :| t in s'.threads && InInitPath(s'.threads[t].pc) {
        var u := InitNeverStuck(s', t);
        assert false;
      }
    } else {
      OnlyUnknownKindAborts(s, steps);
    }
  }

  lemma {:induction false} OnlyUnknownKindAborts(s: State, steps: seq<Step>)
    requires Inv(s) && OnlyProceeds(steps) && Run(s, steps).Some?
    ensures var s' := Run(s, steps).value; s'.aborted == s.aborted || (s'.aborted.Some? && s'.aborted.value.UnknownKind?)
    decreases |steps|
  {
    if steps != [] {
      StepKeepsInv(s, steps[0]);
      OnlyUnknownKindAborts(Apply(s, steps[0]), steps[1..]);
    }
  }
}
