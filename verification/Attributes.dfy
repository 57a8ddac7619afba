/** The mutex, condition and barrier attributes of src/libthr/pthread.c. Linux reserves one 32-bit word for
    each, so the shim packs the fields of an attribute into the bits of a word.

    An int argument is given by its 32 bits: a negative one is a large number, so that both halves of a range
    assertion are one unsigned comparison. */
module Attributes {
  import opened Wrappers
  import LazyMutex

  // ----- struct shim_pthread_mutexattr

  datatype Field = Kind | PrioCeiling | Protocol | PShared | Robust

  /** 1 << SHIM_MUTEXATTR_..._NBITS */
  function Limit(f: Field): bv32 { if f.Kind? || f.PrioCeiling? then 4 else 2 }

  /** The bit-fields lie where the ABI of amd64 puts them: from the lowest bit, in the order of declaration. */
  function Load(word: bv32, f: Field): bv32 {
    match f
    case Kind => word & 0x3
    case PrioCeiling => (word >> 2) & 0x3
    case Protocol => (word >> 4) & 0x1
    case PShared => (word >> 5) & 0x1
    case Robust => (word >> 6) & 0x1
  }

  function Store(word: bv32, f: Field, v: bv32): bv32 {
    match f
    case Kind => (word & !0x3) | (v & 0x3)
    case PrioCeiling => (word & !0xc) | ((v & 0x3) << 2)
    case Protocol => (word & !0x10) | ((v & 0x1) << 4)
    case PShared => (word & !0x20) | ((v & 0x1) << 5)
    case Robust => (word & !0x40) | ((v & 0x1) << 6)
  }

  lemma KindStored(word: bv32, v: bv32, g: Field)
    ensures Load(Store(word, Kind, v), Kind) == v <==> v < 4
    ensures !g.Kind? ==> Load(Store(word, Kind, v), g) == Load(word, g)
  {
  }

  lemma PrioCeilingStored(word: bv32, v: bv32, g: Field)
    ensures Load(Store(word, PrioCeiling, v), PrioCeiling) == v <==> v < 4
    ensures !g.PrioCeiling? ==> Load(Store(word, PrioCeiling, v), g) == Load(word, g)
  {
  }

  lemma ProtocolStored(word: bv32, v: bv32, g: Field)
    ensures Load(Store(word, Protocol, v), Protocol) == v <==> v < 2
    ensures !g.Protocol? ==> Load(Store(word, Protocol, v), g) == Load(word, g)
  {
  }

  lemma PSharedStored(word: bv32, v: bv32, g: Field)
    ensures Load(Store(word, PShared, v), PShared) == v <==> v < 2
    ensures !g.PShared? ==> Load(Store(word, PShared, v), g) == Load(word, g)
  {
  }

  lemma RobustStored(word: bv32, v: bv32, g: Field)
    ensures Load(Store(word, Robust, v), Robust) == v <==> v < 2
    ensures !g.Robust? ==> Load(Store(word, Robust, v), g) == Load(word, g)
  {
  }

  /** A value is stored whole exactly when it is below the limit, and no value disturbs another field. */
  lemma LoadOfStore(word: bv32, f: Field, v: bv32, g: Field)
    ensures Load(Store(word, f, v), f) == v <==> v < Limit(f)
    ensures f != g ==> Load(Store(word, f, v), g) == Load(word, g)
  {
    hide Load, Store;
    match f
    case Kind => KindStored(word, v, g);
    case PrioCeiling => PrioCeilingStored(word, v, g);
    case Protocol => ProtocolStored(word, v, g);
    case PShared => PSharedStored(word, v, g);
    case Robust => RobustStored(word, v, g);
  }

  lemma StoreSetsOne(word: bv32, f: Field, v: bv32)
    requires v < Limit(f)
    ensures forall g :: Load(Store(word, f, v), g) == if g == f then v else Load(word, g)
  {
    hide Load, Store;
    forall g ensures Load(Store(word, f, v), g) == if g == f then v else Load(word, g) { LoadOfStore(word, f, v, g); }
  }

  datatype SetField = SetField(field: Field, value: bv32)

  /** The value the last of the calls set a field to, or its default: all defaults are 0. */
  function LastSet(calls: seq<SetField>, f: Field): bv32 {
    if calls == [] then 0
    else if calls[|calls| - 1].field == f then calls[|calls| - 1].value
    else LastSet(calls[..|calls| - 1], f)
  }

  /** No value is more than its field can have: 3 for the kind and the priority ceiling, 1 for the others. */
  predicate InRange(calls: seq<SetField>) {
    forall i :: 0 <= i < |calls| ==> calls[i].value <= if calls[i].field in {Kind, PrioCeiling} then 3 else 1
  }

  class MutexAttr {
    var word: bv32

    /** shim_pthread_mutexattr_init_impl: every field of default_mutexattr is 0. The storage held anything. */
    constructor ()
      ensures forall f :: Load(word, f) == 0
    {
      var garbage: bv32 := *;
      word := garbage & !0x7f;
    }

    /** The getters gettype, getprioceiling, getprotocol, getpshared and getrobust. */
    method Get(f: Field) returns (v: bv32)
      ensures v == Load(word, f)
    {
      v := Load(word, f);
    }

    /** The setters: an assertion guards each range. */
    method Set(f: Field, v: bv32) returns (r: Outcome<int>)
      modifies this
      ensures r == if v < Limit(f) then Returned(0) else Aborted
      ensures forall g :: Load(word, g) == if r.Returned? && g == f then v else Load(old(word), g)
    {
      if !(v < Limit(f)) { return Aborted; }
      StoreSetsOne(word, f, v);
      word := Store(word, f, v);
      r := Returned(0);
    }
  }

  /** Any setter calls on a new attribute: the process ends exactly when one of them is out of range;
      otherwise each getter returns what was last set. */
  method RunSetters(calls: seq<SetField>) returns (attr: MutexAttr, r: Outcome<int>)
    ensures r.Returned? <==> InRange(calls)
    ensures r.Returned? ==> forall f :: Load(attr.word, f) == LastSet(calls, f)
  {
    attr := new MutexAttr();
    r := Returned(0);
    for i := 0 to |calls|
      invariant fresh(attr) && r == Returned(0) && InRange(calls[..i])
      invariant forall f :: Load(attr.word, f) == LastSet(calls[..i], f)
    {
      assert calls[..i + 1][..i] == calls[..i];
      r := attr.Set(calls[i].field, calls[i].value);
      if r.Aborted? { return; }
    }
    assert calls[..|calls|] == calls;
  }

  /** Any getter after any setter calls. */
  method SetThenGet(calls: seq<SetField>, f: Field) returns (r: Outcome<bv32>)
    ensures r == if InRange(calls) then Returned(LastSet(calls, f)) else Aborted
  {
    var attr, done := RunSetters(calls);
    if done.Aborted? { return Aborted; }
    var v := attr.Get(f);
    r := Returned(v);
  }

  datatype NativeProtocol = PrioNone | PrioInherit | PrioProtect
  datatype NativeShared = ProcessPrivate | ProcessShared
  datatype NativeRobust = Stalled | RobustMutex
  datatype NativeAttr = NativeAttr(
    kind: LazyMutex.NativeKind, protocol: NativeProtocol, pshared: NativeShared, robust: NativeRobust)

  /** linux_to_native_mutex_kind on the bits of the field */
  function NativeKindOf(v: bv32): Option<LazyMutex.NativeKind> {
    if v == 0 then Some(LazyMutex.NativeNormal)
    else if v == 1 then Some(LazyMutex.NativeRecursive)
    else if v == 2 then Some(LazyMutex.NativeErrorCheck)
    else if v == 3 then Some(LazyMutex.NativeAdaptive)
    else None
  }

  /** linux_to_native_protocol */
  function NativeProtocolOf(v: bv32): Option<NativeProtocol> {
    if v == 0 then Some(PrioNone) else if v == 1 then Some(PrioInherit) else if v == 2 then Some(PrioProtect) else None
  }

  /** linux_to_native_pshared */
  function NativeSharedOf(v: bv32): Option<NativeShared> {
    if v == 0 then Some(ProcessPrivate) else if v == 1 then Some(ProcessShared) else None
  }

  /** linux_to_native_robust */
  function NativeRobustOf(v: bv32): Option<NativeRobust> {
    if v == 0 then Some(Stalled) else if v == 1 then Some(RobustMutex) else None
  }

  /** The attribute shim_pthread_mutex_init_impl hands to the native library. */
  method NativeAttrOf(attr: MutexAttr) returns (r: Outcome<NativeAttr>)
    ensures r.Aborted? <==> Load(attr.word, PrioCeiling) != 0
    ensures r.Returned? ==>
      && Some(r.value.kind) == NativeKindOf(Load(attr.word, Kind))
      && Some(r.value.protocol) == NativeProtocolOf(Load(attr.word, Protocol))
      && Some(r.value.pshared) == NativeSharedOf(Load(attr.word, PShared))
      && Some(r.value.robust) == NativeRobustOf(Load(attr.word, Robust))
  {
    FieldsKnown(attr.word);
    var kind := NativeKindOf(Load(attr.word, Kind));
    if kind.None? { return Aborted; }
    if Load(attr.word, PrioCeiling) != 0 { return Aborted; }
    var protocol := NativeProtocolOf(Load(attr.word, Protocol));
    if protocol.None? { return Aborted; }
    var pshared := NativeSharedOf(Load(attr.word, PShared));
    if pshared.None? { return Aborted; }
    var robust := NativeRobustOf(Load(attr.word, Robust));
    if robust.None? { return Aborted; }
    r := Returned(NativeAttr(kind.value, protocol.value, pshared.value, robust.value));
  }

  /** No PANIC of the translations can happen: the fields are as wide as the numbers they know, and the one
      bit of the protocol cannot hold PTHREAD_PRIO_PROTECT. */
  lemma FieldsKnown(word: bv32)
    ensures NativeKindOf(Load(word, Kind)).Some? && NativeSharedOf(Load(word, PShared)).Some?
    ensures NativeRobustOf(Load(word, Robust)).Some?
    ensures NativeProtocolOf(Load(word, Protocol)) in {Some(PrioNone), Some(PrioInherit)}
  {
  }

  /** The kinds are those of the mutex module, and have the numbers of Linux. */
  lemma KindsAgree(v: bv32)
    requires v <= 3
    ensures NativeKindOf(v) == LazyMutex.TranslateKind(v as nat)
    ensures NativeKindOf(v).Some? && LazyMutex.HasNumber(NativeKindOf(v).value, v as nat)
  {
  }

  /** The native attribute says what the given numbers of the Linux fields say. */
  predicate Says(n: NativeAttr, kind: bv32, protocol: bv32, pshared: bv32, robust: bv32) {
    && (n.kind.NativeNormal? <==> kind == 0) && (n.kind.NativeRecursive? <==> kind == 1)
    && (n.kind.NativeErrorCheck? <==> kind == 2) && (n.kind.NativeAdaptive? <==> kind == 3)
    && (n.protocol.PrioNone? <==> protocol == 0) && (n.protocol.PrioInherit? <==> protocol == 1)
    && (n.pshared.ProcessPrivate? <==> pshared == 0) && (n.pshared.ProcessShared? <==> pshared == 1)
    && (n.robust.Stalled? <==> robust == 0) && (n.robust.RobustMutex? <==> robust == 1)
  }

  /** From the setters to the native library: what is handed over is the translation of what was set last,
      and the call ends the process exactly when the last priority ceiling was not 0. */
  method SetThenInit(calls: seq<SetField>) returns (r: Outcome<NativeAttr>)
    ensures r.Returned? <==> InRange(calls) && LastSet(calls, PrioCeiling) == 0
    ensures r.Returned? ==>
      Says(r.value, LastSet(calls, Kind), LastSet(calls, Protocol), LastSet(calls, PShared), LastSet(calls, Robust))
  {
    var attr, done := RunSetters(calls);
    if done.Aborted? { return Aborted; }
    FieldsKnown(attr.word);
    r := NativeAttrOf(attr);
  }

  // ----- linux_pthread_condattr_t and linux_pthread_barrierattr_t

  const EINVAL: int := 22
  const REALTIME: bv32 := 0
  const MONOTONIC: bv32 := 1
  const PRIVATE: bv32 := 0
  const SHARED: bv32 := 1

  const CONDATTR_MONOTONIC: bv32 := 0x1
  const CONDATTR_SHARED: bv32 := 0x2
  const BARRIERATTR_SHARED: bv32 := 0x1

  datatype CondCall = SetClock(id: bv32) | SetShared(shared: bv32)

  /** The clock of the last call that was accepted: 0 is real time, which is the default, and 1 is monotonic. */
  function LastClock(calls: seq<CondCall>): bv32 {
    if calls == [] then 0
    else
      var last := calls[|calls| - 1];
      if last.SetClock? && last.id <= 1 then last.id
      else LastClock(calls[..|calls| - 1])
  }

  /** The sharing that was last set: 0 is private, which is the default, and 1 is shared. */
  function LastShared(calls: seq<CondCall>): bv32 {
    if calls == [] then 0
    else if calls[|calls| - 1].SetShared? then calls[|calls| - 1].shared
    else LastShared(calls[..|calls| - 1])
  }

  predicate SharedInRange(calls: seq<CondCall>) {
    forall i :: 0 <= i < |calls| && calls[i].SetShared? ==> calls[i].shared <= 1
  }

  function ClockIn(word: bv32): bv32 { if word & CONDATTR_MONOTONIC != 0 then MONOTONIC else REALTIME }

  function SharedIn(word: bv32): bv32 { if word & CONDATTR_SHARED != 0 then SHARED else PRIVATE }

  class CondAttr {
    var word: bv32

    constructor ()
      ensures ClockIn(word) == REALTIME && SharedIn(word) == PRIVATE
    {
      word := 0;
    }

    /** shim_pthread_condattr_getclock_impl */
    method GetClock() returns (id: bv32)
      ensures id == ClockIn(word)
    {
      id := if word & CONDATTR_MONOTONIC != 0 then MONOTONIC else REALTIME;
    }

    /** shim_pthread_condattr_getpshared_impl */
    method GetShared() returns (shared: bv32)
      ensures shared == SharedIn(word)
    {
      shared := if word & CONDATTR_SHARED != 0 then SHARED else PRIVATE;
    }

    /** shim_pthread_condattr_setclock_impl: a clock it does not know is refused and changes nothing. */
    method PutClock(id: bv32) returns (err: int)
      modifies this
      ensures err == if id <= 1 then 0 else 22
      ensures ClockIn(word) == (if err == 0 then id else ClockIn(old(word))) && SharedIn(word) == SharedIn(old(word))
    {
      if id != REALTIME && id != MONOTONIC { return EINVAL; }
      if id == MONOTONIC {
        word := word | CONDATTR_MONOTONIC;
      } else {
        word := word & !CONDATTR_MONOTONIC;
      }
      err := 0;
    }

    /** shim_pthread_condattr_setpshared_impl */
    method PutShared(shared: bv32) returns (r: Outcome<int>)
      modifies this
      ensures r == if shared == PRIVATE || shared == SHARED then Returned(0) else Aborted
      ensures SharedIn(word) == (if r.Returned? then shared else SharedIn(old(word))) && ClockIn(word) == ClockIn(old(word))
    {
      if !(shared == PRIVATE || shared == SHARED) { return Aborted; }
      if shared == SHARED {
        word := word | CONDATTR_SHARED;
      } else {
        word := word & !CONDATTR_SHARED;
      }
      r := Returned(0);
    }
  }

  datatype NativeClock = RealTime | Monotonic
  datatype NativeCondAttr = NativeCondAttr(clock: NativeClock, pshared: NativeShared)

  /** The attribute shim_pthread_cond_init_impl hands over; the native default is real time and private. */
  method NativeCondAttrOf(attr: CondAttr) returns (n: NativeCondAttr)
    ensures n.clock == (if ClockIn(attr.word) == MONOTONIC then Monotonic else RealTime)
    ensures Some(n.pshared) == NativeSharedOf(SharedIn(attr.word))
  {
    n := NativeCondAttr(RealTime, ProcessPrivate);
    if attr.word & CONDATTR_MONOTONIC != 0 { n := n.(clock := Monotonic); }
    if attr.word & CONDATTR_SHARED != 0 { n := n.(pshared := ProcessShared); }
  }

  /** Any setter calls on a new condition attribute: the process ends exactly when a sharing is out of range; otherwise
      the getters return the clock last accepted and the sharing last set. */
  method RunCondSetters(calls: seq<CondCall>) returns (attr: CondAttr, r: Outcome<()>)
    ensures r.Returned? <==> SharedInRange(calls)
    ensures r.Returned? ==> ClockIn(attr.word) == LastClock(calls) && SharedIn(attr.word) == LastShared(calls)
  {
    attr := new CondAttr();
    for i := 0 to |calls|
      invariant fresh(attr) && SharedInRange(calls[..i])
      invariant ClockIn(attr.word) == LastClock(calls[..i]) && SharedIn(attr.word) == LastShared(calls[..i])
    {
      assert calls[..i + 1][..i] == calls[..i];
      match calls[i]
      case SetClock(id) => var _ := attr.PutClock(id);
      case SetShared(shared) =>
        var ok := attr.PutShared(shared);
        if ok.Aborted? { r := Aborted; return; }
    }
    assert calls[..|calls|] == calls;
    r := Returned(());
  }

  /** The getters after any setter calls. */
  method CondSetThenGet(calls: seq<CondCall>) returns (r: Outcome<(bv32, bv32)>)
    ensures r == if SharedInRange(calls) then Returned((LastClock(calls), LastShared(calls))) else Aborted
  {
    var attr, done := RunCondSetters(calls);
    if done.Aborted? { return Aborted; }
    var clock := attr.GetClock();
    var shared := attr.GetShared();
    r := Returned((clock, shared));
  }

  /** Any calls on a new condition attribute, and then cond_init: the native library gets the clock last
      accepted and the sharing last set. */
  method CondSetThenInit(calls: seq<CondCall>) returns (r: Outcome<NativeCondAttr>)
    ensures r.Returned? <==> SharedInRange(calls)
    ensures r.Returned? ==> (r.value.clock.Monotonic? <==> LastClock(calls) == 1)
    ensures r.Returned? ==> (r.value.pshared.ProcessShared? <==> LastShared(calls) == 1)
  {
    var attr, done := RunCondSetters(calls);
    if done.Aborted? { return Aborted; }
    var n := NativeCondAttrOf(attr);
    r := Returned(n);
  }

  class BarrierAttr {
    var word: bv32

    constructor ()
      ensures Shared() == PRIVATE
    {
      word := 0;
    }

    /** shim_pthread_barrierattr_getpshared_impl */
    function Shared(): bv32
      reads this
    {
      if word & BARRIERATTR_SHARED != 0 then SHARED else PRIVATE
    }

    /** shim_pthread_barrierattr_setpshared_impl */
    method PutShared(shared: bv32) returns (r: Outcome<int>)
      modifies this
      ensures r == if shared == PRIVATE || shared == SHARED then Returned(0) else Aborted
      ensures Shared() == if r.Returned? then shared else old(Shared())
    {
      if !(shared == PRIVATE || shared == SHARED) { return Aborted; }
      if shared == SHARED {
        word := word | BARRIERATTR_SHARED;
      } else {
        word := word & !BARRIERATTR_SHARED;
      }
      r := Returned(0);
    }

    /** The attribute shim_pthread_barrier_init_impl hands over. */
    method NativeSharedFor() returns (n: NativeShared)
      ensures Some(n) == NativeSharedOf(Shared())
    {
      n := if word & BARRIERATTR_SHARED != 0 then ProcessShared else ProcessPrivate;
    }
  }

  /** Any setter calls on a new barrier attribute, and then the getter and barrier_init: the process ends exactly when a
      value is out of range; otherwise both have the value last set, or private. */
  method BarrierSetThenInit(calls: seq<bv32>) returns (r: Outcome<(bv32, NativeShared)>)
    ensures r.Returned? <==> forall i :: 0 <= i < |calls| ==> calls[i] <= 1
    ensures r.Returned? ==>
      var last := if calls == [] then 0 else calls[|calls| - 1];
      r.value.0 == last && (r.value.1.ProcessShared? <==> last == 1)
  {
    var attr := new BarrierAttr();
    for i := 0 to |calls|
      invariant fresh(attr) && forall k :: 0 <= k < i ==> calls[k] <= 1
      invariant attr.Shared() == if i == 0 then PRIVATE else calls[i - 1]
    {
      var ok := attr.PutShared(calls[i]);
      if ok.Aborted? { return Aborted; }
    }
    var native := attr.NativeSharedFor();
    r := Returned((attr.Shared(), native));
  }
}
