/** sigaction (src/libc/signal.c): dispositions are set and read in Linux's structure and kept in the native
    library's. A bv32 is the 32 bits of an int of flags. */
module Sigaction {
  import opened Flags
  import opened Wrappers

  const SIGABRT := 6
  const SIGBUS := 7
  const SIGSEGV := 11
  const SIGPWR := 30
  const SIGSYS := 31
  /** FreeBSD's real-time signals */
  const SIGRTMIN := 65
  const SIGRTMAX := 126

  const SIG_DFL := 0

  const LINUX_MASK_SIZE := 128
  const NATIVE_MASK_SIZE := 16

  /** linux_to_freebsd_signo; None is its -1. */
  function NativeSignal(sig: int): Option<int> {
    if (0 <= sig < 7) || (7 < sig < 10) || sig == 11 || (12 < sig < 17) || (20 < sig < 23) || (23 < sig < 29)
       || (SIGRTMIN <= sig <= SIGRTMAX) then Some(sig)
    else if sig == SIGPWR then Some(30)
    else None
  }

  predicate Protected(sig: int) { sig == SIGABRT || sig == SIGSEGV || sig == SIGBUS || sig == SIGSYS }

  /** The signals whose disposition the program can change. */
  predicate Supported(sig: int) { NativeSignal(sig).Some? && !Protected(sig) }

  /** They are these; the others either answer as if they had been set, or are refused. */
  lemma SupportedAre(sig: int)
    ensures Supported(sig) <==>
      sig in {0, 1, 2, 3, 4, 5, 8, 9, 13, 14, 15, 16, 21, 22, 24, 25, 26, 27, 28, 30} || 65 <= sig <= 126
    ensures NativeSignal(sig) == if Supported(sig) || sig in {6, 11} then Some(sig) else None
    ensures Protected(sig) <==> sig in {6, 7, 11, 31}
  {
  }

  const LINUX_NOCLDSTOP: bv32 := 0x1
  const LINUX_NOCLDWAIT: bv32 := 0x2
  const LINUX_SIGINFO: bv32 := 0x4
  const LINUX_ONSTACK: bv32 := 0x0800_0000
  const LINUX_RESTART: bv32 := 0x1000_0000
  const LINUX_NODEFER: bv32 := 0x4000_0000
  const LINUX_RESETHAND: bv32 := 0x8000_0000
  const KNOWN_LINUX_FLAGS: bv32 := 0xd800_0007

  const SA_ONSTACK: bv32 := 0x1
  const SA_RESTART: bv32 := 0x2
  const SA_RESETHAND: bv32 := 0x4
  const SA_NOCLDSTOP: bv32 := 0x8
  const SA_NODEFER: bv32 := 0x10
  const SA_NOCLDWAIT: bv32 := 0x20
  const SA_SIGINFO: bv32 := 0x40
  const KNOWN_NATIVE_FLAGS: bv32 := 0x7f

  /** linux_to_freebsd_sigaction_flags behind its assertion */
  function NativeFlags(flags: bv32): bv32 {
    Flag(flags, LINUX_NOCLDSTOP, SA_NOCLDSTOP) | Flag(flags, LINUX_NOCLDWAIT, SA_NOCLDWAIT)
    | Flag(flags, LINUX_SIGINFO, SA_SIGINFO) | Flag(flags, LINUX_ONSTACK, SA_ONSTACK)
    | Flag(flags, LINUX_RESTART, SA_RESTART) | Flag(flags, LINUX_NODEFER, SA_NODEFER)
    | Flag(flags, LINUX_RESETHAND, SA_RESETHAND)
  }

  /** freebsd_to_linux_sigaction_flags behind its assertion */
  function LinuxFlags(flags: bv32): bv32 {
    Flag(flags, SA_NOCLDSTOP, LINUX_NOCLDSTOP) | Flag(flags, SA_NOCLDWAIT, LINUX_NOCLDWAIT)
    | Flag(flags, SA_SIGINFO, LINUX_SIGINFO) | Flag(flags, SA_ONSTACK, LINUX_ONSTACK)
    | Flag(flags, SA_RESTART, LINUX_RESTART) | Flag(flags, SA_NODEFER, LINUX_NODEFER)
    | Flag(flags, SA_RESETHAND, LINUX_RESETHAND)
  }

  predicate KnownLinux(flags: bv32) { flags & !KNOWN_LINUX_FLAGS == 0 }

  predicate KnownNative(flags: bv32) { flags & !KNOWN_NATIVE_FLAGS == 0 }

  /** The same flags, by their numbers on both sides. */
  predicate SameFlags(linux: bv32, native: bv32) {
    && (linux & 0x1 != 0 <==> native & 0x8 != 0) && (linux & 0x2 != 0 <==> native & 0x20 != 0)
    && (linux & 0x4 != 0 <==> native & 0x40 != 0) && (linux & 0x0800_0000 != 0 <==> native & 0x1 != 0)
    && (linux & 0x1000_0000 != 0 <==> native & 0x2 != 0) && (linux & 0x4000_0000 != 0 <==> native & 0x10 != 0)
    && (linux & 0x8000_0000 != 0 <==> native & 0x4 != 0)
  }

  /** Each flag is set with its counterpart, in both directions. */
  lemma NativeFlagsAreSame(flags: bv32)
    ensures SameFlags(flags, NativeFlags(flags))
  {
  }

  lemma LinuxFlagsAreSame(flags: bv32)
    ensures SameFlags(LinuxFlags(flags), flags)
  {
  }

  /** The assertions accept these flags and no others. */
  lemma KnownFlagsAre(flags: bv32)
    ensures KnownLinux(flags) <==> flags & 0x27ff_fff8 == 0
    ensures KnownNative(flags) <==> flags & 0xffff_ff80 == 0
  {
  }

  /** The two flag maps are inverse to each other on the flags they accept. */
  lemma FlagsInvert(flags: bv32)
    ensures KnownLinux(flags) ==> KnownNative(NativeFlags(flags)) && LinuxFlags(NativeFlags(flags)) == flags
    ensures KnownNative(flags) ==> KnownLinux(LinuxFlags(flags)) && NativeFlags(LinuxFlags(flags)) == flags
  {
  }

  type Bytes = seq<bv8>

  /** The native struct sigaction. */
  datatype Action = Action(handler: int, mask: Bytes, flags: bv32)

  const EMPTY_MASK: Bytes := [0, 0, 0, 0, 0, 0, 0, 0, 0, 0, 0, 0, 0, 0, 0, 0]
  const DEFAULT_ACTION := Action(0, EMPTY_MASK, 0)

  predicate ValidAction(a: Action) { |a.mask| == NATIVE_MASK_SIZE && KnownNative(a.flags) }

  /** The native library's table. Which actions it refuses is its own business. */
  class Native {
    var table: map<int, Action>
    const refuses: (int, Option<Action>) -> bool

    constructor (refuses: (int, Option<Action>) -> bool)
      ensures table == map[] && this.refuses == refuses
    {
      this.table, this.refuses := map[], refuses;
    }

    function Disposition(sig: int): Action
      reads this
    {
      if sig in table then table[sig] else DEFAULT_ACTION
    }

    /** sigaction: gives the old action, and sets the new one if there is one. */
    method Sigaction(sig: int, act: Option<Action>) returns (err: int, oact: Action)
      modifies this
      ensures err == if refuses(sig, act) then -1 else 0
      ensures oact == old(Disposition(sig))
      ensures table == if err == 0 && act.Some? then old(table)[sig := act.value] else old(table)
    {
      oact := Disposition(sig);
      if refuses(sig, act) { return -1, oact; }
      if act.Some? { table := table[sig := act.value]; }
      err := 0;
    }
  }

  /** struct linux_sigaction */
  class LinuxSigaction {
    var handler: int
    var mask: Bytes
    var flags: bv32

    constructor (handler: int, mask: Bytes, flags: bv32)
      ensures this.handler == handler && this.mask == mask && this.flags == flags
    {
      this.handler, this.mask, this.flags := handler, mask, flags;
    }

    predicate Valid()
      reads this
    {
      |mask| == 128
    }

    /** What the native library is told by it: the mask only as far as the native one goes. */
    function Told(): Action
      requires Valid()
      reads this
    {
      Action(handler, mask[..NATIVE_MASK_SIZE], NativeFlags(flags))
    }

    /** native_to_linux_sigaction */
    method Fill(src: Action) returns (r: Outcome<()>)
      requires Valid() && |src.mask| == NATIVE_MASK_SIZE
      modifies this
      ensures Valid() && (r.Returned? <==> KnownNative(src.flags))
      ensures r.Returned? ==> Told() == src && KnownLinux(flags) && mask[NATIVE_MASK_SIZE..] == old(mask[NATIVE_MASK_SIZE..])
    {
      handler := src.handler;
      mask := src.mask + mask[NATIVE_MASK_SIZE..];
      if !KnownNative(src.flags) { return Aborted; }
      flags := LinuxFlags(src.flags);
      FlagsInvert(src.flags);
      r := Returned(());
    }
  }

  ghost predicate TableValid(table: map<int, Action>) {
    forall sig :: sig in table ==> Supported(sig) && ValidAction(table[sig])
  }

  /** shim_sigaction_impl. act and oact may be the same structure. */
  method Sigaction(native: Native, sig: int, act: LinuxSigaction?, oact: LinuxSigaction?) returns (r: Outcome<int>)
    requires TableValid(native.table)
    requires (act != null ==> act.Valid()) && (oact != null ==> oact.Valid())
    modifies native, if oact == null then {} else {oact}
    ensures TableValid(native.table) && (oact != null ==> oact.Valid())
    ensures r.Aborted? <==> Supported(sig) && act != null && !KnownLinux(old(act.flags))
    ensures r.Returned? && Protected(sig) ==> r.value == 0
    ensures r.Returned? && !Protected(sig) && !Supported(sig) ==> r.value == -1
    ensures r.Returned? && Supported(sig) ==>
      var told := if act == null then None else Some(old(act.Told()));
      r.value == if (act == null && oact == null) || native.refuses(sig, told) then -1 else 0
    ensures native.table == if r == Returned(0) && Supported(sig) && act != null then old(native.table)[sig := old(act.Told())]
                            else old(native.table)
    ensures r == Returned(0) && oact != null ==>
      && oact.Told() == (if Protected(sig) then DEFAULT_ACTION else old(native.Disposition(sig)))
      && oact.mask[NATIVE_MASK_SIZE..] == old(oact.mask[NATIVE_MASK_SIZE..])
      && KnownLinux(oact.flags)
  {
    if sig == SIGABRT || sig == SIGSEGV || sig == SIGBUS || sig == SIGSYS {
      if oact != null { SetDefault(oact); }
      return Returned(0);
    }
    var s := NativeSignal(sig);
    if s.None? { return Returned(-1); }
    var told := None;
    if act != null {
      if !KnownLinux(act.flags) { return Aborted; }
      FlagsInvert(act.flags);
      told := Some(act.Told());
    } else if oact == null {
      return Returned(-1);
    }
    var err, old' := native.Sigaction(s.value, told);
    if err != -1 && oact != null {
      var filled := oact.Fill(old');
      assert filled.Returned?;
    }
    r := Returned(err);
  }

  /** The answer for a protected signal. */
  method SetDefault(oact: LinuxSigaction)
    requires oact.Valid()
    modifies oact
    ensures oact.Valid() && oact.Told() == DEFAULT_ACTION && KnownLinux(oact.flags)
    ensures oact.mask[NATIVE_MASK_SIZE..] == old(oact.mask[NATIVE_MASK_SIZE..])
  {
    oact.handler := SIG_DFL;
    oact.mask := EMPTY_MASK + oact.mask[NATIVE_MASK_SIZE..];
    oact.flags := 0;
    assert NativeFlags(0) == 0;
  }

  // ----- Every run

  /** One call: what act held, if it was given, and whether oact was. */
  datatype Call = Call(sig: int, act: Option<LinuxAction>, wantsOld: bool)

  datatype LinuxAction = LinuxAction(handler: int, mask: Bytes, flags: bv32)

  predicate ValidCalls(calls: seq<Call>) {
    forall i :: 0 <= i < |calls| && calls[i].act.Some? ==> |calls[i].act.value.mask| == LINUX_MASK_SIZE
  }

  /** The part of an action the native library keeps, in Linux terms. */
  function Visible(a: LinuxAction): LinuxAction
    requires |a.mask| >= NATIVE_MASK_SIZE
  {
    a.(mask := a.mask[..NATIVE_MASK_SIZE])
  }

  const DEFAULT_LINUX := LinuxAction(0, EMPTY_MASK, 0)

  /** What a call returned and read. */
  datatype Answer = Answer(err: int, read: Option<LinuxAction>)

  /** What the last successful call that set a signal set it to. */
  function LastSet(calls: seq<Call>, answers: seq<Answer>, sig: int): LinuxAction
    requires |calls| == |answers| && ValidCalls(calls)
    decreases |calls|
  {
    if calls == [] then DEFAULT_LINUX
    else
      var call, answer := calls[|calls| - 1], answers[|calls| - 1];
      if call.sig == sig && call.act.Some? && answer.err == 0 then Visible(call.act.value)
      else LastSet(calls[..|calls| - 1], answers[..|calls| - 1], sig)
  }

  /** What a call reads: the default for a protected signal, otherwise what was last set. */
  ghost predicate ReadsLast(calls: seq<Call>, answers: seq<Answer>, i: nat)
    requires i < |answers| <= |calls| && ValidCalls(calls)
  {
    calls[i].wantsOld && answers[i].err == 0 ==>
      answers[i].read == Some(if Protected(calls[i].sig) then DEFAULT_LINUX else LastSet(calls[..i], answers[..i], calls[i].sig))
  }

  /** The native action is what the Linux one asks for. */
  predicate Stores(a: Action, last: LinuxAction) {
    && |last.mask| == NATIVE_MASK_SIZE && KnownLinux(last.flags)
    && a.handler == last.handler && a.mask == last.mask && a.flags == NativeFlags(last.flags)
  }

  /** The table holds the last set of every supported signal. */
  ghost predicate Remembers(native: Native, calls: seq<Call>, answers: seq<Answer>)
    requires |calls| == |answers| && ValidCalls(calls)
    reads native
  {
    && TableValid(native.table)
    && forall sig :: Supported(sig) ==> Stores(native.Disposition(sig), LastSet(calls, answers, sig))
  }

  predicate BadFlags(call: Call) { Supported(call.sig) && call.act.Some? && !KnownLinux(call.act.value.flags) }

  /** One call of a run, with structures of its own. */
  method DoCall(native: Native, call: Call, ghost calls: seq<Call>, ghost answers: seq<Answer>) returns (r: Outcome<Answer>)
    requires |calls| == |answers| && ValidCalls(calls + [call]) && ValidCalls(calls) && Remembers(native, calls, answers)
    modifies native
    ensures TableValid(native.table) && (r.Aborted? <==> BadFlags(call))
    ensures r.Returned? ==> Remembers(native, calls + [call], answers + [r.value])
    ensures r.Returned? && r.value.err == 0 && call.wantsOld ==>
      r.value.read == Some(if Protected(call.sig) then DEFAULT_LINUX else LastSet(calls, answers, call.sig))
  {
    assert LinuxFlags(0) == 0;
    hide NativeFlags, LinuxFlags, KnownLinux, KnownNative;
    var act: LinuxSigaction? := null;
    if call.act.Some? {
      assert call == (calls + [call])[|calls|];
      act := new LinuxSigaction(call.act.value.handler, call.act.value.mask, call.act.value.flags);
    }
    var oact: LinuxSigaction? := null;
    if call.wantsOld { oact := new LinuxSigaction(0, seq(LINUX_MASK_SIZE, _ => 0xaa), 0); }
    var err := Sigaction(native, call.sig, act, oact);
    if err.Aborted? { return Aborted; }
    var answer := Answer(err.value, None);
    if oact != null {
      answer := answer.(read := Some(LinuxAction(oact.handler, oact.mask[..NATIVE_MASK_SIZE], oact.flags)));
    }
    r := Returned(answer);
    FlagsInvertEverywhere();
    assert (calls + [call])[..|calls|] == calls && (answers + [answer])[..|answers|] == answers;
  }

  lemma FlagsInvertEverywhere()
    ensures forall flags :: KnownLinux(flags) ==> LinuxFlags(NativeFlags(flags)) == flags
  {
  }

  /** Every run of sigaction from the initial table: it ends early exactly at a set of a supported signal with
      unknown flags; every successful query reads the default for a protected signal and otherwise what was
      last set successfully; and the native table has no entry for a protected or unsupported signal. */
  method Run(native: Native, calls: seq<Call>) returns (answers: seq<Answer>)
    requires ValidCalls(calls) && native.table == map[]
    modifies native
    ensures |answers| <= |calls|
    ensures forall i :: 0 <= i < |answers| ==> !BadFlags(calls[i]) && ReadsLast(calls, answers, i)
    ensures |answers| < |calls| ==> BadFlags(calls[|answers|])
    ensures forall sig :: sig in native.table ==> Supported(sig)
  {
    answers := [];
    while |answers| < |calls|
      invariant |answers| <= |calls|
      invariant forall i :: 0 <= i < |answers| ==> !BadFlags(calls[i]) && ReadsLast(calls, answers, i)
      invariant Remembers(native, calls[..|answers|], answers)
    {
      ghost var n, before := |answers|, answers;
      assert calls[..n] + [calls[n]] == calls[..n + 1];
      var answer := DoCall(native, calls[|answers|], calls[..n], answers);
      if answer.Aborted? { return; }
      answers := answers + [answer.value];
      forall i | 0 <= i < |answers| ensures ReadsLast(calls, answers, i) {
        assert answers[..i] == before[..i];
        if i < n { assert ReadsLast(calls, before, i); } else { assert before[..n] == before; }
      }
    }
  }
}
