/** Translation of ancillary data (src/libc/sys/socket.c) on amd64: a control buffer holds records of
    variable length, aligned to eight bytes, each a header and a payload. The Linux header is a 64-bit
    length, a level and a type; the FreeBSD header has a 32-bit length. Both are padded to 16 bytes, and the
    walk over a buffer uses the FreeBSD macros for both. The record format is that of section 20 of RFC 3542. */
module Ancillary {
  import opened Wrappers
  import opened Bytes

  const LINUX_SOL_IP: nat := 0
  const LINUX_SOL_SOCKET: nat := 1
  const LINUX_SOL_TCP: nat := 6
  const LINUX_SOL_UDP: nat := 17
  const LINUX_SCM_RIGHTS: nat := 1
  const LINUX_IP_TOS: nat := 1

  const IPPROTO_IP: nat := 0
  const IPPROTO_TCP: nat := 6
  const IPPROTO_UDP: nat := 17
  const SOL_SOCKET: nat := 0xffff
  const SCM_RIGHTS: nat := 1
  const IP_RECVTOS: nat := 68

  /** sizeof(struct cmsghdr), and _ALIGN of the size of either header. */
  const NATIVE_HEADER: nat := 12
  const HEADER: nat := 16

  function Align(n: nat): nat { (n + 7) / 8 * 8 }

  /** _ALIGN is the next multiple of 8; the data of a record begins at the same place in both layouts, as the static
      assertion says. */
  lemma LayoutOfAmd64(n: nat)
    ensures n <= Align(n) < n + 8 && Align(n) % 8 == 0
    ensures HEADER == Align(HeaderSize(Linux)) == Align(HeaderSize(Native))
    ensures HeaderSize(Linux) == 16 && HeaderSize(Native) == 12
    ensures FirstHeader(n).Some? <==> n >= 12
  {
  }

  /** linux_to_native_sock_level; None is its PANIC branch. */
  function LinuxToNativeLevel(level: nat): Option<nat> {
    if level == LINUX_SOL_SOCKET then Some(SOL_SOCKET)
    else if level == LINUX_SOL_IP then Some(IPPROTO_IP)
    else if level == LINUX_SOL_TCP then Some(IPPROTO_TCP)
    else if level == LINUX_SOL_UDP then Some(IPPROTO_UDP)
    else None
  }

  function NativeToLinuxLevel(level: nat): Option<nat> {
    if level == SOL_SOCKET then Some(LINUX_SOL_SOCKET)
    else if level == IPPROTO_IP then Some(LINUX_SOL_IP)
    else if level == IPPROTO_TCP then Some(LINUX_SOL_TCP)
    else if level == IPPROTO_UDP then Some(LINUX_SOL_UDP)
    else None
  }

  datatype Layout = Linux | Native

  datatype Record = Record(off: nat, len: nat, level: nat, kind: nat, payload: seq<byte>)

  // ----- The walk over a control buffer

  /** CMSG_FIRSTHDR, as an offset. */
  function FirstHeader(controllen: nat): Option<nat> {
    if controllen >= NATIVE_HEADER then Some(0) else None
  }

  /** CMSG_NXTHDR: it reads the 32-bit length, whichever layout the buffer has. */
  function NextHeader(buf: seq<byte>, controllen: nat, off: nat): Option<nat>
    requires off + 4 <= |buf|
  {
    var next := off + Align(Read32(buf, off));
    if next + HEADER > controllen then None else Some(next)
  }

  /** sizeof(struct linux_cmsghdr) and sizeof(struct cmsghdr) */
  function HeaderSize(layout: Layout): nat { if layout == Linux then HEADER else NATIVE_HEADER }

  function LengthAt(layout: Layout, buf: seq<byte>, off: nat): nat
    requires off + HeaderSize(layout) <= |buf|
  {
    if layout == Linux then Read64(buf, off) else Read32(buf, off)
  }

  function LevelAt(layout: Layout, buf: seq<byte>, off: nat): nat
    requires off + HeaderSize(layout) <= |buf|
  {
    if layout == Linux then Read32(buf, off + 8) else Read32(buf, off + 4)
  }

  function KindAt(layout: Layout, buf: seq<byte>, off: nat): nat
    requires off + HeaderSize(layout) <= |buf|
  {
    if layout == Linux then Read32(buf, off + 12) else Read32(buf, off + 8)
  }

  /** The record at off fits and is longer than its header; so is the next one, if the walk goes on. */
  ghost predicate WellFormedFrom(layout: Layout, buf: seq<byte>, controllen: nat, off: nat)
    decreases controllen - off
  {
    && off + HEADER <= controllen <= |buf|
    && var len := LengthAt(layout, buf, off);
       && HEADER <= len < WORD && off + len <= controllen
       && (off + Align(len) + HEADER <= controllen ==> WellFormedFrom(layout, buf, controllen, off + Align(len)))
  }

  ghost predicate WellFormed(layout: Layout, buf: seq<byte>, controllen: nat) {
    controllen <= |buf| && (FirstHeader(controllen).Some? ==> WellFormedFrom(layout, buf, controllen, 0))
  }

  ghost function RecordAt(layout: Layout, buf: seq<byte>, off: nat): Record
    requires off + HEADER <= |buf| && HEADER <= LengthAt(layout, buf, off) && off + LengthAt(layout, buf, off) <= |buf|
  {
    var len := LengthAt(layout, buf, off);
    Record(off, len, LevelAt(layout, buf, off), KindAt(layout, buf, off), buf[off + HEADER..off + len])
  }

  /** The records the walk visits from off on. */
  ghost function RecordsFrom(layout: Layout, buf: seq<byte>, controllen: nat, off: nat): seq<Record>
    requires WellFormedFrom(layout, buf, controllen, off)
    decreases controllen - off
  {
    var rec := RecordAt(layout, buf, off);
    [rec] + (if off + Align(rec.len) + HEADER <= controllen
             then RecordsFrom(layout, buf, controllen, off + Align(rec.len)) else [])
  }

  ghost function Records(layout: Layout, buf: seq<byte>, controllen: nat): seq<Record>
    requires WellFormed(layout, buf, controllen)
  {
    if FirstHeader(controllen).Some? then RecordsFrom(layout, buf, controllen, 0) else []
  }

  // ----- What the translation means

  /** The translated level and type; None where the source asserts or PANICs. */
  function TranslateHeader(from: Layout, level: nat, kind: nat): Option<(nat, nat)> {
    match from
    case Linux =>
      if kind != LINUX_SCM_RIGHTS || LinuxToNativeLevel(level).None? then None
      else Some((LinuxToNativeLevel(level).value, SCM_RIGHTS))
    case Native =>
      if NativeToLinuxLevel(level).None? then None
      else if kind == SCM_RIGHTS then Some((NativeToLinuxLevel(level).value, LINUX_SCM_RIGHTS))
      else if level == IPPROTO_IP && kind == IP_RECVTOS then Some((NativeToLinuxLevel(level).value, LINUX_IP_TOS))
      else None
  }

  predicate Known(from: Layout, rec: Record) { TranslateHeader(from, rec.level, rec.kind).Some? }

  /** The record with its level and type translated: same offset, same length, same payload. */
  function Translate(from: Layout, rec: Record): Record
    requires Known(from, rec)
  {
    var (level, kind) := TranslateHeader(from, rec.level, rec.kind).value;
    rec.(level := level, kind := kind)
  }

  /** A level and its translation: SOL_SOCKET is 1 for Linux and 0xffff for FreeBSD; those of IP, TCP and UDP have the
      same numbers. */
  predicate SameLevel(linux: nat, native: nat) {
    (linux == 1 && native == 0xffff) || (linux == native && linux in {0, 6, 17})
  }

  /** Both sides of a translation by their numbers: from Linux only type 1 is taken over, which is SCM_RIGHTS on both
      sides; from FreeBSD also type 68 at level 0, which Linux is told of as type 1. */
  predicate Carries(from: Layout, rec: Record, written: Record) {
    && written.off == rec.off && written.len == rec.len && written.payload == rec.payload
    && written.kind == 1
    && match from
       case Linux => SameLevel(rec.level, written.level) && rec.kind == 1
       case Native => SameLevel(written.level, rec.level) && (rec.kind == 1 || (rec.level == 0 && rec.kind == 68))
  }

  ghost predicate AllCarried(from: Layout, recs: seq<Record>, written: seq<Record>) {
    |written| == |recs| && forall k :: 0 <= k < |recs| ==> Carries(from, recs[k], written[k])
  }

  /** Which records are known, and what is written for them. */
  lemma TranslateCarries(from: Layout, rec: Record)
    ensures Known(from, rec) ==> Carries(from, rec, Translate(from, rec))
    ensures Known(from, rec) <==>
      match from
      case Linux => rec.level in {0, 1, 6, 17} && rec.kind == 1
      case Native => rec.level in {0, 0xffff, 6, 17} && (rec.kind == 1 || (rec.level == 0 && rec.kind == 68))
  {
  }

  lemma TranslateAllCarries(from: Layout, recs: seq<Record>)
    requires AllKnown(from, recs)
    ensures AllCarried(from, recs, TranslateAll(from, recs))
  {
    forall k | 0 <= k < |recs| ensures Carries(from, recs[k], TranslateAll(from, recs)[k]) { TranslateCarries(from, recs[k]); }
  }

  ghost function TranslateAll(from: Layout, recs: seq<Record>): (r: seq<Record>)
    requires AllKnown(from, recs)
  {
    seq(|recs|, k requires 0 <= k < |recs| => Translate(from, recs[k]))
  }

  ghost predicate AllKnown(from: Layout, recs: seq<Record>) {
    forall k :: 0 <= k < |recs| ==> Known(from, recs[k])
  }

  /** The assertions and PANICs of the loop let the header pass. */
  predicate HeaderKnown(layout: Layout, buf: seq<byte>, off: nat)
    requires off + HeaderSize(layout) <= |buf|
  {
    TranslateHeader(layout, LevelAt(layout, buf, off), KindAt(layout, buf, off)).Some?
  }

  /** The length of the record at off covers its header, and ends inside the buffer. */
  ghost predicate Fits(layout: Layout, buf: seq<byte>, controllen: nat, off: nat)
    requires controllen <= |buf|
  {
    off + HEADER <= controllen && HEADER <= LengthAt(layout, buf, off) < WORD && off + LengthAt(layout, buf, off) <= controllen
  }

  /** The header at off can be read, and unless it is one that ends the process, its record fits and the walk goes
      on safely. Nothing is asked of what lies behind a header that ends the process. */
  ghost predicate SafeFrom(layout: Layout, buf: seq<byte>, controllen: nat, off: nat)
    decreases controllen - off
  {
    && controllen <= |buf| && off + HeaderSize(layout) <= controllen
    && (HeaderKnown(layout, buf, off) ==>
          && Fits(layout, buf, controllen, off)
          && var next := off + Align(LengthAt(layout, buf, off));
             next + HEADER <= controllen ==> SafeFrom(layout, buf, controllen, next))
  }

  ghost predicate Safe(layout: Layout, buf: seq<byte>, controllen: nat) {
    controllen <= |buf| && (FirstHeader(controllen).Some? ==> SafeFrom(layout, buf, controllen, 0))
  }

  /** The walk from off on meets only records that fit and are known. */
  ghost predicate TranslatableFrom(layout: Layout, buf: seq<byte>, controllen: nat, off: nat)
    decreases controllen - off
  {
    && controllen <= |buf| && off + HeaderSize(layout) <= controllen
    && HeaderKnown(layout, buf, off) && Fits(layout, buf, controllen, off)
    && var next := off + Align(LengthAt(layout, buf, off));
       next + HEADER <= controllen ==> TranslatableFrom(layout, buf, controllen, next)
  }

  /** The buffer is well-formed, and every record has a known level and type. */
  ghost predicate Translatable(layout: Layout, buf: seq<byte>, controllen: nat) {
    WellFormed(layout, buf, controllen) && AllKnown(layout, Records(layout, buf, controllen))
  }

  /** The record written at its place in dst is the translation of rec. */
  ghost predicate Written(from: Layout, to: Layout, dst: seq<byte>, rec: Record) {
    && Known(from, rec) && HEADER <= rec.len && rec.off + rec.len <= |dst|
    && LengthAt(to, dst, rec.off) == rec.len
    && RecordAt(to, dst, rec.off) == Translate(from, rec)
  }

  ghost predicate AllWritten(from: Layout, to: Layout, dst: seq<byte>, recs: seq<Record>) {
    forall k :: 0 <= k < |recs| ==> Written(from, to, dst, recs[k])
  }

  /** A later write damages no earlier record. */
  lemma WrittenSurvives(from: Layout, to: Layout, dst: seq<byte>, dst': seq<byte>, rec: Record, lo: nat, hi: nat)
    requires Written(from, to, dst, rec) && SameOutside(dst, dst', lo, hi) && rec.off + rec.len <= lo
    ensures Written(from, to, dst', rec)
  {
  }

  lemma TranslateAllCons(from: Layout, rec: Record, rest: seq<Record>)
    requires Known(from, rec) && AllKnown(from, rest)
    ensures AllKnown(from, [rec] + rest)
    ensures TranslateAll(from, [rec] + rest) == [Translate(from, rec)] + TranslateAll(from, rest)
  {
  }

  lemma AllWrittenCons(from: Layout, to: Layout, dst: seq<byte>, rec: Record, rest: seq<Record>)
    requires AllWritten(from, to, dst, [rec] + rest)
    ensures Written(from, to, dst, rec) && AllWritten(from, to, dst, rest)
  {
    assert ([rec] + rest)[0] == rec;
    forall k | 0 <= k < |rest| ensures Written(from, to, dst, rest[k]) {
      assert ([rec] + rest)[k + 1] == rest[k];
    }
  }

  /** The records from off on, if the walk goes on at next. */
  ghost function RecordsAfter(layout: Layout, buf: seq<byte>, controllen: nat, next: nat): seq<Record>
    requires next + HEADER <= controllen ==> WellFormedFrom(layout, buf, controllen, next)
  {
    if next + HEADER <= controllen then RecordsFrom(layout, buf, controllen, next) else []
  }

  lemma OneStep(layout: Layout, buf: seq<byte>, controllen: nat, off: nat, len: nat, next: nat)
    requires off + HEADER <= controllen <= |buf| && LengthAt(layout, buf, off) == len && next == off + Align(len)
    requires HEADER <= len < WORD && off + len <= controllen
    requires next + HEADER <= controllen ==> WellFormedFrom(layout, buf, controllen, next)
    ensures WellFormedFrom(layout, buf, controllen, off)
    ensures RecordsFrom(layout, buf, controllen, off) == [RecordAt(layout, buf, off)] + RecordsAfter(layout, buf, controllen, next)
  {
    hide LengthAt, Align, Read32, Read64;
  }

  lemma AllKnownCons(from: Layout, rec: Record, rest: seq<Record>)
    ensures AllKnown(from, [rec] + rest) <==> Known(from, rec) && AllKnown(from, rest)
  {
    if AllKnown(from, [rec] + rest) {
      assert ([rec] + rest)[0] == rec;
      forall k | 0 <= k < |rest| ensures Known(from, rest[k]) { assert ([rec] + rest)[k + 1] == rest[k]; }
    }
  }

  /** Where a record is known and fits, a walk from it is as good as the walk from the next. */
  lemma WalkGoesOn(layout: Layout, buf: seq<byte>, controllen: nat, off: nat, next: nat)
    requires controllen <= |buf| && off + HEADER <= controllen && HeaderKnown(layout, buf, off) && Fits(layout, buf, controllen, off)
    requires next == off + Align(LengthAt(layout, buf, off))
    ensures var goesOn := next + HEADER <= controllen;
      && (SafeFrom(layout, buf, controllen, off) <==> (goesOn ==> SafeFrom(layout, buf, controllen, next)))
      && (TranslatableFrom(layout, buf, controllen, off) <==> (goesOn ==> TranslatableFrom(layout, buf, controllen, next)))
      && (WellFormedFrom(layout, buf, controllen, off) <==> (goesOn ==> WellFormedFrom(layout, buf, controllen, next)))
  {
    hide LengthAt, Align, HeaderKnown;
  }

  ghost predicate WalkIsTold(layout: Layout, buf: seq<byte>, controllen: nat, off: nat) {
    && (TranslatableFrom(layout, buf, controllen, off)
        <==> WellFormedFrom(layout, buf, controllen, off) && AllKnown(layout, RecordsFrom(layout, buf, controllen, off)))
    && (TranslatableFrom(layout, buf, controllen, off) || WellFormedFrom(layout, buf, controllen, off)
        ==> SafeFrom(layout, buf, controllen, off))
  }

  lemma UnknownEndsIt(layout: Layout, buf: seq<byte>, controllen: nat, off: nat)
    requires controllen <= |buf| && off + HeaderSize(layout) <= controllen && !HeaderKnown(layout, buf, off)
    ensures WalkIsTold(layout, buf, controllen, off)
  {
    if WellFormedFrom(layout, buf, controllen, off) {
      var recs := RecordsFrom(layout, buf, controllen, off);
      assert recs[0] == RecordAt(layout, buf, off) && !Known(layout, recs[0]);
    }
    hide RecordsFrom, LengthAt, LevelAt, KindAt, Align, TranslateHeader;
  }

  lemma KnownGoesOn(layout: Layout, buf: seq<byte>, controllen: nat, off: nat, next: nat)
    requires controllen <= |buf| && off + HEADER <= controllen && HeaderKnown(layout, buf, off) && Fits(layout, buf, controllen, off)
    requires next == off + Align(LengthAt(layout, buf, off)) && (next + HEADER <= controllen ==> WalkIsTold(layout, buf, controllen, next))
    ensures WalkIsTold(layout, buf, controllen, off)
  {
    WalkGoesOn(layout, buf, controllen, off, next);
    var rec := RecordAt(layout, buf, off);
    assert Known(layout, rec);
    if next + HEADER <= controllen ==> WellFormedFrom(layout, buf, controllen, next) {
      OneStep(layout, buf, controllen, off, LengthAt(layout, buf, off), next);
      AllKnownCons(layout, rec, RecordsAfter(layout, buf, controllen, next));
      AllKnownCons(layout, rec, []);
      assert [rec] + [] == [rec];
    }
    hide LengthAt, Align, RecordAt, RecordsFrom, TranslatableFrom, WellFormedFrom, SafeFrom, Fits, HeaderKnown, AllKnown, Known;
  }

  lemma {:induction false} TranslatableFromIs(layout: Layout, buf: seq<byte>, controllen: nat, off: nat)
    requires off <= controllen
    ensures WalkIsTold(layout, buf, controllen, off)
    decreases controllen - off
  {
    if controllen <= |buf| && off + HeaderSize(layout) <= controllen {
      if !HeaderKnown(layout, buf, off) {
        UnknownEndsIt(layout, buf, controllen, off);
      } else if Fits(layout, buf, controllen, off) {
        var next := off + Align(LengthAt(layout, buf, off));
        AlignUp(LengthAt(layout, buf, off));
        if next + HEADER <= controllen { TranslatableFromIs(layout, buf, controllen, next); }
        KnownGoesOn(layout, buf, controllen, off, next);
      }
      hide LengthAt, HeaderKnown, Align, AllKnown, RecordsFrom;
    }
  }

  lemma TranslatableIs(layout: Layout, buf: seq<byte>, controllen: nat)
    requires controllen <= |buf|
    ensures Translatable(layout, buf, controllen) <==>
      (FirstHeader(controllen).Some? ==> TranslatableFrom(layout, buf, controllen, 0))
    ensures Translatable(layout, buf, controllen) || WellFormed(layout, buf, controllen) ==> Safe(layout, buf, controllen)
  {
    TranslatableFromIs(layout, buf, controllen, 0);
  }

  /** A buffer that holds the translation of every record of another is walked in the same places. */
  lemma {:induction false} WalkOfWritten(from: Layout, to: Layout, src: seq<byte>, dst: seq<byte>, controllen: nat, off: nat)
    requires WellFormedFrom(from, src, controllen, off) && controllen <= |dst|
    requires AllWritten(from, to, dst, RecordsFrom(from, src, controllen, off))
    ensures WellFormedFrom(to, dst, controllen, off)
    ensures AllKnown(from, RecordsFrom(from, src, controllen, off))
    ensures RecordsFrom(to, dst, controllen, off) == TranslateAll(from, RecordsFrom(from, src, controllen, off))
    decreases controllen - off
  {
    var rec := RecordAt(from, src, off);
    var next := off + Align(rec.len);
    OneStep(from, src, controllen, off, rec.len, next);
    var rest := RecordsAfter(from, src, controllen, next);
    AllWrittenCons(from, to, dst, rec, rest);
    if next + HEADER <= controllen { WalkOfWritten(from, to, src, dst, controllen, next); }
    OneStep(to, dst, controllen, off, rec.len, next);
    TranslateAllCons(from, rec, rest);
  }

  // ----- Writing a record

  /** The two fields of struct msghdr and struct linux_msghdr that describe the control buffer; they are
      at the same offsets in both. */
  class Msghdr {
    var control: array?<byte>
    var controllen: nat

    ghost predicate Valid()
      reads this
    {
      controllen > 0 ==> control != null && controllen <= control.Length
    }

    ghost predicate Holds(layout: Layout)
      requires Valid() && controllen > 0
      reads this, control
    {
      WellFormed(layout, control[..], controllen)
    }

    ghost predicate IsSafe(layout: Layout)
      requires Valid() && controllen > 0
      reads this, control
    {
      Safe(layout, control[..], controllen)
    }

    ghost predicate IsTranslatable(layout: Layout)
      requires Valid() && controllen > 0
      reads this, control
    {
      Translatable(layout, control[..], controllen)
    }

    constructor (control: array?<byte>, controllen: nat)
      ensures this.control == control && this.controllen == controllen
    {
      this.control, this.controllen := control, controllen;
    }
  }

  method WriteNativeHeader(dst: array<byte>, off: nat, len: nat, level: nat, kind: nat)
    requires off + HEADER <= dst.Length && len < WORD && level < WORD && kind < WORD
    modifies dst
    ensures Read32(dst[..], off) == len && Read32(dst[..], off + 4) == level && Read32(dst[..], off + 8) == kind
    ensures SameOutside(old(dst[..]), dst[..], off, off + HEADER)
  {
    Write32(dst, off, len);
    label l1:
    Write32(dst, off + 4, level);
    Read32Frame(old@l1(dst[..]), dst[..], off);
    label l2:
    Write32(dst, off + 8, kind);
    Read32Frame(old@l2(dst[..]), dst[..], off);
    Read32Frame(old@l2(dst[..]), dst[..], off + 4);
  }

  method WriteLinuxHeader(dst: array<byte>, off: nat, len: nat, level: nat, kind: nat)
    requires off + HEADER <= dst.Length && len < WORD && level < WORD && kind < WORD
    modifies dst
    ensures Read64(dst[..], off) == len && Read32(dst[..], off + 8) == level && Read32(dst[..], off + 12) == kind
    ensures SameOutside(old(dst[..]), dst[..], off, off + HEADER)
  {
    Write64(dst, off, len);
    label l1:
    Write32(dst, off + 8, level);
    Read32Frame(old@l1(dst[..]), dst[..], off);
    Read32Frame(old@l1(dst[..]), dst[..], off + 4);
    label l2:
    Write32(dst, off + 12, kind);
    Read32Frame(old@l2(dst[..]), dst[..], off);
    Read32Frame(old@l2(dst[..]), dst[..], off + 4);
    Read32Frame(old@l2(dst[..]), dst[..], off + 8);
  }

  /** A payload copied behind a header leaves the header alone. */
  lemma HeaderSurvives(dst: seq<byte>, dst': seq<byte>, off: nat, hi: nat)
    requires off + HEADER <= |dst| && SameOutside(dst, dst', off + HEADER, hi)
    ensures Read32(dst', off) == Read32(dst, off) && Read32(dst', off + 4) == Read32(dst, off + 4)
    ensures Read32(dst', off + 8) == Read32(dst, off + 8) && Read32(dst', off + 12) == Read32(dst, off + 12)
  {
  }

  /** One round of the loop of linux_to_native_msg_control. */
  method WriteNativeRecord(dst: array<byte>, src: array<byte>, off: nat, header: (nat, nat))
    requires dst != src && off + HEADER <= src.Length && off + HEADER <= dst.Length
    requires var len := LengthAt(Linux, src[..], off);
      HEADER <= len < WORD && off + len <= src.Length && off + len <= dst.Length
    requires var rec := RecordAt(Linux, src[..], off);
      TranslateHeader(Linux, rec.level, rec.kind) == Some(header)
    modifies dst
    ensures Written(Linux, Native, dst[..], RecordAt(Linux, src[..], off))
    ensures SameOutside(old(dst[..]), dst[..], off, off + LengthAt(Linux, src[..], off))
  {
    var len := Read64(src[..], off);
    WriteNativeHeader(dst, off, len, header.0, header.1);
    ghost var headed := dst[..];
    CopyAt(dst, src, off + HEADER, len - HEADER);
    HeaderSurvives(headed, dst[..], off, off + len);
  }

  /** One round of the loop of native_to_linux_msg_control. */
  method WriteLinuxRecord(dst: array<byte>, src: array<byte>, off: nat, header: (nat, nat))
    requires dst != src && off + HEADER <= src.Length && off + HEADER <= dst.Length
    requires var len := LengthAt(Native, src[..], off);
      HEADER <= len < WORD && off + len <= src.Length && off + len <= dst.Length
    requires var rec := RecordAt(Native, src[..], off);
      TranslateHeader(Native, rec.level, rec.kind) == Some(header)
    modifies dst
    ensures Written(Native, Linux, dst[..], RecordAt(Native, src[..], off))
    ensures SameOutside(old(dst[..]), dst[..], off, off + LengthAt(Native, src[..], off))
  {
    var len := Read32(src[..], off);
    WriteLinuxHeader(dst, off, len, header.0, header.1);
    ghost var headed := dst[..];
    CopyAt(dst, src, off + HEADER, len - HEADER);
    HeaderSurvives(headed, dst[..], off, off + len);
  }

  // ----- Progress of a walk

  /** Which part of the walk is done: `done` was visited, the walk goes on at `at`. */
  ghost predicate Visited(from: Layout, src: seq<byte>, controllen: nat, at: Option<nat>, done: seq<Record>) {
    match at
    case None => WellFormed(from, src, controllen) && Records(from, src, controllen) == done
    case Some(off) =>
      && SafeFrom(from, src, controllen, off)
      && (Translatable(from, src, controllen) <==> TranslatableFrom(from, src, controllen, off))
      && (WellFormedFrom(from, src, controllen, off) ==>
            && WellFormed(from, src, controllen)
            && Records(from, src, controllen) == done + RecordsFrom(from, src, controllen, off))
  }

  ghost predicate Behind(done: seq<Record>, off: nat) { forall k :: 0 <= k < |done| ==> done[k].off + done[k].len <= off }

  /** What was visited is written. */
  ghost predicate Progress(from: Layout, to: Layout, src: seq<byte>, dst: seq<byte>, controllen: nat, at: Option<nat>, done: seq<Record>)
  {
    AllWritten(from, to, dst, done) && Visited(from, src, controllen, at, done) && (at.Some? ==> Behind(done, at.value))
  }

  /** The walk reads the low word of the length, which is all of a well-formed length. */
  lemma LowWord(layout: Layout, buf: seq<byte>, off: nat)
    requires off + HEADER <= |buf| && LengthAt(layout, buf, off) < WORD
    ensures Read32(buf, off) == LengthAt(layout, buf, off)
  {
  }

  lemma AlignUp(n: nat)
    ensures n <= Align(n)
  {
  }

  lemma NextIs(layout: Layout, buf: seq<byte>, controllen: nat, off: nat)
    requires off + HEADER <= controllen <= |buf| && HEADER <= LengthAt(layout, buf, off) < WORD
    ensures var next := off + Align(LengthAt(layout, buf, off));
      && next >= off + HEADER
      && NextHeader(buf, controllen, off) == if next + HEADER > controllen then None else Some(next)
  {
    LowWord(layout, buf, off);
    AlignUp(LengthAt(layout, buf, off));
    hide LengthAt, Align, Read32;
  }

  lemma DoneSurvives(from: Layout, to: Layout, dst: seq<byte>, dst': seq<byte>, done: seq<Record>, rec: Record)
    requires AllWritten(from, to, dst, done) && Behind(done, rec.off)
    requires SameOutside(dst, dst', rec.off, rec.off + rec.len) && Written(from, to, dst', rec)
    ensures AllWritten(from, to, dst', done + [rec])
    ensures Behind(done + [rec], rec.off + rec.len)
  {
    forall k | 0 <= k < |done| ensures Written(from, to, dst', done[k]) {
      WrittenSurvives(from, to, dst, dst', done[k], rec.off, rec.off + rec.len);
    }
  }

  lemma ProgressStarts(from: Layout, to: Layout, src: seq<byte>, dst: seq<byte>, controllen: nat)
    requires Safe(from, src, controllen)
    ensures Progress(from, to, src, dst, controllen, FirstHeader(controllen), [])
  {
    TranslatableIs(from, src, controllen);
    if FirstHeader(controllen).Some? && WellFormedFrom(from, src, controllen, 0) {
      assert [] + RecordsFrom(from, src, controllen, 0) == RecordsFrom(from, src, controllen, 0);
    }
  }

  lemma ProgressStep(from: Layout, to: Layout, src: seq<byte>, dst: seq<byte>, dst': seq<byte>, controllen: nat,
      off: nat, done: seq<Record>)
    requires Progress(from, to, src, dst, controllen, Some(off), done)
    requires HeaderKnown(from, src, off)
    requires var rec := RecordAt(from, src, off);
      SameOutside(dst, dst', off, off + rec.len) && Written(from, to, dst', rec)
    ensures Progress(from, to, src, dst', controllen, NextHeader(src, controllen, off), done + [RecordAt(from, src, off)])
    ensures NextHeader(src, controllen, off).Some? ==> off < NextHeader(src, controllen, off).value <= controllen
  {
    var rec := RecordAt(from, src, off);
    NextIs(from, src, controllen, off);
    AlignUp(rec.len);
    DoneSurvives(from, to, dst, dst', done, rec);
    VisitedStep(from, src, controllen, off, done);
    hide Visited, LengthAt, Align, NextHeader, HeaderKnown, Written, AllWritten, SameOutside;
  }

  lemma VisitedStep(from: Layout, src: seq<byte>, controllen: nat, off: nat, done: seq<Record>)
    requires Visited(from, src, controllen, Some(off), done) && HeaderKnown(from, src, off)
    ensures Fits(from, src, controllen, off)
    ensures Visited(from, src, controllen, NextHeader(src, controllen, off), done + [RecordAt(from, src, off)])
  {
    assert Fits(from, src, controllen, off);
    var len := LengthAt(from, src, off);
    var next := off + Align(len);
    NextIs(from, src, controllen, off);
    WalkGoesOn(from, src, controllen, off, next);
    if next + HEADER <= controllen ==> WellFormedFrom(from, src, controllen, next) {
      RecordsStep(from, src, controllen, off, len, next, done);
    }
    hide LengthAt, Align, NextHeader, HeaderKnown, Translatable, WellFormed, Records, RecordsFrom, RecordAt, Fits,
      SafeFrom, TranslatableFrom, WellFormedFrom;
  }

  lemma RecordsStep(layout: Layout, buf: seq<byte>, controllen: nat, off: nat, len: nat, next: nat, done: seq<Record>)
    requires off + HEADER <= controllen <= |buf| && LengthAt(layout, buf, off) == len && next == off + Align(len)
    requires HEADER <= len < WORD && off + len <= controllen
    requires next + HEADER <= controllen ==> WellFormedFrom(layout, buf, controllen, next)
    requires WellFormedFrom(layout, buf, controllen, off) && WellFormed(layout, buf, controllen) ==>
      Records(layout, buf, controllen) == done + RecordsFrom(layout, buf, controllen, off)
    ensures WellFormedFrom(layout, buf, controllen, off)
    ensures WellFormed(layout, buf, controllen) ==>
      Records(layout, buf, controllen) == (done + [RecordAt(layout, buf, off)]) + RecordsAfter(layout, buf, controllen, next)
  {
    OneStep(layout, buf, controllen, off, len, next);
    AppendAssociates(done, RecordAt(layout, buf, off), RecordsAfter(layout, buf, controllen, next));
    hide *;
  }

  lemma AppendAssociates(done: seq<Record>, rec: Record, rest: seq<Record>)
    ensures done + ([rec] + rest) == (done + [rec]) + rest
  {
  }

  lemma ProgressDone(from: Layout, to: Layout, src: seq<byte>, dst: seq<byte>, controllen: nat, done: seq<Record>)
    requires Progress(from, to, src, dst, controllen, None, done) && controllen <= |dst|
    ensures WellFormed(to, dst, controllen) && Translatable(from, src, controllen)
    ensures Records(to, dst, controllen) == TranslateAll(from, Records(from, src, controllen))
    ensures AllCarried(from, Records(from, src, controllen), Records(to, dst, controllen))
  {
    TranslateAllCarries(from, done);
    if FirstHeader(controllen).Some? {
      WalkOfWritten(from, to, src, dst, controllen, 0);
    }
  }

  // ----- The two loops

  /** The loop of linux_to_native_msg_control, over the two control buffers. */
  method TranslateToNative(dst: array<byte>, src: array<byte>, controllen: nat) returns (r: Outcome<()>)
    requires dst != src && controllen <= dst.Length && Safe(Linux, src[..], controllen)
    modifies dst
    ensures r.Returned? <==> Translatable(Linux, src[..], controllen)
    ensures r.Returned? ==>
      && WellFormed(Native, dst[..], controllen)
      && Records(Native, dst[..], controllen) == TranslateAll(Linux, Records(Linux, src[..], controllen))
      && AllCarried(Linux, Records(Linux, src[..], controllen), Records(Native, dst[..], controllen))
  {
    ghost var done: seq<Record> := [];
    var at := FirstHeader(controllen);
    ProgressStarts(Linux, Native, src[..], dst[..], controllen);
    while at.Some?
      invariant Progress(Linux, Native, src[..], dst[..], controllen, at, done)
      decreases if at.Some? then controllen - at.value + 1 else 0
    {
      var off := at.value;
      var header := TranslateHeader(Linux, Read32(src[..], off + 8), Read32(src[..], off + 12));
      if header.None? { return Aborted; }
      ghost var before, rec := dst[..], RecordAt(Linux, src[..], off);
      WriteNativeRecord(dst, src, off, header.value);
      ProgressStep(Linux, Native, src[..], before, dst[..], controllen, off, done);
      done := done + [rec];
      at := NextHeader(src[..], controllen, off);
    }
    ProgressDone(Linux, Native, src[..], dst[..], controllen, done);
    r := Returned(());
  }

  /** The loop of native_to_linux_msg_control. */
  method TranslateToLinux(dst: array<byte>, src: array<byte>, controllen: nat) returns (r: Outcome<()>)
    requires dst != src && controllen <= dst.Length && Safe(Native, src[..], controllen)
    modifies dst
    ensures r.Returned? <==> Translatable(Native, src[..], controllen)
    ensures r.Returned? ==>
      && WellFormed(Linux, dst[..], controllen)
      && Records(Linux, dst[..], controllen) == TranslateAll(Native, Records(Native, src[..], controllen))
      && AllCarried(Native, Records(Native, src[..], controllen), Records(Linux, dst[..], controllen))
  {
    ghost var done: seq<Record> := [];
    var at := FirstHeader(controllen);
    ProgressStarts(Native, Linux, src[..], dst[..], controllen);
    while at.Some?
      invariant Progress(Native, Linux, src[..], dst[..], controllen, at, done)
      decreases if at.Some? then controllen - at.value + 1 else 0
    {
      var off := at.value;
      var header := TranslateHeader(Native, Read32(src[..], off + 4), Read32(src[..], off + 8));
      if header.None? { return Aborted; }
      ghost var before, rec := dst[..], RecordAt(Native, src[..], off);
      WriteLinuxRecord(dst, src, off, header.value);
      ProgressStep(Native, Linux, src[..], before, dst[..], controllen, off, done);
      done := done + [rec];
      at := NextHeader(src[..], controllen, off);
    }
    ProgressDone(Native, Linux, src[..], dst[..], controllen, done);
    r := Returned(());
  }

  /** An abort exactly when the native buffer is too small, a record does not fit, or one has an unknown level or type;
      otherwise the native buffer is walked at the same offsets, over the same lengths and payloads, with the
      levels and types translated. */
  method LinuxToNativeMsgControl(msg: Msghdr, linuxMsg: Msghdr) returns (r: Outcome<()>)
    requires msg != linuxMsg && msg.Valid() && linuxMsg.Valid()
    requires 0 < linuxMsg.controllen <= msg.controllen ==> linuxMsg.IsSafe(Linux) && linuxMsg.control != msg.control
    modifies msg, msg.control
    ensures linuxMsg.controllen == 0 ==> r == Returned(()) && msg.control == null && msg.controllen == 0
    ensures linuxMsg.controllen > 0 ==>
      (r.Aborted? <==> old(msg.controllen) < linuxMsg.controllen || !old(linuxMsg.IsTranslatable(Linux)))
    ensures linuxMsg.controllen > 0 && r.Returned? ==>
      && msg.control == old(msg.control) && msg.controllen == linuxMsg.controllen && msg.Valid() && msg.Holds(Native)
      && linuxMsg.IsTranslatable(Linux)
      && Records(Native, msg.control[..], msg.controllen)
         == TranslateAll(Linux, Records(Linux, linuxMsg.control[..], linuxMsg.controllen))
      && AllCarried(Linux, Records(Linux, linuxMsg.control[..], linuxMsg.controllen),
                    Records(Native, msg.control[..], msg.controllen))
  {
    if linuxMsg.controllen > 0 {
      if msg.controllen < linuxMsg.controllen { return Aborted; }
      msg.controllen := linuxMsg.controllen;
      r := TranslateToNative(msg.control, linuxMsg.control, msg.controllen);
    } else {
      msg.control := null;
      msg.controllen := 0;
      r := Returned(());
    }
  }

  /** The way back, with the same guarantee. */
  method NativeToLinuxMsgControl(linuxMsg: Msghdr, msg: Msghdr) returns (r: Outcome<()>)
    requires msg != linuxMsg && msg.Valid() && linuxMsg.Valid()
    requires 0 < msg.controllen <= linuxMsg.controllen ==> msg.IsSafe(Native) && linuxMsg.control != msg.control
    modifies linuxMsg, linuxMsg.control
    ensures msg.controllen == 0 ==> r == Returned(()) && linuxMsg.control == null && linuxMsg.controllen == 0
    ensures msg.controllen > 0 ==>
      (r.Aborted? <==> old(linuxMsg.controllen) < msg.controllen || !old(msg.IsTranslatable(Native)))
    ensures msg.controllen > 0 && r.Returned? ==>
      && linuxMsg.control == old(linuxMsg.control) && linuxMsg.controllen == msg.controllen
      && linuxMsg.Valid() && linuxMsg.Holds(Linux) && msg.IsTranslatable(Native)
      && Records(Linux, linuxMsg.control[..], linuxMsg.controllen)
         == TranslateAll(Native, Records(Native, msg.control[..], msg.controllen))
      && AllCarried(Native, Records(Native, msg.control[..], msg.controllen),
                    Records(Linux, linuxMsg.control[..], linuxMsg.controllen))
  {
    if msg.controllen > 0 {
      if linuxMsg.controllen < msg.controllen { return Aborted; }
      linuxMsg.controllen := msg.controllen;
      r := TranslateToLinux(linuxMsg.control, msg.control, linuxMsg.controllen);
    } else {
      linuxMsg.control := null;
      linuxMsg.controllen := 0;
      r := Returned(());
    }
  }

  // ----- The buffers of sendmsg and recvmsg

  /** shim_sendmsg_impl up to the native call. The native buffer has the size of the Linux one, but its length is
      kept in 32 bits: the assertion on the sizes fails exactly for a length of 2^32 or more. */
  method SendControl(linuxMsg: Msghdr) returns (r: Outcome<()>, msg: Msghdr)
    requires linuxMsg.Valid()
    requires 0 < linuxMsg.controllen < WORD ==> linuxMsg.IsSafe(Linux)
    ensures r.Aborted? <==> linuxMsg.controllen >= WORD || (linuxMsg.controllen > 0 && !linuxMsg.IsTranslatable(Linux))
    ensures r.Returned? ==> fresh(msg) && msg.Valid() && msg.controllen == linuxMsg.controllen
    ensures r.Returned? && linuxMsg.controllen == 0 ==> msg.control == null
    ensures r.Returned? && linuxMsg.controllen > 0 ==>
      && fresh(msg.control) && msg.Holds(Native)
      && AllCarried(Linux, Records(Linux, linuxMsg.control[..], linuxMsg.controllen),
                    Records(Native, msg.control[..], msg.controllen))
  {
    var control := new byte[linuxMsg.controllen];
    msg := new Msghdr(control, linuxMsg.controllen % WORD);
    r := LinuxToNativeMsgControl(msg, linuxMsg);
  }

  /** shim_recvmsg_impl from the native call on. The call fails (None), or it writes the native buffer and says how much
      of it is in use, which is at most the length it was given. The assertion on the sizes never fails. */
  method ReceiveControl(linuxMsg: Msghdr, answer: Option<(seq<byte>, nat)>) returns (r: Outcome<()>)
    requires linuxMsg.Valid()
    requires answer.Some? ==>
      && |answer.value.0| == linuxMsg.controllen && answer.value.1 <= linuxMsg.controllen % WORD
      && Safe(Native, answer.value.0, answer.value.1)
    modifies linuxMsg, linuxMsg.control
    ensures answer.None? ==>
      && r.Returned? && linuxMsg.control == old(linuxMsg.control) && linuxMsg.controllen == old(linuxMsg.controllen)
      && (linuxMsg.control != null ==> linuxMsg.control[..] == old(linuxMsg.control[..]))
    ensures answer.Some? ==>
      var (filled, received) := answer.value;
      && (r.Aborted? <==> received > 0 && !Translatable(Native, filled, received))
      && (received == 0 ==> linuxMsg.control == null && linuxMsg.controllen == 0)
      && (r.Returned? && received > 0 ==>
            && linuxMsg.control == old(linuxMsg.control) && linuxMsg.controllen == received
            && linuxMsg.Valid() && linuxMsg.Holds(Linux)
            && AllCarried(Native, Records(Native, filled, received), Records(Linux, linuxMsg.control[..], received)))
  {
    if answer.None? { return Returned(()); }
    var (filled, received) := answer.value;
    var control := new byte[linuxMsg.controllen](i requires 0 <= i < |filled| => filled[i]);
    assert control[..] == filled;
    var msg := new Msghdr(control, received);
    r := NativeToLinuxMsgControl(linuxMsg, msg);
  }

  // ----- Round trip

  /** The two level maps are inverse to each other. */
  lemma LevelsInvert(level: nat)
    ensures LinuxToNativeLevel(level).Some? ==> NativeToLinuxLevel(LinuxToNativeLevel(level).value) == Some(level)
    ensures NativeToLinuxLevel(level).Some? ==> LinuxToNativeLevel(NativeToLinuxLevel(level).value) == Some(level)
    ensures forall native: nat :: LinuxToNativeLevel(level) == Some(native) <==> SameLevel(level, native)
  {
  }

  /** Every Linux record comes back from the native side as it was. */
  lemma RecordsSurviveRoundTrip(recs: seq<Record>)
    requires AllKnown(Linux, recs)
    ensures AllKnown(Native, TranslateAll(Linux, recs))
    ensures TranslateAll(Native, TranslateAll(Linux, recs)) == recs
  {
  }

  /** A native record survives the way to Linux and back exactly when it is not the type of service of a
      datagram: the Linux number of that type is the number of SCM_RIGHTS. */
  lemma NativeRecordSurvives(rec: Record)
    requires Known(Native, rec)
    ensures Carries(Native, rec, Translate(Native, rec))
    ensures Known(Linux, Translate(Native, rec)) && (Translate(Linux, Translate(Native, rec)) == rec <==> rec.kind == 1)
  {
  }

  /** Sending a buffer of records that fit and are known through both translations restores every header
      field, every payload byte, every offset and the total length. */
  method RoundTrip(linuxMsg: Msghdr, msg: Msghdr, back: Msghdr) returns (r: Outcome<()>)
    requires msg != linuxMsg && msg != back && back != linuxMsg && msg.Valid() && linuxMsg.Valid() && back.Valid()
    requires linuxMsg.controllen > 0 && linuxMsg.IsSafe(Linux)
    requires linuxMsg.control != msg.control && back.control != msg.control && back.control != linuxMsg.control
    requires msg.controllen >= linuxMsg.controllen && back.controllen >= linuxMsg.controllen
    modifies msg, msg.control, back, back.control
    ensures r.Returned? <==> linuxMsg.IsTranslatable(Linux)
    ensures r.Returned? ==>
      && back.controllen == linuxMsg.controllen && back.Valid() && back.Holds(Linux)
      && Records(Linux, back.control[..], back.controllen) == Records(Linux, linuxMsg.control[..], linuxMsg.controllen)
  {
    r := LinuxToNativeMsgControl(msg, linuxMsg);
    if r.Returned? {
      RecordsSurviveRoundTrip(Records(Linux, linuxMsg.control[..], linuxMsg.controllen));
      TranslatableIs(Native, msg.control[..], msg.controllen);
      r := NativeToLinuxMsgControl(back, msg);
    }
  }

  /** Why a record needs a length: the walk never leaves a header whose length is zero. */
  lemma WalkAdvancesUnlessEmpty(buf: seq<byte>, controllen: nat, off: nat)
    requires off + HEADER <= controllen <= |buf|
    ensures NextHeader(buf, controllen, off) == Some(off) <==> Read32(buf, off) == 0
  {
  }

  // ----- When the loops stay inside the buffers

  const SIZE_RANGE: nat := 0x1_0000_0000_0000_0000

  /** cmsg_len - CMSG_LEN(0), as the size_t it is: a length below the header wraps around. */
  function CopySize(len: nat): int { if len >= HEADER then len - HEADER else len - HEADER + SIZE_RANGE }

  datatype Walk = Finished | OutOfBounds | Stopped | Running

  /** Where a loop is after some rounds, for any contents of the buffer. A round reads the header; its assertions and
      PANICs may end the process; then it writes the 16 bytes of a header, at most, and copies the payload. */
  ghost function WalkFor(layout: Layout, buf: seq<byte>, controllen: nat, at: Option<nat>, rounds: nat): Walk
    requires controllen <= |buf|
    decreases rounds
  {
    match at
    case None => Finished
    case Some(off) =>
      if off + HeaderSize(layout) > controllen then OutOfBounds
      else if !HeaderKnown(layout, buf, off) then Stopped
      else if off + HEADER > controllen || off + HEADER + CopySize(LengthAt(layout, buf, off)) > controllen then OutOfBounds
      else if rounds == 0 then Running
      else WalkFor(layout, buf, controllen, NextHeader(buf, controllen, off), rounds - 1)
  }

  lemma FitsIff(layout: Layout, buf: seq<byte>, controllen: nat, off: nat)
    requires controllen <= |buf| && controllen < WORD
    ensures Fits(layout, buf, controllen, off) <==>
      off + HEADER <= controllen && off + HEADER + CopySize(LengthAt(layout, buf, off)) <= controllen
  {
    hide LengthAt;
  }

  lemma {:induction false} WalkDecides(layout: Layout, buf: seq<byte>, controllen: nat, off: nat, rounds: nat)
    requires off <= controllen <= |buf| && controllen < WORD
    ensures var walk := WalkFor(layout, buf, controllen, Some(off), rounds);
      && (walk.Finished? ==> TranslatableFrom(layout, buf, controllen, off))
      && (walk.Stopped? ==> SafeFrom(layout, buf, controllen, off) && !TranslatableFrom(layout, buf, controllen, off))
      && (walk.OutOfBounds? ==> !SafeFrom(layout, buf, controllen, off))
      && (rounds >= controllen - off ==> !walk.Running?)
    decreases controllen - off
  {
    hide LengthAt, Align, NextHeader, HeaderKnown, CopySize;
    if off + HeaderSize(layout) <= controllen {
      FitsIff(layout, buf, controllen, off);
      if HeaderKnown(layout, buf, off) && Fits(layout, buf, controllen, off) && rounds > 0 {
        NextIs(layout, buf, controllen, off);
        var next := off + Align(LengthAt(layout, buf, off));
        if next + HEADER <= controllen { WalkDecides(layout, buf, controllen, next, rounds - 1); }
      }
    }
  }

  /** After some number of rounds the loop has ended, one way or another. */
  ghost predicate EndsAfter(layout: Layout, buf: seq<byte>, controllen: nat, rounds: nat, walk: Walk)
    requires controllen <= |buf|
  {
    WalkFor(layout, buf, controllen, FirstHeader(controllen), rounds) == walk
  }

  /** How a loop ends, by conditions on the bytes of the buffer. */
  ghost function EndOf(layout: Layout, buf: seq<byte>, controllen: nat): Walk {
    if Translatable(layout, buf, controllen) then Finished
    else if Safe(layout, buf, controllen) then Stopped
    else OutOfBounds
  }

  lemma EndDecides(layout: Layout, buf: seq<byte>, controllen: nat, rounds: nat, walk: Walk)
    requires controllen <= |buf| && controllen < WORD
    ensures EndsAfter(layout, buf, controllen, rounds, walk) && !walk.Running? ==> walk == EndOf(layout, buf, controllen)
    ensures rounds >= controllen ==> EndsAfter(layout, buf, controllen, rounds, EndOf(layout, buf, controllen))
  {
    TranslatableIs(layout, buf, controllen);
    if FirstHeader(controllen).Some? {
      WalkDecides(layout, buf, controllen, 0, rounds);
    }
  }

  /** A loop leaves the part of the buffers that the length covers exactly when a header on the way cannot be read, or is
      known while its record does not fit; what lies behind an unknown header does not matter. It ends the process by an
      assertion or a PANIC exactly when it stays inside and meets an unknown header, it ends by itself exactly when all
      records fit and are known, and it never goes on for ever. The length is below 2^32 (see SendControl). */
  lemma HowTheLoopEnds(layout: Layout, buf: seq<byte>, controllen: nat)
    requires controllen <= |buf| && controllen < WORD
    ensures (exists n :: EndsAfter(layout, buf, controllen, n, OutOfBounds)) <==> !Safe(layout, buf, controllen)
    ensures (exists n :: EndsAfter(layout, buf, controllen, n, Finished)) <==> Translatable(layout, buf, controllen)
    ensures (exists n :: EndsAfter(layout, buf, controllen, n, Stopped))
      <==> Safe(layout, buf, controllen) && !Translatable(layout, buf, controllen)
    ensures forall n :: n >= controllen ==> !EndsAfter(layout, buf, controllen, n, Running)
  {
    TranslatableIs(layout, buf, controllen);
    hide EndsAfter, Translatable, Safe;
    EndDecides(layout, buf, controllen, controllen, Running);
    if n: nat :| EndsAfter(layout, buf, controllen, n, OutOfBounds) { EndDecides(layout, buf, controllen, n, OutOfBounds); }
    if n: nat :| EndsAfter(layout, buf, controllen, n, Finished) { EndDecides(layout, buf, controllen, n, Finished); }
    if n: nat :| EndsAfter(layout, buf, controllen, n, Stopped) { EndDecides(layout, buf, controllen, n, Stopped); }
    forall n: nat | n >= controllen ensures !EndsAfter(layout, buf, controllen, n, Running) {
      NotRunning(layout, buf, controllen, n);
    }
  }

  lemma NotRunning(layout: Layout, buf: seq<byte>, controllen: nat, rounds: nat)
    requires controllen <= |buf| && controllen < WORD && rounds >= controllen
    ensures !EndsAfter(layout, buf, controllen, rounds, Running)
  {
    EndDecides(layout, buf, controllen, rounds, Running);
  }
}
