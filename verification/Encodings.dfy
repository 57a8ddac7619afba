/** Two re-encodings of bit-fields: ioctl requests (src/libc/sys/ioctl.c) and the device numbers of the NVIDIA
    devices (src/libc/sys/stat.c). */
module Encodings {
  import opened Wrappers

  // ----- ioctl requests; the macros read the low 32 bits of a request

  function LinuxDir(x: bv32): bv32 { (x >> 30) & 0x3 }
  function LinuxLen(x: bv32): bv32 { (x >> 16) & 0x3fff }
  function LinuxGroup(x: bv32): bv32 { (x >> 8) & 0xff }
  function LinuxCommand(x: bv32): bv32 { x & 0xff }

  const IOC_VOID: bv32 := 0x2000_0000
  const IOC_OUT: bv32 := 0x4000_0000
  const IOC_IN: bv32 := 0x8000_0000
  const IOCPARM_MASK: bv32 := 0x1fff

  /** linux_to_native_dir on its four numbers; its default case asserts. */
  function NativeDir(dir: bv32): bv32 {
    if dir == 0 then IOC_VOID else if dir == 1 then IOC_IN else if dir == 2 then IOC_OUT else IOC_IN | IOC_OUT
  }

  const LENGTH_LIMIT: bv32 := 0x2000

  /** LINUX_TO_NATIVE_REQ: the decoders, linux_to_native_dir and FreeBSD's _IOC, all expanded */
  function NativeFor(x: bv32): bv32 {
    var dir, len, group, num := (x >> 30) & 0x3, (x >> 16) & 0x3fff, (x >> 8) & 0xff, x & 0xff;
    var inout := if dir == 0 then 0x2000_0000 else if dir == 1 then 0x8000_0000 else if dir == 2 then 0x4000_0000 else 0xc000_0000;
    inout | (((len & 0x1fff) << 16) | (group << 8) | num)
  }

  /** The same with check_len, which only a debug build has. */
  function Reencode(x: bv32, debug: bool): Outcome<bv32> {
    if debug && !(LinuxLen(x) < LENGTH_LIMIT) then Aborted else Returned(NativeFor(x))
  }

  /** IOCPARM_LEN, IOCGROUP and the lowest byte, as the native side reads a request. */
  function NativeLen(r: bv32): bv32 { (r >> 16) & IOCPARM_MASK }
  function NativeGroup(r: bv32): bv32 { (r >> 8) & 0xff }
  function NativeCommand(r: bv32): bv32 { r & 0xff }
  function NativeDirBits(r: bv32): bv32 { r & 0xe000_0000 }

  /** The native side reads the same direction, group and command, and the same length exactly when it is
      below 2^13; a debug build ends the process exactly when it is not. */
  lemma RequestKept(x: bv32)
    ensures var r := NativeFor(x);
      && NativeDirBits(r) == NativeDir(LinuxDir(x)) && NativeGroup(r) == LinuxGroup(x) && NativeCommand(r) == LinuxCommand(x)
      && (NativeLen(r) == LinuxLen(x) <==> LinuxLen(x) < LENGTH_LIMIT)
    ensures Reencode(x, true) == if LinuxLen(x) < LENGTH_LIMIT then Reencode(x, false) else Aborted
  {
  }

  /** The request a native one stands for: the direction bits change places again. */
  function LinuxFor(r: bv32): bv32 {
    (if r & 0xc000_0000 == 0 then 0 else ((r >> 31) << 30) | ((r & 0x4000_0000) << 1)) | (r & 0x1fff_ffff)
  }

  /** A request without bit 29, the top bit of its length */
  function Shortened(x: bv32): bv32 { x & 0xdfff_ffff }

  /** Every request is recovered from its native form, but for bit 29. */
  lemma Recovered(x: bv32)
    ensures LinuxFor(NativeFor(x)) == Shortened(x)
  {
  }

  lemma TopBitIsLost(x: bv32)
    ensures NativeFor(Shortened(x)) == NativeFor(x)
  {
  }

  predicate ShortEnough(x: bv32) { LinuxLen(x) < LENGTH_LIMIT }

  lemma ShortIsWhole(x: bv32)
    ensures ShortEnough(x) ==> Shortened(x) == x
  {
  }

  /** Two requests are confused exactly when they differ in nothing but bit 29; so requests with lengths below
      2^13 never are. */
  lemma ConfusedOnlyByTopBit(x: bv32, y: bv32)
    ensures NativeFor(x) == NativeFor(y) <==> Shortened(x) == Shortened(y)
    ensures ShortEnough(x) && ShortEnough(y) && NativeFor(x) == NativeFor(y) ==> x == y
  {
    hide *;
    Recovered(x);
    Recovered(y);
    TopBitIsLost(x);
    TopBitIsLost(y);
    ShortIsWhole(x);
    ShortIsWhole(y);
  }

  // ----- make_dev_id

  /** Linux's encoding of a device number */
  function MakeDevId(major: bv32, minor: bv32): bv64 {
    ((((major & 0x0000_0fff) as bv64) << 8) | (((major & 0xffff_f000) as bv64) << 32))
    | (((minor & 0x0000_00ff) as bv64) | (((minor & 0xffff_ff00) as bv64) << 12))
  }

  /** How Linux programs take it apart: gnu_dev_major and gnu_dev_minor */
  function Major(id: bv64): bv32 { (((id >> 8) & 0xfff) | ((id >> 32) & 0xffff_f000)) as bv32 }
  function Minor(id: bv64): bv32 { ((id & 0xff) | ((id >> 12) & 0xffff_ff00)) as bv32 }

  /** Every pair of numbers has its own id, and every id is that of a pair. */
  lemma DevIdIsBijective(major: bv32, minor: bv32, id: bv64)
    ensures Major(MakeDevId(major, minor)) == major && Minor(MakeDevId(major, minor)) == minor
    ensures MakeDevId(Major(id), Minor(id)) == id
  {
  }

  const NVIDIA_MAJOR: bv32 := 195
  const CONTROL_MINOR: bv32 := 255
  const MODESET_MINOR: bv32 := 254

  /** FIX_NV_DEV_ID on what follows "/dev/nvidia" in the path: its first character, 0 at the end of the path,
      and what strtoul makes of it, None when it reports an error. None in the result leaves st_rdev as it is. */
  function FixedDevId(next: char, number: Option<bv64>): Outcome<Option<bv64>> {
    if next == 'c' then Returned(Some(MakeDevId(NVIDIA_MAJOR, CONTROL_MINOR)))
    else if next == '-' then Returned(Some(MakeDevId(NVIDIA_MAJOR, MODESET_MINOR)))
    else if number.None? then Returned(None)
    else if number.value < 254 then Returned(Some(MakeDevId(NVIDIA_MAJOR, number.value as bv32)))
    else Aborted
  }

  /** The ids that are filled in are those of major number 195, and two devices share one exactly when both
      are control devices, both are "-" devices, or both have the same number. */
  lemma DistinctDevIds(c: char, i: Option<bv64>, d: char, j: Option<bv64>)
    requires FixedDevId(c, i).Returned? && FixedDevId(c, i).value.Some?
    requires FixedDevId(d, j).Returned? && FixedDevId(d, j).value.Some?
    ensures var id := FixedDevId(c, i).value.value;
      Major(id) == 195 && Minor(id) == if c == 'c' then 255 else if c == '-' then 254 else (i.value % 256) as bv32
    ensures c != 'c' && c != '-' ==> i.value < 254
    ensures FixedDevId(c, i) == FixedDevId(d, j) <==>
      if c == 'c' || c == '-' then d == c else d != 'c' && d != '-' && i == j
  {
  }
}
