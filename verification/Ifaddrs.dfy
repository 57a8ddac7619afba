/** getifaddrs and freeifaddrs (src/libc/ifaddrs.c): the copy and the release of the interface list. */
module Ifaddrs {
  import opened Flags
  import opened Wrappers
  import opened Memory
  import opened LinkedCopy
  import opened Sockaddr

  const IFF_UP: bv32 := 0x1
  const IFF_BROADCAST: bv32 := 0x2
  const IFF_DEBUG: bv32 := 0x4
  const IFF_LOOPBACK: bv32 := 0x8
  const IFF_POINTOPOINT: bv32 := 0x10
  const IFF_RUNNING: bv32 := 0x40
  const IFF_NOARP: bv32 := 0x80
  const IFF_PROMISC: bv32 := 0x100
  const IFF_ALLMULTI: bv32 := 0x200
  const IFF_MULTICAST: bv32 := 0x8000
  const LINUX_IFF_MULTICAST: bv32 := 0x1000

  /** native_to_linux_if_flags; all but the last have the same number on both sides. */
  function LinuxFlags(flags: bv32): bv32 {
    Flag(flags, IFF_UP, 0x1) | Flag(flags, IFF_BROADCAST, 0x2) | Flag(flags, IFF_DEBUG, 0x4)
    | Flag(flags, IFF_LOOPBACK, 0x8) | Flag(flags, IFF_POINTOPOINT, 0x10) | Flag(flags, IFF_RUNNING, 0x40)
    | Flag(flags, IFF_NOARP, 0x80) | Flag(flags, IFF_PROMISC, 0x100) | Flag(flags, IFF_ALLMULTI, 0x200)
    | Flag(flags, IFF_MULTICAST, LINUX_IFF_MULTICAST)
  }

  /** The flags the shim knows. */
  const KNOWN_FLAGS: bv32 := 0x83df

  /** Two sets of native flags become the same exactly when they differ only in flags the shim drops. */
  lemma FlagsDropOnlyUnknown(flags: bv32, others: bv32)
    ensures LinuxFlags(flags) == LinuxFlags(others) <==> flags & KNOWN_FLAGS == others & KNOWN_FLAGS
  {
    FlagsAre(flags);
    FlagsAre(others);
    SameFlags(flags, others);
  }

  lemma FlagsAre(flags: bv32)
    ensures LinuxFlags(flags) == (flags & 0x3df) | ((flags & 0x8000) >> 3)
  {
  }

  lemma SameFlags(flags: bv32, others: bv32)
    ensures (flags & 0x3df) | ((flags & 0x8000) >> 3) == (others & 0x3df) | ((others & 0x8000) >> 3)
      <==> flags & 0x83df == others & 0x83df
  {
  }

  /** The same of the flags that Linux knows: all have the same number on both sides, but multicast. */
  predicate SameKnownFlags(native: bv32, linux: bv32) {
    && linux & 0x3df == native & 0x3df
    && (linux & 0x1000 != 0 <==> native & 0x8000 != 0)
    && linux & 0xffff_ec20 == 0
  }

  lemma FlagsSaySame(flags: bv32)
    ensures SameKnownFlags(flags, LinuxFlags(flags))
  {
    FlagsAre(flags);
    hide LinuxFlags;
  }

  /** struct ifaddrs without its link. */
  datatype NativeIf = NativeIf(name: string, flags: bv32, addr: Option<NativeAddress>, netmask: Option<NativeAddress>)

  /** What a Linux node says, with what its pointers point to. */
  datatype LinuxIf = LinuxIf(
    name: string, flags: bv32, addr: Option<LinuxAddress>, netmask: Option<LinuxAddress>, dstaddr: Option<LinuxAddress>)

  /** What copy_ifaddrs makes of a node; None where it asserts: on an address of an unknown family, or on a
      netmask of any family but the two of the Internet. */
  function TranslateIf(ifa: NativeIf): Option<LinuxIf> {
    if (ifa.addr.Some? && ifa.addr.value.Unknown?)
       || (ifa.netmask.Some? && !ifa.netmask.value.In? && !ifa.netmask.value.In6?) then None
    else Some(LinuxIf(
      ifa.name, LinuxFlags(ifa.flags),
      if ifa.addr.Some? then Some(TranslateAddress(ifa.addr.value)) else None,
      if ifa.netmask.Some? then Some(TranslateAddress(ifa.netmask.value)) else None,
      None))
  }

  /** struct linux_ifaddrs without its link. */
  datatype LinuxIfaddrs = LinuxIfaddrs(
    name: StringBlock, flags: bv32, addr: AddressBlock?, netmask: AddressBlock?, dstaddr: AddressBlock?)
  {
    function Value(): LinuxIf {
      LinuxIf(name.text, flags, Contents(addr), Contents(netmask), Contents(dstaddr))
    }

    function Buffers(): seq<object> { NonNull([name, addr, netmask, dstaddr]) }
  }

  function NonNull(s: seq<object?>): seq<object> {
    if s == [] then []
    else
      var last := s[|s| - 1];
      NonNull(s[..|s| - 1]) + (if last == null then [] else [last as object])
  }

  function Contents(b: AddressBlock?): Option<LinuxAddress> { if b == null then None else Some(b.address) }

  function Present(b: AddressBlock?): seq<object> { if b == null then [] else [b as object] }

  type LinuxNode = Node<LinuxIfaddrs>

  /** An address for an address, and none for none. */
  predicate SameAddressIfAny(a: Option<NativeAddress>, b: AddressBlock?) {
    (b != null <==> a.Some?) && (b != null ==> SameAddress(a.value, b.address))
  }

  /** The structure says of the interface what the native one said. */
  predicate Tells(d: LinuxIfaddrs, ifa: NativeIf) {
    && d.name.text == ifa.name && SameKnownFlags(ifa.flags, d.flags)
    && SameAddressIfAny(ifa.addr, d.addr) && SameAddressIfAny(ifa.netmask, d.netmask) && d.dstaddr == null
  }

  /** Exactly what cannot be told: an address of an unknown family, or a netmask of another than the two of the Internet. */
  lemma TranslatableIf(ifa: NativeIf)
    ensures TranslateIf(ifa).None? <==>
      || (ifa.addr.Some? && !(ifa.addr.value.In? || ifa.addr.value.In6? || ifa.addr.value.Dl?))
      || (ifa.netmask.Some? && !(ifa.netmask.value.In? || ifa.netmask.value.In6?))
  {
  }

  ghost predicate IsCopy(n: LinuxNode, ifa: NativeIf) {
    Some(n.data.Value()) == TranslateIf(ifa) && Tells(n.data, ifa) && Owns(n)
  }

  /** A buffer for an address, if there is one. */
  method CopyAddress(heap: Heap, a: Option<NativeAddress>) returns (b: AddressBlock?)
    requires heap.Valid() && (a.Some? ==> !a.value.Unknown?)
    modifies heap
    ensures heap.Valid() && heap.freed == old(heap.freed) && heap.live == old(heap.live) + SetOf(Present(b))
    ensures Contents(b) == if a.Some? then Some(TranslateAddress(a.value)) else None
    ensures b != null ==> fresh(b)
  {
    b := null;
    if a.Some? {
      b := new AddressBlock(TranslateAddress(a.value));
      heap.Track(b);
    }
  }

  lemma DataIsCopy(d: LinuxIfaddrs, ifa: NativeIf)
    requires TranslateIf(ifa).Some? && d.name.text == ifa.name && d.flags == LinuxFlags(ifa.flags) && d.dstaddr == null
    requires Contents(d.addr) == (if ifa.addr.Some? then Some(TranslateAddress(ifa.addr.value)) else None)
    requires Contents(d.netmask) == (if ifa.netmask.Some? then Some(TranslateAddress(ifa.netmask.value)) else None)
    ensures Some(d.Value()) == TranslateIf(ifa) && Tells(d, ifa)
  {
    FlagsSaySame(ifa.flags);
    if ifa.addr.Some? { TranslatedIsSame(ifa.addr.value); }
    if ifa.netmask.Some? { TranslatedIsSame(ifa.netmask.value); }
    hide LinuxFlags, SameKnownFlags, TranslateAddress, SameAddress;
  }

  /** copy_ifaddrs */
  method CopyIfaddrs(heap: Heap, ifa: NativeIf) returns (node: Outcome<LinuxNode>)
    requires heap.Valid()
    modifies heap
    ensures heap.Valid() && heap.freed == old(heap.freed)
    ensures node.Aborted? <==> TranslateIf(ifa).None?
    ensures node.Returned? ==> IsCopy(node.value, ifa) && NewNode(heap, node.value)
  {
    hide NonNull, LinuxFlags, TranslateAddress, TranslateIf, Tells;
    TranslatableIf(ifa);
    var name := new StringBlock(ifa.name);
    heap.Track(name);
    if ifa.addr.Some? && ifa.addr.value.Unknown? { return Aborted; }
    var addr := CopyAddress(heap, ifa.addr);
    if ifa.netmask.Some? && !ifa.netmask.value.In? && !ifa.netmask.value.In6? { return Aborted; }
    var netmask := CopyAddress(heap, ifa.netmask);
    var data := LinuxIfaddrs(name, LinuxFlags(ifa.flags), addr, netmask, null);
    BlocksAre(data);
    DataIsCopy(data, ifa);
    var n := Allocate(heap, data, data.Buffers());
    node := Returned(n);
  }

  /** One round of the copying loop. */
  method CopyNext(heap: Heap, last: LinuxNode, ifa: NativeIf, ghost live0: set<object>,
      ghost nodes: seq<LinuxNode>, ghost ifas: seq<NativeIf>)
    returns (r: Outcome<LinuxNode>)
    requires Copying(heap, live0, nodes, ifas, IsCopy) && last == nodes[|nodes| - 1]
    requires |nodes| < |ifas| && ifas[|nodes|] == ifa
    modifies heap, last`next
    ensures heap.Valid() && heap.freed == old(heap.freed)
    ensures r.Aborted? <==> TranslateIf(ifa).None?
    ensures r.Returned? ==>
      && Copying(heap, live0, nodes + [r.value], ifas, IsCopy)
      && fresh(r.value) && (forall x :: x in r.value.Blocks() ==> fresh(x))
      && AllBlocks(nodes + [r.value]) == AllBlocks(nodes) + r.value.Blocks()
  {
    hide Copied, IsCopy, AllBlocks;
    ghost var liveBefore := heap.live;
    r := CopyIfaddrs(heap, ifa);
    if r.Returned? { LinkCopy(heap, last, r.value, live0, liveBefore, nodes, ifas, IsCopy); }
  }

  /** The copying part of shim_getifaddrs_impl: it ends the process at the first node that cannot be translated. */
  method CopyList(heap: Heap, head: NativeNode<NativeIf>, ghost ifas: seq<NativeIf>)
    returns (res: Outcome<LinuxNode>, ghost nodes: seq<LinuxNode>)
    requires heap.Valid() && NativeList(head, ifas)
    modifies heap
    ensures heap.Valid() && heap.freed == old(heap.freed)
    ensures res.Aborted? <==> exists i :: 0 <= i < |ifas| && TranslateIf(ifas[i]).None?
    ensures res.Returned? ==>
      && AreCopies(nodes, ifas, IsCopy)
      && Chain(res.value, nodes) && Building(heap, old(heap.live), nodes)
      && forall x :: x in AllBlocks(nodes) ==> fresh(x)
  {
    hide Copying, Building, AllBlocks, Chain, AreCopies, NativeList, IsCopy, TranslateIf;
    ghost var live0 := heap.live;
    FirstInfo(ifas, head);
    nodes := [];
    var first := CopyIfaddrs(heap, head.info);
    if first.Aborted? { return Aborted, nodes; }
    StartsCopying(heap, live0, first.value, ifas, IsCopy);
    var linuxIfa := first.value;
    nodes := [linuxIfa];
    var ifa := head.next;
    while ifa != null
      invariant 1 <= |nodes| <= |ifas| && NativeList(ifa, ifas[|nodes|..])
      invariant nodes[0] == first.value && linuxIfa == nodes[|nodes| - 1] && fresh(linuxIfa)
      invariant Copying(heap, live0, nodes, ifas, IsCopy) && heap.freed == old(heap.freed)
      invariant forall i :: 0 <= i < |nodes| ==> TranslateIf(ifas[i]).Some?
      invariant forall x :: x in AllBlocks(nodes) ==> fresh(x)
      decreases |ifas| - |nodes|
    {
      NextInfo(ifas, |nodes|, ifa);
      var copy := CopyNext(heap, linuxIfa, ifa.info, live0, nodes, ifas);
      if copy.Aborted? { return Aborted, nodes; }
      linuxIfa := copy.value;
      nodes := nodes + [linuxIfa];
      ifa := ifa.next;
    }
    LastInfo(ifas, |nodes|, ifa);
    EndList(heap, linuxIfa, live0, nodes, ifas, IsCopy);
    res := Returned(first.value);
  }

  datatype Listed = Failed(err: int) | Found(head: NativeNode<NativeIf>)

  /** shim_getifaddrs_impl after the native call, with the guarantees of GetAddrInfo. */
  method GetIfaddrs(heap: Heap, native: Heap, listed: Listed, ghost ifas: seq<NativeIf>)
    returns (err: Outcome<int>, res: Node?<LinuxIfaddrs>, ghost nodes: seq<LinuxNode>)
    requires heap != native && heap.Valid() && native.Valid()
    requires listed.Failed? ==> listed.err != 0
    requires listed.Found? ==> NativeList(listed.head, ifas) && listed.head in native.live
    modifies heap, native
    ensures heap.Valid() && native.Valid()
    ensures listed.Failed? ==> err == Returned(listed.err) && heap.live == old(heap.live) && native.freed == old(native.freed)
    ensures listed.Found? ==> (err.Aborted? <==> exists i :: 0 <= i < |ifas| && TranslateIf(ifas[i]).None?)
    ensures listed.Found? && err.Returned? ==>
      && err.value == 0 && res != null && Chain(res, nodes) && AreCopies(nodes, ifas, IsCopy)
      && (forall x :: x in AllBlocks(nodes) ==> fresh(x)) && NoDuplicates(AllBlocks(nodes))
      && heap.live == old(heap.live) + SetOf(AllBlocks(nodes)) && heap.freed == old(heap.freed)
      && native.freed == old(native.freed) + [listed.head] && native.live == old(native.live) - {listed.head}
  {
    res, nodes := null, [];
    if listed.Failed? { return Returned(listed.err), null, nodes; }
    var list;
    list, nodes := CopyList(heap, listed.head, ifas);
    if list.Aborted? { return Aborted, null, nodes; }
    res := list.value;
    native.Free(listed.head);
    err := Returned(0);
  }

  ghost predicate Owns(n: LinuxNode) { n.buffers == n.data.Buffers() }

  /** One round of the releasing loop. */
  method FreeNext(heap: Heap, ifa: LinuxNode, ghost live0: set<object>, ghost freed0: seq<object>,
      ghost nodes: seq<LinuxNode>, ghost k: nat)
    requires k < |nodes| && ifa == nodes[k] && Owns(ifa) && Freeing(heap, live0, freed0, nodes, k)
    modifies heap
    ensures Freeing(heap, live0, freed0, nodes, k + 1)
  {
    NextBlocks(nodes, k);
    FreeNode(heap, ifa);
  }

  /** shim_freeifaddrs_impl: every block of every node is freed once, node by node, and nothing else. */
  method FreeIfaddrs(heap: Heap, head: Node?<LinuxIfaddrs>, ghost nodes: seq<LinuxNode>)
    requires heap.Valid() && Chain(head, nodes) && forall i :: 0 <= i < |nodes| ==> Owns(nodes[i])
    requires NoDuplicates(AllBlocks(nodes)) && forall x :: x in AllBlocks(nodes) ==> x in heap.live
    modifies heap
    ensures heap.Valid() && heap.freed == old(heap.freed) + AllBlocks(nodes)
    ensures heap.live == old(heap.live) - SetOf(AllBlocks(nodes))
  {
    var ifa := head;
    ghost var k := 0;
    while ifa != null
      invariant 0 <= k <= |nodes| && ifa == (if k < |nodes| then nodes[k] else null)
      invariant Chain(head, nodes) && Freeing(heap, old(heap.live), old(heap.freed), nodes, k)
      decreases |nodes| - k
    {
      var next := ifa.next;
      FreeNext(heap, ifa, old(heap.live), old(heap.freed), nodes, k);
      ifa := next;
      k := k + 1;
    }
    assert nodes[..k] == nodes;
  }

  method FreeIfPresent(heap: Heap, b: AddressBlock?)
    requires heap.Valid() && (b != null ==> b in heap.live)
    modifies heap
    ensures heap.Valid() && heap.freed == old(heap.freed) + Present(b) && heap.live == old(heap.live) - SetOf(Present(b))
  {
    if b != null { heap.Free(b); }
  }

  /** What a node points to, in front of free(ifa). */
  method FreeBuffers(heap: Heap, d: LinuxIfaddrs, ghost n: LinuxNode)
    requires heap.Valid() && Owns(n) && n.data == d
    requires NoDuplicates(n.Blocks()) && forall x :: x in n.Blocks() ==> x in heap.live
    modifies heap
    ensures heap.Valid() && heap.freed == old(heap.freed) + n.buffers && heap.live == old(heap.live) - SetOf(n.buffers)
  {
    hide NonNull;
    BlocksAre(d);
    BlocksDistinct(n);
    heap.Free(d.name);
    FreeIfPresent(heap, d.addr);
    FreeIfPresent(heap, d.netmask);
    FreeIfPresent(heap, d.dstaddr);
  }

  method FreeNode(heap: Heap, n: LinuxNode)
    requires heap.Valid() && Owns(n)
    requires NoDuplicates(n.Blocks()) && forall x :: x in n.Blocks() ==> x in heap.live
    modifies heap
    ensures heap.Valid() && heap.freed == old(heap.freed) + n.Blocks() && heap.live == old(heap.live) - SetOf(n.Blocks())
  {
    FreeBuffers(heap, n.data, n);
    assert n.Blocks()[|n.buffers|] == n;
    assert forall i :: 0 <= i < |n.buffers| ==> n.Blocks()[i] == n.buffers[i];
    heap.Free(n);
  }

  lemma BlocksAre(d: LinuxIfaddrs)
    ensures d.Buffers() == [d.name as object] + Present(d.addr) + Present(d.netmask) + Present(d.dstaddr)
  {
    var s: seq<object?> := [d.name, d.addr, d.netmask, d.dstaddr];
    assert s[..3] == [d.name, d.addr, d.netmask] && s[..3][..2] == [d.name, d.addr] && s[..3][..2][..1] == [d.name];
    assert NonNull([d.name]) == [d.name];
    assert NonNull(s[..2]) == [d.name as object] + Present(d.addr);
    assert NonNull(s[..3]) == [d.name as object] + Present(d.addr) + Present(d.netmask);
  }

  /** The pointers of a node are different blocks. */
  lemma BlocksDistinct(n: LinuxNode)
    requires n.buffers == [n.data.name as object] + Present(n.data.addr) + Present(n.data.netmask) + Present(n.data.dstaddr)
    requires NoDuplicates(n.Blocks())
    ensures n.data.name in n.Blocks() && n in n.Blocks()
    ensures n.data.addr != null ==> n.data.addr in n.Blocks() && n.data.addr != n.data.netmask && n.data.addr != n.data.dstaddr
    ensures n.data.netmask != null ==> n.data.netmask in n.Blocks() && n.data.netmask != n.data.dstaddr
    ensures n.data.dstaddr != null ==> n.data.dstaddr in n.Blocks()
  {
    var d, b := n.data, n.Blocks();
    var p, q := |Present(d.addr)|, |Present(d.netmask)|;
    assert b[0] == d.name && b[|b| - 1] == n;
    assert d.addr != null ==> b[1] == d.addr;
    assert d.netmask != null ==> b[1 + p] == d.netmask;
    assert d.dstaddr != null ==> b[1 + p + q] == d.dstaddr;
  }
}
