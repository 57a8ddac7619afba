/** getaddrinfo and freeaddrinfo (src/libc/netdb.c): the native result list is copied node by node into a
    list of Linux nodes and released; the copy is released by the shim's own function. */
module Netdb {
  import opened Wrappers
  import opened Memory
  import opened LinkedCopy
  import opened Sockaddr

  const SOCK_NONBLOCK: bv32 := 0x2000_0000
  const SOCK_CLOEXEC: bv32 := 0x1000_0000
  const KNOWN_TYPES: bv32 := 0x3000_0007
  const LINUX_SOCK_NONBLOCK: bv32 := 0x800
  const LINUX_SOCK_CLOEXEC: bv32 := 0x8_0000

  /** native_to_linux_sock_type; None is its assertion. */
  function LinuxSockType(t: bv32): Option<bv32> {
    if t & KNOWN_TYPES != t then None
    else Some((t & 0xff)
              | (if t & SOCK_NONBLOCK != 0 then LINUX_SOCK_NONBLOCK else 0)
              | (if t & SOCK_CLOEXEC != 0 then LINUX_SOCK_CLOEXEC else 0))
  }

  /** The same kind of socket with the same two flags, and nothing else. */
  predicate SameType(native: bv32, linux: bv32) {
    && linux & 0x7 == native & 0x7
    && (linux & 0x800 != 0 <==> native & 0x2000_0000 != 0)
    && (linux & 0x8_0000 != 0 <==> native & 0x1000_0000 != 0)
    && linux & 0xfff7_f7f8 == 0
  }

  lemma SockTypeSaysSame(t: bv32)
    ensures LinuxSockType(t).None? <==> t & 0xcfff_fff8 != 0
    ensures LinuxSockType(t).Some? ==> SameType(t, LinuxSockType(t).value)
  {
  }

  /** The translated type still tells the native one. */
  lemma SockTypeKept(t: bv32, u: bv32)
    requires LinuxSockType(t).Some? && LinuxSockType(t) == LinuxSockType(u)
    ensures t == u
  {
  }

  /** struct addrinfo without its link; the family is that of the address. */
  datatype NativeInfo = NativeInfo(socktype: bv32, protocol: int, address: NativeAddress, canonname: Option<string>)

  /** What a Linux node says, with what its pointers point to. */
  datatype LinuxInfo = LinuxInfo(
    flags: int, family: nat, socktype: bv32, protocol: int, addrlen: nat, address: LinuxAddress, canonname: Option<string>)

  /** What copy_addrinfo makes of a node; None where it asserts. */
  function TranslateInfo(info: NativeInfo): Option<LinuxInfo> {
    match LinuxSockType(info.socktype)
    case None => None
    case Some(t) =>
      if info.address.In? || info.address.In6? then
        var address := TranslateAddress(info.address);
        Some(LinuxInfo(0, Family(address), t, info.protocol, Length(address), address, info.canonname))
      else None
  }

  /** struct linux_addrinfo without its link. */
  datatype LinuxAddrInfo = LinuxAddrInfo(
    flags: int, family: nat, socktype: bv32, protocol: int, addrlen: nat, addr: AddressBlock, canonname: StringBlock?)
  {
    function Value(): LinuxInfo {
      LinuxInfo(flags, family, socktype, protocol, addrlen, addr.address, if canonname != null then Some(canonname.text) else None)
    }

    function Buffers(): seq<object> { (if canonname != null then [canonname as object] else []) + [addr as object] }
  }

  type LinuxNode = Node<LinuxAddrInfo>

  /** The structure says of the result what the native one said. */
  predicate Tells(d: LinuxAddrInfo, info: NativeInfo) {
    && d.flags == 0 && d.protocol == info.protocol && SameType(info.socktype, d.socktype)
    && SameAddress(info.address, d.addr.address)
    && d.family == (if info.address.In? then 2 else 10) && d.addrlen == (if info.address.In? then 16 else 28)
    && (d.canonname != null <==> info.canonname.Some?) && (d.canonname != null ==> d.canonname.text == info.canonname.value)
  }

  /** Exactly what cannot be told: another type than the known bits, another family than the two of the Internet. */
  lemma TranslatableInfo(info: NativeInfo)
    ensures TranslateInfo(info).None? <==> info.socktype & 0xcfff_fff8 != 0 || !(info.address.In? || info.address.In6?)
  {
    SockTypeSaysSame(info.socktype);
    hide LinuxSockType;
  }

  /** The node is the copy of the native one, and owns what it points to. */
  ghost predicate IsCopy(n: LinuxNode, info: NativeInfo) {
    Some(n.data.Value()) == TranslateInfo(info) && Tells(n.data, info) && Owns(n)
  }

  /** copy_addrinfo */
  method CopyAddrInfo(heap: Heap, info: NativeInfo) returns (node: Outcome<LinuxNode>)
    requires heap.Valid()
    modifies heap
    ensures heap.Valid() && heap.freed == old(heap.freed)
    ensures node.Aborted? <==> TranslateInfo(info).None?
    ensures node.Returned? ==> IsCopy(node.value, info) && NewNode(heap, node.value)
  {
    var socktype := LinuxSockType(info.socktype);
    if socktype.None? { return Aborted; }
    var name: StringBlock? := null;
    if info.canonname.Some? {
      name := new StringBlock(info.canonname.value);
      heap.Track(name);
    }
    if !info.address.In? && !info.address.In6? { return Aborted; }
    var address := TranslateAddress(info.address);
    var addr := new AddressBlock(address);
    heap.Track(addr);
    var data := LinuxAddrInfo(0, Family(address), socktype.value, info.protocol, Length(address), addr, name);
    SockTypeSaysSame(info.socktype);
    TranslatedIsSame(info.address);
    hide LinuxSockType, SameType, TranslateAddress, SameAddress;
    var n := Allocate(heap, data, data.Buffers());
    node := Returned(n);
  }

  /** One round of the copying loop. */
  method CopyNext(heap: Heap, last: LinuxNode, info: NativeInfo, ghost live0: set<object>,
      ghost nodes: seq<LinuxNode>, ghost infos: seq<NativeInfo>)
    returns (r: Outcome<LinuxNode>)
    requires Copying(heap, live0, nodes, infos, IsCopy) && last == nodes[|nodes| - 1]
    requires |nodes| < |infos| && infos[|nodes|] == info
    modifies heap, last`next
    ensures heap.Valid() && heap.freed == old(heap.freed)
    ensures r.Aborted? <==> TranslateInfo(info).None?
    ensures r.Returned? ==>
      && Copying(heap, live0, nodes + [r.value], infos, IsCopy)
      && fresh(r.value) && (forall x :: x in r.value.Blocks() ==> fresh(x))
      && AllBlocks(nodes + [r.value]) == AllBlocks(nodes) + r.value.Blocks()
  {
    hide Copied, IsCopy, AllBlocks;
    ghost var liveBefore := heap.live;
    r := CopyAddrInfo(heap, info);
    if r.Returned? { LinkCopy(heap, last, r.value, live0, liveBefore, nodes, infos, IsCopy); }
  }

  /** The copying part of shim_getaddrinfo_impl: it ends the process at the first node that cannot be translated. */
  method CopyList(heap: Heap, head: NativeNode<NativeInfo>, ghost infos: seq<NativeInfo>)
    returns (res: Outcome<LinuxNode>, ghost nodes: seq<LinuxNode>)
    requires heap.Valid() && NativeList(head, infos)
    modifies heap
    ensures heap.Valid() && heap.freed == old(heap.freed)
    ensures res.Aborted? <==> exists i :: 0 <= i < |infos| && TranslateInfo(infos[i]).None?
    ensures res.Returned? ==>
      && AreCopies(nodes, infos, IsCopy)
      && Chain(res.value, nodes) && Building(heap, old(heap.live), nodes)
      && forall x :: x in AllBlocks(nodes) ==> fresh(x)
  {
    hide Copying, Building, AllBlocks, Chain, AreCopies, NativeList, IsCopy, TranslateInfo;
    ghost var live0 := heap.live;
    FirstInfo(infos, head);
    nodes := [];
    var first := CopyAddrInfo(heap, head.info);
    if first.Aborted? { return Aborted, nodes; }
    StartsCopying(heap, live0, first.value, infos, IsCopy);
    var linuxInfo := first.value;
    nodes := [linuxInfo];
    var info := head.next;
    while info != null
      invariant 1 <= |nodes| <= |infos| && NativeList(info, infos[|nodes|..])
      invariant nodes[0] == first.value && linuxInfo == nodes[|nodes| - 1] && fresh(linuxInfo)
      invariant Copying(heap, live0, nodes, infos, IsCopy) && heap.freed == old(heap.freed)
      invariant forall i :: 0 <= i < |nodes| ==> TranslateInfo(infos[i]).Some?
      invariant forall x :: x in AllBlocks(nodes) ==> fresh(x)
      decreases |infos| - |nodes|
    {
      NextInfo(infos, |nodes|, info);
      var copy := CopyNext(heap, linuxInfo, info.info, live0, nodes, infos);
      if copy.Aborted? { return Aborted, nodes; }
      linuxInfo := copy.value;
      nodes := nodes + [linuxInfo];
      info := info.next;
    }
    LastInfo(infos, |nodes|, info);
    EndList(heap, linuxInfo, live0, nodes, infos, IsCopy);
    res := Returned(first.value);
  }

  /** The native call failed, or gave a list that is not empty. */
  datatype Resolved = Failed(err: int) | Found(head: NativeNode<NativeInfo>)

  /** shim_getaddrinfo_impl after the native call. `native` is the allocator of the resolver, which owns the
      list by its head. An abort exactly when a node cannot be translated; otherwise a NULL-terminated list
      of fresh nodes, one for each native node, in order, and the native list is released once. */
  method GetAddrInfo(heap: Heap, native: Heap, resolved: Resolved, ghost infos: seq<NativeInfo>)
    returns (err: Outcome<int>, res: Node?<LinuxAddrInfo>, ghost nodes: seq<LinuxNode>)
    requires heap != native && heap.Valid() && native.Valid()
    requires resolved.Failed? ==> resolved.err != 0
    requires resolved.Found? ==> NativeList(resolved.head, infos) && resolved.head in native.live
    modifies heap, native
    ensures heap.Valid() && native.Valid()
    ensures resolved.Failed? ==> err == Returned(resolved.err) && heap.live == old(heap.live) && native.freed == old(native.freed)
    ensures resolved.Found? ==> (err.Aborted? <==> exists i :: 0 <= i < |infos| && TranslateInfo(infos[i]).None?)
    ensures resolved.Found? && err.Returned? ==>
      && err.value == 0 && res != null && Chain(res, nodes) && AreCopies(nodes, infos, IsCopy)
      && (forall x :: x in AllBlocks(nodes) ==> fresh(x)) && NoDuplicates(AllBlocks(nodes))
      && heap.live == old(heap.live) + SetOf(AllBlocks(nodes)) && heap.freed == old(heap.freed)
      && native.freed == old(native.freed) + [resolved.head] && native.live == old(native.live) - {resolved.head}
  {
    res, nodes := null, [];
    if resolved.Failed? { return Returned(resolved.err), null, nodes; }
    var list;
    list, nodes := CopyList(heap, resolved.head, infos);
    if list.Aborted? { return Aborted, null, nodes; }
    res := list.value;
    native.Free(resolved.head);
    err := Returned(0);
  }

  ghost predicate Owns(n: LinuxNode) { n.buffers == n.data.Buffers() }

  /** One round of the releasing loop. */
  method FreeNext(heap: Heap, ai: LinuxNode, ghost live0: set<object>, ghost freed0: seq<object>,
      ghost nodes: seq<LinuxNode>, ghost k: nat)
    requires k < |nodes| && ai == nodes[k] && Owns(ai) && Freeing(heap, live0, freed0, nodes, k)
    modifies heap
    ensures Freeing(heap, live0, freed0, nodes, k + 1)
  {
    NextBlocks(nodes, k);
    FreeNode(heap, ai);
  }

  /** shim_freeaddrinfo_impl: every block of every node is freed once, node by node, and nothing else. */
  method FreeAddrInfo(heap: Heap, head: Node?<LinuxAddrInfo>, ghost nodes: seq<LinuxNode>)
    requires heap.Valid() && Chain(head, nodes) && forall i :: 0 <= i < |nodes| ==> Owns(nodes[i])
    requires NoDuplicates(AllBlocks(nodes)) && forall x :: x in AllBlocks(nodes) ==> x in heap.live
    modifies heap
    ensures heap.Valid() && heap.freed == old(heap.freed) + AllBlocks(nodes)
    ensures heap.live == old(heap.live) - SetOf(AllBlocks(nodes))
  {
    var ai := head;
    ghost var k := 0;
    while ai != null
      invariant 0 <= k <= |nodes| && ai == (if k < |nodes| then nodes[k] else null)
      invariant Chain(head, nodes) && Freeing(heap, old(heap.live), old(heap.freed), nodes, k)
      decreases |nodes| - k
    {
      var next := ai.next;
      FreeNext(heap, ai, old(heap.live), old(heap.freed), nodes, k);
      ai := next;
      k := k + 1;
    }
    assert nodes[..k] == nodes;
  }

  method FreeNode(heap: Heap, ai: LinuxNode)
    requires heap.Valid() && Owns(ai)
    requires NoDuplicates(ai.Blocks()) && forall x :: x in ai.Blocks() ==> x in heap.live
    modifies heap
    ensures heap.Valid() && heap.freed == old(heap.freed) + ai.Blocks() && heap.live == old(heap.live) - SetOf(ai.Blocks())
  {
    assert ai.data.addr in ai.Blocks() && ai in ai.Blocks() by {
      assert ai.Blocks()[|ai.Blocks()| - 1] == ai && ai.Blocks()[|ai.Blocks()| - 2] == ai.data.addr;
    }
    if ai.data.canonname != null {
      assert ai.Blocks()[0] == ai.data.canonname;
      heap.Free(ai.data.canonname);
    }
    heap.Free(ai.data.addr);
    heap.Free(ai);
  }

  /** A list that was obtained and released leaves nothing allocated, on either side. */
  method GetThenFree(heap: Heap, native: Heap, head: NativeNode<NativeInfo>, ghost infos: seq<NativeInfo>) returns (r: Outcome<()>)
    requires heap != native && heap.Valid() && native.Valid() && NativeList(head, infos) && head in native.live
    modifies heap, native
    ensures r.Aborted? <==> exists i :: 0 <= i < |infos| && TranslateInfo(infos[i]).None?
    ensures r.Returned? ==> heap.live == old(heap.live) && native.live == old(native.live) - {head}
  {
    ghost var live0 := heap.live;
    var err, res;
    ghost var nodes;
    err, res, nodes := GetAddrInfo(heap, native, Found(head), infos);
    if err.Aborted? { return Aborted; }
    assert forall x :: x in AllBlocks(nodes) ==> x in SetOf(AllBlocks(nodes)) && x !in live0;
    FreeAddrInfo(heap, res, nodes);
    r := Returned(());
  }
}
