/** Directory streams (src/libc/dirent.c): the entries readdir hands out belong to their directory, on a
    singly linked list, until closedir frees them. */
module Dirent {
  import opened Wrappers
  import opened Memory

  datatype NativeDirent = NativeDirent(ino: nat, off: nat, reclen: nat, kind: nat, name: string)

  datatype LinuxDirent = LinuxDirent(ino: nat, off: nat, reclen: nat, kind: nat, name: string)

  /** sizeof(d_name) */
  const NAME_SIZE: nat := 256

  /** copy_direntry and copy_direntry64: on amd64 both layouts have the same fields. strlcpy cuts the name. */
  function Copied(e: NativeDirent): LinuxDirent {
    LinuxDirent(e.ino, e.off, e.reclen, e.kind, if |e.name| < NAME_SIZE then e.name else e.name[..NAME_SIZE - 1])
  }

  /** What the program is told of an entry: its inode, offset, record length and type, and of its name as much as fits
      into 255 characters. */
  predicate Tells(l: LinuxDirent, e: NativeDirent) {
    && l.ino == e.ino && l.off == e.off && l.reclen == e.reclen && l.kind == e.kind
    && l.name <= e.name && |l.name| == if |e.name| <= 255 then |e.name| else 255
  }

  lemma CopiedTells(e: NativeDirent)
    ensures Tells(Copied(e), e)
  {
  }

  /** A native stream: readdir returns the entry at the position, seekdir moves it. */
  class NativeDir {
    const entries: seq<NativeDirent>
    var position: nat

    constructor (entries: seq<NativeDirent>)
      ensures this.entries == entries && position == 0
    {
      this.entries, position := entries, 0;
    }

    method ReadDir() returns (e: Option<NativeDirent>)
      modifies this
      ensures e == if old(position) < |entries| then Some(entries[old(position)]) else None
      ensures position == if old(position) < |entries| then old(position) + 1 else old(position)
    {
      if position < |entries| {
        e := Some(entries[position]);
        position := position + 1;
      } else {
        e := None;
      }
    }
  }

  /** A malloc'd linux_dirent or linux_dirent64. */
  class Entry {
    var value: LinuxDirent

    constructor (value: LinuxDirent)
      ensures this.value == value
    {
      this.value := value;
    }
  }

  /** struct shim_dir_entry; SLIST_INSERT_HEAD is the only thing that sets its link. */
  class Node {
    const next: Node?
    const entry: Entry?
    const entry64: Entry?

    constructor (next: Node?, entry: Entry?, entry64: Entry?)
      ensures this.next == next && this.entry == entry && this.entry64 == entry64
    {
      this.next, this.entry, this.entry64 := next, entry, entry64;
    }
  }

  predicate OneEntry(n: Node) { (n.entry == null) != (n.entry64 == null) }

  function Payload(n: Node): Entry
    requires OneEntry(n)
  {
    if n.entry != null then n.entry else n.entry64
  }

  ghost predicate Linked(head: Node?, nodes: seq<Node>) {
    if nodes == [] then head == null else head == nodes[0] && Linked(nodes[0].next, nodes[1..])
  }

  /** struct shim_directory, with the nodes its list links. */
  class ShimDir {
    const dir: NativeDir
    var head: Node?
    ghost var nodes: seq<Node>

    constructor (dir: NativeDir)
      ensures this.dir == dir && head == null && nodes == []
    {
      this.dir, head, nodes := dir, null, [];
    }

    ghost predicate Valid()
      reads this
    {
      && Linked(head, nodes)
      && (forall i :: 0 <= i < |nodes| ==> OneEntry(nodes[i]))
      && (forall i, j :: 0 <= i < j < |nodes| ==> Payload(nodes[i]) != Payload(nodes[j]))
    }
  }

  /** What a pointer returned by readdir was: whose, and what it held. */
  datatype Handed = Handed(dir: ShimDir, value: LinuxDirent)

  /** The blocks closedir frees for these nodes: each entry, then its node. */
  ghost function FreedBy(nodes: seq<Node>): seq<object>
    requires forall i :: 0 <= i < |nodes| ==> OneEntry(nodes[i])
  {
    if nodes == [] then [] else FreedBy(nodes[..|nodes| - 1]) + [Payload(nodes[|nodes| - 1]), nodes[|nodes| - 1]]
  }

  lemma {:induction false} FreedByHolds(nodes: seq<Node>)
    requires forall i :: 0 <= i < |nodes| ==> OneEntry(nodes[i])
    ensures forall x :: x in FreedBy(nodes) <==> exists i :: 0 <= i < |nodes| && (x == nodes[i] || x == Payload(nodes[i]))
    decreases |nodes|
  {
    if nodes != [] {
      var init := nodes[..|nodes| - 1];
      FreedByHolds(init);
      var last := nodes[|nodes| - 1];
      forall x ensures x in FreedBy(nodes) <==> exists i :: 0 <= i < |nodes| && (x == nodes[i] || x == Payload(nodes[i])) {
        if x in FreedBy(init) {
          var i :| 0 <= i < |init| && (x == init[i] || x == Payload(init[i]));
          assert nodes[i] == init[i];
        }
        if i :| 0 <= i < |nodes| && (x == nodes[i] || x == Payload(nodes[i])) {
          assert i < |init| ==> nodes[i] == init[i];
        }
      }
    }
  }

  /** The next entry and node are not among the blocks freed so far. */
  lemma NextToFree(nodes: seq<Node>, k: nat)
    requires k < |nodes| && forall i :: 0 <= i < |nodes| ==> OneEntry(nodes[i])
    requires forall i, j :: 0 <= i < j < |nodes| ==> Payload(nodes[i]) != Payload(nodes[j])
    ensures Payload(nodes[k]) !in FreedBy(nodes[..k]) && nodes[k] !in FreedBy(nodes[..k])
    ensures FreedBy(nodes[..k + 1]) == FreedBy(nodes[..k]) + [Payload(nodes[k]), nodes[k]]
  {
    FreedByHolds(nodes[..k]);
    assert nodes[..k + 1][..k] == nodes[..k];
  }

  // ----- All open directories

  class Directories {
    ghost var dirs: set<ShimDir>
    ghost var handed: map<Entry, Handed>
    const heap: Heap

    constructor ()
      ensures Valid() && dirs == {} && handed == map[] && fresh(heap)
    {
      dirs, handed := {}, map[];
      heap := new Heap();
    }

    /** Every open directory and everything on its list is live. */
    ghost predicate ListsValid()
      reads this, heap, dirs
    {
      && (forall d :: d in dirs ==> d in heap.live && d.Valid())
      && (forall d, i :: d in dirs && 0 <= i < |d.nodes| ==>
            && d.nodes[i] in heap.live && Payload(d.nodes[i]) in handed && handed[Payload(d.nodes[i])].dir == d)
    }

    /** A pointer that was handed out is unchanged and on the list of its directory while that is open,
        and freed afterwards. */
    ghost predicate HandedValid()
      requires ListsValid()
      reads this, heap, dirs, handed.Keys
    {
      && (forall p :: p in handed && handed[p].dir in dirs ==>
            && p in heap.live && p.value == handed[p].value
            && exists i :: 0 <= i < |handed[p].dir.nodes| && Payload(handed[p].dir.nodes[i]) == p)
      && (forall p :: p in handed && handed[p].dir !in dirs ==> p in heap.freed)
    }

    ghost predicate Valid()
      reads this, heap, dirs, handed.Keys
    {
      ListsValid() && HandedValid() && heap.Valid()
    }

    /** create_shim_dir on a stream that was opened. */
    method OpenDir(stream: NativeDir) returns (d: ShimDir)
      requires Valid()
      modifies this, heap
      ensures Valid() && fresh(d) && d.dir == stream && d.nodes == []
      ensures dirs == old(dirs) + {d} && handed == old(handed)
      ensures heap.live == old(heap.live) + {d} && heap.freed == old(heap.freed)
    {
      d := new ShimDir(stream);
      heap.Track(d);
      dirs := dirs + {d};
      OpenKeepsLists(d);
      OpenKeepsHanded(d);
    }

    twostate lemma OpenKeepsLists(new d: ShimDir)
      requires old(ListsValid()) && dirs == old(dirs) + {d} && handed == old(handed)
      requires d !in old(dirs) && d.head == null && d.nodes == [] && heap.live == old(heap.live) + {d}
      requires forall c :: c in old(dirs) ==> c.head == old(c.head) && c.nodes == old(c.nodes)
      ensures ListsValid()
    {
      hide OneEntry, Payload;
      forall c | c in old(dirs) ensures c.Valid() { assert old(c.Valid()); }
    }

    twostate lemma OpenKeepsHanded(new d: ShimDir)
      requires old(ListsValid() && HandedValid()) && ListsValid()
      requires dirs == old(dirs) + {d} && handed == old(handed) && d !in old(heap.live)
      requires (forall p :: p in handed ==> p.value == old(p.value) && handed[p].dir != d)
      requires forall c :: c in old(dirs) ==> c.nodes == old(c.nodes)
      requires heap.live == old(heap.live) + {d} && heap.freed == old(heap.freed)
      ensures HandedValid()
    {
      hide ShimDir.Valid, ListsValid;
    }

    /** insert_entry and insert_entry64: copy the native entry to a new block and put it on the list. */
    method InsertEntry(d: ShimDir, e: NativeDirent, wide: bool) returns (p: Entry)
      requires Valid() && d in dirs
      modifies this, heap, d
      ensures Valid() && dirs == old(dirs) && heap.freed == old(heap.freed)
      ensures fresh(p) && p.value == Copied(e) && Tells(p.value, e)
      ensures handed == old(handed)[p := Handed(d, Copied(e))]
      ensures |d.nodes| == |old(d.nodes)| + 1 && d.nodes[1..] == old(d.nodes) && fresh(d.nodes[0]) && Payload(d.nodes[0]) == p
      ensures wide <==> d.nodes[0].entry64 == p
      ensures heap.live == old(heap.live) + {p, d.nodes[0]}
    {
      p := new Entry(Copied(e));
      CopiedTells(e);
      var node := new Node(d.head, if wide then null else p, if wide then p else null);
      heap.Track(p);
      heap.Track(node);
      handed := handed[p := Handed(d, Copied(e))];
      d.head := node;
      d.nodes := [node] + d.nodes;
      InsertKeepsLists(d, node, p);
      InsertKeepsHanded(d, node, p);
    }

    twostate predicate OthersUnchanged(d: ShimDir)
      reads this, heap, dirs
    {
      forall c :: c in dirs && c in old(dirs) && c != d ==> c.head == old(c.head) && c.nodes == old(c.nodes)
    }

    twostate lemma InsertKeepsLists(d: ShimDir, new node: Node, new p: Entry)
      requires old(ListsValid()) && d in old(dirs) && dirs == old(dirs)
      requires p !in old(handed) && OneEntry(node) && Payload(node) == p && node.next == old(d.head)
      requires OthersUnchanged(d)
      requires heap.live == old(heap.live) + {p, node} && handed == old(handed)[p := Handed(d, p.value)]
      requires d.head == node && d.nodes == [node] + old(d.nodes)
      ensures ListsValid()
    {
      assert d.nodes[1..] == old(d.nodes);
      assert forall i :: 0 < i < |d.nodes| ==> d.nodes[i] == old(d.nodes)[i - 1];
      forall i | 0 < i < |d.nodes| ensures Payload(d.nodes[i]) != p {
        assert Payload(old(d.nodes)[i - 1]) in old(handed);
      }
      assert d.Valid();
      forall c | c in dirs && c != d ensures c.Valid() && c.nodes == old(c.nodes) {
        assert old(c.Valid());
      }
    }

    twostate lemma InsertKeepsHanded(d: ShimDir, new node: Node, new p: Entry)
      requires old(ListsValid() && HandedValid()) && ListsValid()
      requires d in old(dirs) && dirs == old(dirs) && heap.freed == old(heap.freed) && p !in old(handed)
      requires OneEntry(node) && Payload(node) == p
      requires (forall q :: q in old(handed) ==> q.value == old(q.value)) && OthersUnchanged(d)
      requires heap.live == old(heap.live) + {p, node} && handed == old(handed)[p := Handed(d, p.value)]
      requires d.nodes == [node] + old(d.nodes)
      ensures HandedValid()
    {
      forall q | q in handed && handed[q].dir in dirs
        ensures q in heap.live && q.value == handed[q].value
        ensures exists i :: 0 <= i < |handed[q].dir.nodes| && Payload(handed[q].dir.nodes[i]) == q
      {
        if q == p {
          assert Payload(d.nodes[0]) == q;
        } else if handed[q].dir == d {
          var i :| 0 <= i < |old(d.nodes)| && Payload(old(d.nodes)[i]) == q;
          assert d.nodes[i + 1] == old(d.nodes)[i];
        } else {
          assert handed[q].dir.nodes == old(handed[q].dir.nodes);
        }
      }
    }

    /** readdir */
    method ReadDir(d: ShimDir) returns (p: Entry?)
      requires Valid() && d in dirs
      modifies this, heap, d, d.dir
      ensures Valid() && dirs == old(dirs) && heap.freed == old(heap.freed)
      ensures var at := old(d.dir.position);
        if at < |d.dir.entries| then
          && p != null && fresh(p) && p.value == Copied(d.dir.entries[at]) && Tells(p.value, d.dir.entries[at])
          && d.dir.position == at + 1
          && handed == old(handed)[p := Handed(d, Copied(d.dir.entries[at]))]
        else p == null && handed == old(handed) && heap.live == old(heap.live) && d.dir.position == at
    {
      var e := d.dir.ReadDir();
      p := null;
      if e.Some? { p := InsertEntry(d, e.value, false); }
    }

    /** readdir64 */
    method ReadDir64(d: ShimDir) returns (p: Entry?)
      requires Valid() && d in dirs
      modifies this, heap, d, d.dir
      ensures Valid() && dirs == old(dirs) && heap.freed == old(heap.freed)
      ensures var at := old(d.dir.position);
        if at < |d.dir.entries| then
          && p != null && fresh(p) && p.value == Copied(d.dir.entries[at]) && Tells(p.value, d.dir.entries[at])
          && d.dir.position == at + 1
          && handed == old(handed)[p := Handed(d, Copied(d.dir.entries[at]))]
        else p == null && handed == old(handed) && heap.live == old(heap.live) && d.dir.position == at
    {
      var e := d.dir.ReadDir();
      p := null;
      if e.Some? { p := InsertEntry(d, e.value, true); }
    }

    /** readdir_r and readdir64_r: the copy goes to a block of the caller, and nothing is remembered. */
    method ReadDirR(d: ShimDir, buffer: Entry) returns (result: Entry?)
      requires Valid() && d in dirs && buffer !in handed
      modifies d.dir, buffer
      ensures Valid()
      ensures var at := old(d.dir.position);
        if at < |d.dir.entries| then
          && result == buffer && buffer.value == Copied(d.dir.entries[at]) && Tells(buffer.value, d.dir.entries[at])
          && d.dir.position == at + 1
        else result == null && buffer.value == old(buffer.value) && d.dir.position == at
    {
      var e := d.dir.ReadDir();
      result := null;
      if e.Some? {
        buffer.value := Copied(e.value);
        CopiedTells(e.value);
        result := buffer;
      }
    }

    /** seekdir; rewinddir is a seek to the start. */
    method Seek(d: ShimDir, position: nat)
      requires Valid() && d in dirs
      modifies d.dir
      ensures Valid() && d.dir.position == position
    {
      d.dir.position := position;
    }

    /** closedir: every entry and every node of this directory is freed once, in list order, then the
        directory; every block of the other directories stays live. */
    method CloseDir(d: ShimDir)
      requires Valid() && d in dirs
      modifies this, heap, d
      ensures Valid() && dirs == old(dirs) - {d} && handed == old(handed)
      ensures heap.freed == old(heap.freed) + FreedBy(old(d.nodes)) + [d]
      ensures forall x :: x in heap.live <==> x in old(heap.live) && x !in FreedBy(old(d.nodes)) && x != d
    {
      OwnBlocksLive(d);
      DestroyShimDir(d);
      dirs := dirs - {d};
      CloseKeepsLists(d);
      CloseKeepsHanded(d);
    }

    /** The two entry pointers of a node, of which one is NULL, and the node. */
    method FreeNode(e: Node)
      requires heap.Valid() && OneEntry(e) && e in heap.live && Payload(e) in heap.live
      modifies heap
      ensures heap.Valid() && heap.freed == old(heap.freed) + [Payload(e), e]
      ensures heap.live == old(heap.live) - {Payload(e), e}
    {
      if e.entry != null { heap.Free(e.entry); }
      if e.entry64 != null { heap.Free(e.entry64); }
      heap.Free(e);
    }

    /** destroy_shim_dir has freed the first k nodes, and goes on with e. */
    ghost predicate Destroying(d: ShimDir, nodes: seq<Node>, k: nat, e: Node?, live0: set<object>, freed0: seq<object>)
      requires k <= |nodes| && forall i :: 0 <= i < |nodes| ==> OneEntry(nodes[i])
      reads this, heap, d
    {
      && Linked(e, nodes[k..]) && e == d.head && d.nodes == nodes[k..] && heap.Valid()
      && heap.freed == freed0 + FreedBy(nodes[..k])
      && heap.live == live0 - SetOf(FreedBy(nodes[..k]))
    }

    /** One round of its loop: SLIST_REMOVE of the head, and the frees. */
    method DestroyNext(d: ShimDir, e: Node, ghost nodes: seq<Node>, ghost k: nat, ghost live0: set<object>, ghost freed0: seq<object>)
      returns (temp: Node?)
      requires forall i :: 0 <= i < |nodes| ==> OneEntry(nodes[i]) && nodes[i] in live0 && Payload(nodes[i]) in live0
      requires forall i, j :: 0 <= i < j < |nodes| ==> Payload(nodes[i]) != Payload(nodes[j])
      requires k < |nodes| && Destroying(d, nodes, k, e, live0, freed0)
      modifies heap, d
      ensures Destroying(d, nodes, k + 1, temp, live0, freed0)
    {
      NextToFree(nodes, k);
      assert nodes[k..][0] == nodes[k] && nodes[k..][1..] == nodes[k + 1..];
      temp := e.next;
      d.head := temp;
      d.nodes := d.nodes[1..];
      FreeNode(e);
    }

    /** destroy_shim_dir */
    method DestroyShimDir(d: ShimDir)
      requires d.Valid() && heap.Valid() && d in heap.live
      requires forall i :: 0 <= i < |d.nodes| ==> d.nodes[i] in heap.live && Payload(d.nodes[i]) in heap.live
      modifies heap, d
      ensures heap.Valid() && heap.freed == old(heap.freed) + FreedBy(old(d.nodes)) + [d]
      ensures forall x :: x in heap.live <==> x in old(heap.live) && x !in FreedBy(old(d.nodes)) && x != d
    {
      ghost var nodes, live0, freed0 := d.nodes, heap.live, heap.freed;
      ghost var k := 0;
      var e := d.head;
      StartsDestroying(d);
      while e != null
        invariant 0 <= k <= |nodes| && Destroying(d, nodes, k, e, live0, freed0)
        decreases |nodes| - k
      {
        e := DestroyNext(d, e, nodes, k, live0, freed0);
        k := k + 1;
      }
      assert nodes[..k] == nodes;
      FreedByHolds(nodes);
      heap.Free(d);
    }

    lemma StartsDestroying(d: ShimDir)
      requires d.Valid() && heap.Valid()
      ensures Destroying(d, d.nodes, 0, d.head, heap.live, heap.freed)
    {
      assert d.nodes[0..] == d.nodes;
    }

    lemma OwnBlocksLive(d: ShimDir)
      requires Valid() && d in dirs
      ensures d.Valid() && forall i :: 0 <= i < |d.nodes| ==> d.nodes[i] in heap.live && Payload(d.nodes[i]) in heap.live
    {
    }

    twostate lemma CloseKeepsLists(d: ShimDir)
      requires old(ListsValid()) && d in old(dirs)
      requires dirs == old(dirs) - {d} && handed == old(handed) && OthersUnchanged(d)
      requires forall x :: x in heap.live <==> x in old(heap.live) && x !in FreedBy(old(d.nodes)) && x != d
      ensures ListsValid()
    {
      var nodes := old(d.nodes);
      FreedByHolds(nodes);
      forall c | c in dirs ensures c in heap.live && c.Valid() && c.nodes == old(c.nodes) {
        assert old(c.Valid());
      }
      forall c, i | c in dirs && 0 <= i < |c.nodes|
        ensures c.nodes[i] in heap.live
        ensures Payload(c.nodes[i]) in handed && handed[Payload(c.nodes[i])].dir == c
      {
        assert old(handed)[Payload(c.nodes[i])].dir == c;
      }
    }

    twostate lemma CloseKeepsHanded(d: ShimDir)
      requires old(ListsValid() && HandedValid()) && ListsValid() && d in old(dirs)
      requires dirs == old(dirs) - {d} && handed == old(handed) && OthersUnchanged(d)
      requires forall q :: q in old(handed) ==> q.value == old(q.value)
      requires heap.freed == old(heap.freed) + FreedBy(old(d.nodes)) + [d]
      requires forall x :: x in heap.live <==> x in old(heap.live) && x !in FreedBy(old(d.nodes)) && x != d
      ensures HandedValid()
    {
      FreedOfDir(d);
      forall p | p in handed && handed[p].dir !in dirs ensures p in heap.freed {
        if handed[p].dir == d { assert p in FreedBy(old(d.nodes)); }
      }
    }

    /** What closedir frees among the pointers handed out are those of its directory. */
    twostate lemma FreedOfDir(d: ShimDir)
      requires old(ListsValid() && HandedValid()) && d in old(dirs) && handed == old(handed)
      ensures forall p :: p in handed && (handed[p].dir == d || handed[p].dir in old(dirs)) ==>
        (handed[p].dir == d <==> p in FreedBy(old(d.nodes)))
    {
      var nodes := old(d.nodes);
      FreedByHolds(nodes);
      forall p | p in handed && handed[p].dir == d ensures p in FreedBy(nodes) {
        var i :| 0 <= i < |nodes| && Payload(nodes[i]) == p;
      }
    }
  }

  // ----- Every run

  /** One call of a client; directories are numbered in the order they were opened. */
  datatype Op =
    | Open(entries: seq<NativeDirent>)
    | Read(k: nat, wide: bool)
    | ReadR(k: nat)
    | SeekTo(k: nat, position: nat)
    | Close(k: nat)

  /** A pointer readdir returned: from which directory, and what it held at that moment. */
  datatype Issued = Issued(p: Entry, k: nat, value: LinuxDirent)

  ghost predicate Recorded(handed: map<Entry, Handed>, handles: seq<ShimDir>, r: Issued) {
    r.k < |handles| && r.p in handed && handed[r.p] == Handed(handles[r.k], r.value)
  }

  ghost predicate LogRecorded(handed: map<Entry, Handed>, handles: seq<ShimDir>, log: seq<Issued>) {
    forall j :: 0 <= j < |log| ==> Recorded(handed, handles, log[j])
  }

  /** What was handed out stays recorded, whatever is handed out or opened later. */
  lemma LogKept(handed: map<Entry, Handed>, handed': map<Entry, Handed>, handles: seq<ShimDir>, handles': seq<ShimDir>, log: seq<Issued>)
    requires LogRecorded(handed, handles, log) && handles <= handles'
    requires forall p :: p in handed ==> p in handed' && handed'[p] == handed[p]
    ensures LogRecorded(handed', handles', log)
  {
  }

  lemma LogMore(handed: map<Entry, Handed>, handles: seq<ShimDir>, log: seq<Issued>, r: Issued)
    requires LogRecorded(handed, handles, log) && Recorded(handed, handles, r)
    ensures LogRecorded(handed, handles, log + [r])
  {
  }

  /** The same calls on values: each stream with its position, and the native entries readdir came to, in order. */
  datatype Stream = Stream(entries: seq<NativeDirent>, position: nat, isOpen: bool)

  datatype Model = Model(streams: seq<Stream>, issued: seq<(nat, NativeDirent)>)

  function ModelStep(m: Model, op: Op): Model {
    match op
    case Open(entries) => m.(streams := m.streams + [Stream(entries, 0, true)])
    case Read(k, _) =>
      if k < |m.streams| && m.streams[k].isOpen && m.streams[k].position < |m.streams[k].entries| then
        Model(Advance(m.streams, k), m.issued + [(k, m.streams[k].entries[m.streams[k].position])])
      else m
    case ReadR(k) =>
      if k < |m.streams| && m.streams[k].isOpen && m.streams[k].position < |m.streams[k].entries| then
        m.(streams := Advance(m.streams, k))
      else m
    case SeekTo(k, position) =>
      if k < |m.streams| && m.streams[k].isOpen then
        m.(streams := m.streams[k := m.streams[k].(position := position)])
      else m
    case Close(k) =>
      if k < |m.streams| && m.streams[k].isOpen then m.(streams := m.streams[k := m.streams[k].(isOpen := false)]) else m
  }

  function Advance(streams: seq<Stream>, k: nat): (r: seq<Stream>)
    requires k < |streams|
    ensures |r| == |streams|
  {
    streams[k := streams[k].(position := streams[k].position + 1)]
  }

  function ModelRun(ops: seq<Op>): Model {
    if ops == [] then Model([], []) else ModelStep(ModelRun(ops[..|ops| - 1]), ops[|ops| - 1])
  }

  /** What a client knows between two calls. */
  datatype Client = Client(handles: seq<ShimDir>, isOpen: seq<bool>, log: seq<Issued>)

  ghost function Streams(handles: seq<ShimDir>): set<NativeDir> { set k | 0 <= k < |handles| :: handles[k].dir }

  ghost predicate Consistent(sys: Directories, c: Client)
    reads sys
  {
    && |c.isOpen| == |c.handles|
    && (forall k, l :: 0 <= k < l < |c.handles| ==> c.handles[k] != c.handles[l] && c.handles[k].dir != c.handles[l].dir)
    && (forall k :: 0 <= k < |c.handles| ==> (c.isOpen[k] <==> c.handles[k] in sys.dirs))
    && LogRecorded(sys.handed, c.handles, c.log)
  }

  /** The client is where the model is, and was told of the entries the model came to. */
  ghost predicate Matches(c: Client, m: Model)
    reads Streams(c.handles)
  {
    && |m.streams| == |c.handles| == |c.isOpen| && |m.issued| == |c.log|
    && (forall k :: 0 <= k < |c.handles| ==>
          && c.handles[k].dir in Streams(c.handles)
          && m.streams[k] == Stream(c.handles[k].dir.entries, c.handles[k].dir.position, c.isOpen[k]))
    && (forall j :: 0 <= j < |c.log| ==> m.issued[j].0 == c.log[j].k && Tells(c.log[j].value, m.issued[j].1))
  }

  /** readdir or readdir64 */
  method ReadEither(sys: Directories, d: ShimDir, wide: bool) returns (p: Entry?)
    requires sys.Valid() && d in sys.dirs
    modifies sys, sys.heap, d, d.dir
    ensures sys.Valid() && sys.dirs == old(sys.dirs)
    ensures var at := old(d.dir.position);
      if at < |d.dir.entries| then
        && p != null && fresh(p) && p.value == Copied(d.dir.entries[at]) && Tells(p.value, d.dir.entries[at])
        && d.dir.position == at + 1
        && sys.handed == old(sys.handed)[p := Handed(d, Copied(d.dir.entries[at]))]
      else p == null && sys.handed == old(sys.handed) && d.dir.position == at
  {
    if wide { p := sys.ReadDir64(d); } else { p := sys.ReadDir(d); }
  }

  method DoRead(sys: Directories, c: Client, k: nat, wide: bool, ghost m: Model) returns (c': Client)
    requires sys.Valid() && Consistent(sys, c) && k < |c.handles| && c.isOpen[k] && Matches(c, m)
    modifies sys, sys.heap, c.handles[k], c.handles[k].dir
    ensures sys.Valid() && Consistent(sys, c') && sys.dirs == old(sys.dirs) && c'.handles == c.handles
    ensures Matches(c', ModelStep(m, Read(k, wide)))
    ensures forall p :: p in sys.handed ==> p in old(sys.handed) || fresh(p)
  {
    hide Tells, Copied, LogRecorded;
    var p := ReadEither(sys, c.handles[k], wide);
    c' := c;
    LogKept(old(sys.handed), sys.handed, c.handles, c.handles, c.log);
    if p != null {
      LogMore(sys.handed, c.handles, c.log, Issued(p, k, p.value));
      c' := c.(log := c.log + [Issued(p, k, p.value)]);
    }
  }

  method DoReadR(sys: Directories, c: Client, k: nat, buffer: Entry, ghost m: Model)
    requires sys.Valid() && Consistent(sys, c) && k < |c.handles| && c.isOpen[k] && Matches(c, m) && buffer !in sys.handed
    modifies c.handles[k].dir, buffer
    ensures sys.Valid() && Consistent(sys, c) && Matches(c, ModelStep(m, ReadR(k)))
  {
    var _ := sys.ReadDirR(c.handles[k], buffer);
  }

  /** opendir on a directory with these entries */
  method OpenStream(sys: Directories, entries: seq<NativeDirent>) returns (d: ShimDir)
    requires sys.Valid()
    modifies sys, sys.heap
    ensures sys.Valid() && fresh(d) && fresh(d.dir) && d.dir.entries == entries && d.dir.position == 0
    ensures sys.dirs == old(sys.dirs) + {d} && sys.handed == old(sys.handed)
  {
    var stream := new NativeDir(entries);
    d := sys.OpenDir(stream);
  }

  /** A new stream stands at its first entry. */
  lemma OpenMatches(c: Client, m: Model, d: ShimDir, entries: seq<NativeDirent>)
    requires Matches(c, m) && d.dir.entries == entries && d.dir.position == 0
    ensures Matches(Client(c.handles + [d], c.isOpen + [true], c.log), ModelStep(m, Open(entries)))
  {
    assert forall k :: 0 <= k < |c.handles| ==> c.handles[k].dir in Streams(c.handles) && (c.handles + [d])[k] == c.handles[k];
  }

  method DoOpen(sys: Directories, c: Client, entries: seq<NativeDirent>, ghost m: Model) returns (c': Client)
    requires sys.Valid() && Consistent(sys, c) && Matches(c, m)
    modifies sys, sys.heap
    ensures sys.Valid() && Consistent(sys, c') && sys.handed == old(sys.handed)
    ensures Matches(c', ModelStep(m, Open(entries)))
    ensures |c'.handles| == |c.handles| + 1 && c'.handles[..|c.handles|] == c.handles && fresh(c'.handles[|c.handles|].dir)
    ensures forall d :: d in sys.dirs ==> d in old(sys.dirs) || fresh(d)
  {
    hide LogRecorded, ModelStep;
    var d := OpenStream(sys, entries);
    c' := Client(c.handles + [d], c.isOpen + [true], c.log);
    LogKept(old(sys.handed), sys.handed, c.handles, c'.handles, c.log);
    OpenMatches(c, m, d, entries);
  }

  method DoClose(sys: Directories, c: Client, k: nat, ghost m: Model) returns (c': Client)
    requires sys.Valid() && Consistent(sys, c) && k < |c.handles| && c.isOpen[k] && Matches(c, m)
    modifies sys, sys.heap, c.handles[k]
    ensures sys.Valid() && Consistent(sys, c') && sys.dirs <= old(sys.dirs) && sys.handed == old(sys.handed)
    ensures Matches(c', ModelStep(m, Close(k))) && c'.handles == c.handles
  {
    sys.CloseDir(c.handles[k]);
    c' := c.(isOpen := c.isOpen[k := false]);
    LogKept(old(sys.handed), sys.handed, c.handles, c.handles, c.log);
  }

  method DoOp(sys: Directories, c: Client, op: Op, buffer: Entry, ghost m: Model) returns (c': Client)
    requires sys.Valid() && Consistent(sys, c) && Matches(c, m) && buffer !in sys.handed
    modifies sys, sys.heap, sys.dirs, Streams(c.handles), buffer
    ensures sys.Valid() && Consistent(sys, c') && Matches(c', ModelStep(m, op)) && buffer !in sys.handed
    ensures forall d :: d in sys.dirs ==> d in old(sys.dirs) || fresh(d)
    ensures forall d :: d in Streams(c'.handles) ==> d in Streams(c.handles) || fresh(d)
  {
    c' := c;
    match op
    case Open(entries) => c' := DoOpen(sys, c, entries, m);
    case Read(k, wide) => if k < |c.handles| && c.isOpen[k] { c' := DoRead(sys, c, k, wide, m); }
    case ReadR(k) => if k < |c.handles| && c.isOpen[k] { DoReadR(sys, c, k, buffer, m); }
    case SeekTo(k, position) => if k < |c.handles| && c.isOpen[k] { sys.Seek(c.handles[k], position); }
    case Close(k) => if k < |c.handles| && c.isOpen[k] { c' := DoClose(sys, c, k, m); }
  }

  /** Any sequence of calls on any number of directories gives what the model gives. At the end, every
      pointer readdir has returned is live and holds what it held, if its directory is still open, and was
      freed once if it is not. Calls on a directory that is not open are not made. */
  method Run(ops: seq<Op>) returns (sys: Directories, c: Client)
    ensures sys.Valid() && Matches(c, ModelRun(ops))
    ensures forall k :: 0 <= k < |c.handles| ==> (c.isOpen[k] <==> c.handles[k] in sys.dirs)
    ensures forall i :: 0 <= i < |c.log| ==>
      && c.log[i].k < |c.handles|
      && (if c.isOpen[c.log[i].k] then c.log[i].p in sys.heap.live && c.log[i].p.value == c.log[i].value
          else c.log[i].p in sys.heap.freed && c.log[i].p !in sys.heap.live)
  {
    sys := new Directories();
    c := Client([], [], []);
    var buffer := new Entry(Copied(NativeDirent(0, 0, 0, 0, "")));
    for i := 0 to |ops|
      invariant sys.Valid() && Consistent(sys, c) && Matches(c, ModelRun(ops[..i])) && buffer !in sys.handed
      invariant fresh(sys) && fresh(sys.heap) && fresh(sys.dirs) && fresh(buffer) && fresh(Streams(c.handles))
    {
      assert ops[..i + 1][..i] == ops[..i];
      c := DoOp(sys, c, ops[i], buffer, ModelRun(ops[..i]));
    }
    assert ops[..|ops|] == ops;
    forall j | 0 <= j < |c.log| ensures Recorded(sys.handed, c.handles, c.log[j]) {}
  }
}
