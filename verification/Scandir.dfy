/** scandir and scandir64 (src/libc/dirent.c): copy every entry, keep the selected ones in an array that
    doubles when it is full, and sort it. On amd64 the two functions differ in nothing but names. */
module Scandir {
  import opened Wrappers
  import opened Memory
  import opened Dirent

  type Selector = LinuxDirent -> bool
  type Comparator = (LinuxDirent, LinuxDirent) -> int

  const INITIAL_CAPACITY: nat := 32

  predicate Selected(select: Option<Selector>, e: LinuxDirent) { select.None? || select.value(e) }

  /** The copies that are kept, in library order. */
  function Kept(entries: seq<NativeDirent>, select: Option<Selector>): seq<LinuxDirent> {
    if entries == [] then []
    else
      var last := Copied(entries[|entries| - 1]);
      Kept(entries[..|entries| - 1], select) + (if Selected(select, last) then [last] else [])
  }

  /** What qsort asks of a comparator. */
  ghost predicate TotalPreorder(compare: Comparator) {
    && (forall x, y :: compare(x, y) <= 0 || compare(y, x) <= 0)
    && (forall x, y, z :: compare(x, y) <= 0 && compare(y, z) <= 0 ==> compare(x, z) <= 0)
  }

  ghost predicate SortedBy(compare: Comparator, entries: seq<Entry>)
    reads entries
  {
    forall i, j :: 0 <= i < j < |entries| ==> compare(entries[i].value, entries[j].value) <= 0
  }

  lemma InsertedIsSorted(sorted: seq<Entry>, x: Entry, k: nat, compare: Comparator)
    requires SortedBy(compare, sorted) && k <= |sorted|
    requires forall i :: 0 <= i < k ==> compare(sorted[i].value, x.value) <= 0
    requires forall i :: k <= i < |sorted| ==> compare(x.value, sorted[i].value) <= 0
    ensures SortedBy(compare, sorted[..k] + [x] + sorted[k..])
  {
  }

  lemma InsertionPoint(sorted: seq<Entry>, x: Entry, k: nat, compare: Comparator)
    requires TotalPreorder(compare) && SortedBy(compare, sorted) && k <= |sorted|
    requires k > 0 ==> compare(sorted[k - 1].value, x.value) <= 0
    requires k < |sorted| ==> compare(x.value, sorted[k].value) <= 0
    ensures forall i :: 0 <= i < k ==> compare(sorted[i].value, x.value) <= 0
    ensures forall i :: k <= i < |sorted| ==> compare(x.value, sorted[i].value) <= 0
  {
  }

  lemma InsertedIsPermutation(s: seq<Entry>, x: Entry, k: nat)
    requires k <= |s|
    ensures multiset(s[..k] + [x] + s[k..]) == multiset(s) + multiset{x}
  {
    assert s == s[..k] + s[k..];
  }

  method InsertSorted(sorted: seq<Entry>, x: Entry, compare: Comparator) returns (r: seq<Entry>)
    requires TotalPreorder(compare) && SortedBy(compare, sorted)
    ensures SortedBy(compare, r) && multiset(r) == multiset(sorted) + multiset{x}
  {
    var k := |sorted|;
    while k > 0 && compare(sorted[k - 1].value, x.value) > 0
      invariant 0 <= k <= |sorted|
      invariant k < |sorted| ==> compare(x.value, sorted[k].value) <= 0
    {
      k := k - 1;
    }
    InsertionPoint(sorted, x, k, compare);
    InsertedIsSorted(sorted, x, k, compare);
    InsertedIsPermutation(sorted, x, k);
    r := sorted[..k] + [x] + sorted[k..];
  }

  method SortedCopy(entries: seq<Entry>, compare: Comparator) returns (r: seq<Entry>)
    requires TotalPreorder(compare)
    ensures SortedBy(compare, r) && multiset(r) == multiset(entries)
  {
    r := [];
    for i := 0 to |entries|
      invariant SortedBy(compare, r) && multiset(r) == multiset(entries[..i])
    {
      r := InsertSorted(r, entries[i], compare);
      assert entries[..i + 1] == entries[..i] + [entries[i]];
    }
    assert entries[..|entries|] == entries;
  }

  method Load(a: array<Entry?>, n: nat, ghost order: seq<Entry>) returns (r: seq<Entry>)
    requires n == |order| <= a.Length && forall i :: 0 <= i < n ==> a[i] == order[i]
    ensures r == order
  {
    r := [];
    for i := 0 to n
      invariant r == order[..i]
    {
      r := r + [a[i]];
    }
  }

  method Store(a: array<Entry?>, r: seq<Entry>)
    requires |r| <= a.Length
    modifies a
    ensures forall i :: 0 <= i < |r| ==> a[i] == r[i]
  {
    for i := 0 to |r|
      invariant forall k :: 0 <= k < i ==> a[k] == r[k]
    {
      a[i] := r[i];
    }
  }

  /** The contract of the C library's qsort: the first n elements, which are `order`, are permuted in
      place and sorted. */
  method QSort(a: array<Entry?>, n: nat, compare: Comparator, ghost order: seq<Entry>) returns (ghost sorted: seq<Entry>)
    requires TotalPreorder(compare) && n == |order| <= a.Length && forall i :: 0 <= i < n ==> a[i] == order[i]
    modifies a
    ensures |sorted| == n && forall i :: 0 <= i < n ==> a[i] == sorted[i]
    ensures SortedBy(compare, sorted) && multiset(sorted) == multiset(order)
  {
    var r := Load(a, n, order);
    r := SortedCopy(r, compare);
    assert |multiset(r)| == |multiset(order)|;
    Store(a, r);
    sorted := r;
  }

  /** The copies that are not kept. */
  function Rejected(entries: seq<NativeDirent>, select: Option<Selector>): seq<LinuxDirent> {
    if entries == [] then []
    else
      var last := Copied(entries[|entries| - 1]);
      Rejected(entries[..|entries| - 1], select) + (if Selected(select, last) then [] else [last])
  }

  /** The capacity that doubling from c gives for n items. */
  function CapacityFor(n: nat, c: nat): (r: nat)
    requires c > 0
    ensures r >= n && r >= c && (n > c ==> r < 2 * n)
    decreases if n > c then n - c else 0
  {
    if n <= c then c else CapacityFor(n, 2 * c)
  }

  lemma {:induction false} CapacityGrows(n: nat, c: nat)
    requires c > 0
    ensures CapacityFor(n + 1, c) == if n < CapacityFor(n, c) then CapacityFor(n, c) else 2 * CapacityFor(n, c)
    decreases if n > c then n - c else 0
  {
    if n > c {
      CapacityGrows(n, 2 * c);
    }
  }

  /** Whether the filter is there and refuses what it is told of an entry. */
  ghost predicate Refused(select: Option<Selector>, e: NativeDirent) {
    select.Some? && forall told :: Tells(told, e) ==> !select.value(told)
  }

  /** The picked ones are what is told of the entries at idx, in their order, which are those that are refused, or those
      that are not. */
  ghost predicate PickedAt(entries: seq<NativeDirent>, select: Option<Selector>, refused: bool, picked: seq<LinuxDirent>, idx: seq<int>) {
    && |idx| == |picked|
    && (forall i, j :: 0 <= i < j < |idx| ==> idx[i] < idx[j])
    && (forall i :: 0 <= i < |idx| ==> 0 <= idx[i] < |entries| && Tells(picked[i], entries[idx[i]]))
    && forall j :: 0 <= j < |entries| ==> (j in idx <==> Refused(select, entries[j]) == refused)
  }

  ghost predicate Picks(entries: seq<NativeDirent>, select: Option<Selector>, refused: bool, picked: seq<LinuxDirent>) {
    exists idx :: PickedAt(entries, select, refused, picked, idx)
  }

  lemma RefusedIs(select: Option<Selector>, e: NativeDirent)
    ensures Refused(select, e) <==> !Selected(select, Copied(e))
  {
    CopiedTells(e);
    forall told | Tells(told, e) ensures told == Copied(e) {
      assert told.name == e.name[..|told.name|] && Copied(e).name == e.name[..|told.name|];
    }
  }

  lemma PicksMore(entries: seq<NativeDirent>, e: NativeDirent, select: Option<Selector>, refused: bool, picked: seq<LinuxDirent>)
    requires Picks(entries, select, refused, picked)
    ensures Refused(select, e) == refused ==> Picks(entries + [e], select, refused, picked + [Copied(e)])
    ensures Refused(select, e) != refused ==> Picks(entries + [e], select, refused, picked)
  {
    CopiedTells(e);
    var idx :| PickedAt(entries, select, refused, picked, idx);
    hide Refused, Tells, Copied;
    if Refused(select, e) == refused {
      assert PickedAt(entries + [e], select, refused, picked + [Copied(e)], idx + [|entries|]);
    } else {
      assert PickedAt(entries + [e], select, refused, picked, idx);
    }
  }

  /** The two recursive functions pick what the filter accepts, and what it refuses. */
  lemma {:induction false} KeptAndRejectedPick(entries: seq<NativeDirent>, select: Option<Selector>)
    ensures Picks(entries, select, false, Kept(entries, select)) && Picks(entries, select, true, Rejected(entries, select))
    decreases |entries|
  {
    if entries == [] {
      assert PickedAt(entries, select, false, [], []) && PickedAt(entries, select, true, [], []);
    } else {
      var init, last := entries[..|entries| - 1], entries[|entries| - 1];
      assert entries == init + [last];
      KeptAndRejectedPick(init, select);
      RefusedIs(select, last);
      PicksMore(init, last, select, false, Kept(init, select));
      PicksMore(init, last, select, true, Rejected(init, select));
      Unfolded(init, last, select);
      hide *;
    }
  }

  lemma Unfolded(init: seq<NativeDirent>, last: NativeDirent, select: Option<Selector>)
    ensures Kept(init + [last], select)
      == if Selected(select, Copied(last)) then Kept(init, select) + [Copied(last)] else Kept(init, select)
    ensures Rejected(init + [last], select)
      == if Selected(select, Copied(last)) then Rejected(init, select) else Rejected(init, select) + [Copied(last)]
  {
    assert (init + [last])[..|init|] == init;
  }

  /** The values of the blocks are the given ones. */
  ghost predicate Holds(blocks: seq<Entry>, values: seq<LinuxDirent>)
    reads blocks
  {
    |blocks| == |values| && forall i :: 0 <= i < |blocks| ==> blocks[i].value == values[i]
  }

  ghost function Values(blocks: seq<Entry>): seq<LinuxDirent>
    reads blocks
  {
    seq(|blocks|, i requires 0 <= i < |blocks| reads blocks => blocks[i].value)
  }

  ghost function Blocks(s: seq<Entry>): set<object> { set e: Entry | e in s :: e as object }

  lemma BlocksAppend(s: seq<Entry>, e: Entry)
    ensures Blocks(s + [e]) == Blocks(s) + {e}
  {
    assert forall x :: x in s + [e] <==> x in s || x == e;
    assert Blocks(s + [e]) == set x: Entry | x in s || x == e :: x as object;
  }

  lemma SetOfAppend(s: seq<object>, x: object)
    ensures SetOf(s + [x]) == SetOf(s) + {x}
  {
  }

  /** The array scandir fills: `struct { linux_dirent** arr; int len; } out` and the item count. The ghost
      fields are the blocks kept, in library order, the blocks rejected, and the outgrown arrays. */
  class NameList {
    var arr: array<Entry?>
    var nitems: nat
    ghost var kept: seq<Entry>
    ghost var rejected: seq<Entry>
    ghost var grown: seq<object>

    constructor ()
      ensures fresh(arr) && arr.Length == INITIAL_CAPACITY && nitems == 0 && kept == [] && rejected == [] && grown == []
      ensures Filled()
    {
      arr := new Entry?[INITIAL_CAPACITY](_ => null);
      nitems, kept, rejected, grown := 0, [], [], [];
    }

    /** The array holds the kept entries, in its first slots, and has the capacity doubling gives. */
    ghost predicate Filled()
      reads this, arr
    {
      && nitems == |kept| <= arr.Length == CapacityFor(nitems, INITIAL_CAPACITY)
      && forall i :: 0 <= i < nitems ==> arr[i] == kept[i]
    }

    /** Every block is accounted for: the kept ones and the array are live, the rejected ones and the
        outgrown arrays were freed, each once. */
    ghost predicate Accounted(heap: Heap, live0: set<object>, freed0: set<object>)
      reads this, heap
    {
      && heap.Valid()
      && heap.live == live0 + Blocks(kept) + {arr}
      && SetOf(heap.freed) == freed0 + Blocks(rejected) + SetOf(grown)
      && NoDuplicates(kept) && NoDuplicates(rejected)
    }

    /** realloc to twice the size. */
    method Grow(heap: Heap)
      requires nitems == |kept| <= arr.Length && forall i :: 0 <= i < nitems ==> arr[i] == kept[i]
      requires heap.Valid() && arr in heap.live
      modifies this`arr, this`grown, heap
      ensures fresh(arr) && arr.Length == 2 * old(arr.Length) && forall i :: 0 <= i < nitems ==> arr[i] == kept[i]
      ensures heap.Valid() && heap.live == old(heap.live) + {arr} - {old(arr)} && heap.freed == old(heap.freed) + [old(arr)]
      ensures grown == old(grown) + [old(arr)]
    {
      var bigger := new Entry?[arr.Length * 2](_ => null);
      for i := 0 to nitems
        modifies bigger
        invariant forall k :: 0 <= k < i ==> bigger[k] == kept[k]
      {
        bigger[i] := arr[i];
      }
      heap.Track(bigger);
      heap.Free(arr);
      grown := grown + [arr];
      arr := bigger;
    }

    /** The doubling in front of a new item. */
    method MakeRoom(heap: Heap)
      requires Filled() && heap.Valid() && arr in heap.live
      modifies this`arr, this`grown, heap
      ensures nitems < arr.Length == CapacityFor(nitems + 1, INITIAL_CAPACITY) && forall i :: 0 <= i < nitems ==> arr[i] == kept[i]
      ensures arr == old(arr) || fresh(arr)
      ensures heap.Valid() && heap.live == old(heap.live) - {old(arr)} + {arr}
      ensures var outgrown: set<object> := if arr == old(arr) then {} else {old(arr)};
        && SetOf(heap.freed) == SetOf(old(heap.freed)) + outgrown
        && SetOf(grown) == SetOf(old(grown)) + outgrown
    {
      CapacityGrows(nitems, INITIAL_CAPACITY);
      hide CapacityFor;
      if nitems >= arr.Length {
        SetOfAppend(heap.freed, arr);
        SetOfAppend(grown, arr);
        Grow(heap);
      }
    }

    /** out.arr[nitems++] = linux_entry */
    method Put(e: Entry)
      requires nitems == |kept| < arr.Length == CapacityFor(nitems + 1, INITIAL_CAPACITY)
      requires forall i :: 0 <= i < nitems ==> arr[i] == kept[i]
      modifies this`nitems, this`kept, arr
      ensures Filled() && kept == old(kept) + [e]
    {
      hide CapacityFor;
      arr[nitems] := e;
      kept := kept + [e];
      nitems := nitems + 1;
    }

    /** The new copy is selected: out.arr[nitems++] = linux_entry, with the doubling in front. */
    method Keep(heap: Heap, e: Entry, ghost live0: set<object>, ghost freed0: set<object>)
      requires Filled() && Accounted(heap, live0, freed0) && e !in kept && e !in heap.freed
      requires arr !in live0
      modifies this`arr, this`nitems, this`kept, this`grown, arr, heap
      ensures Filled() && kept == old(kept) + [e]
      ensures Accounted(heap, live0, freed0)
      ensures arr == old(arr) || fresh(arr)
    {
      heap.Track(e);
      hide CapacityFor, Blocks, SetOf;
      MakeRoom(heap);
      BlocksAppend(kept, e);
      Put(e);
    }

    /** The new copy is not selected: free(linux_entry). */
    method Reject(heap: Heap, e: Entry, ghost live0: set<object>, ghost freed0: set<object>)
      requires Filled() && Accounted(heap, live0, freed0) && e !in rejected && e !in heap.freed && e !in heap.live
      modifies this`rejected, heap
      ensures Filled() && rejected == old(rejected) + [e]
      ensures Accounted(heap, live0, freed0)
    {
      SetOfAppend(heap.freed, e);
      BlocksAppend(rejected, e);
      heap.Track(e);
      heap.Free(e);
      rejected := rejected + [e];
    }
  }

  /** What the loop has done with the first entries of the listing. */
  ghost predicate Split(entries: seq<NativeDirent>, select: Option<Selector>, kept: seq<Entry>, rejected: seq<Entry>)
    reads kept, rejected
  {
    Holds(kept, Kept(entries, select)) && Holds(rejected, Rejected(entries, select))
  }

  /** scandir on a directory with the given listing, or on one that cannot be opened. The ghost results are
      the blocks kept in library order, the blocks rejected, and the arrays outgrown. */
  method ScanDir(heap: Heap, listing: Option<seq<NativeDirent>>, select: Option<Selector>, compar: Option<Comparator>)
    returns (n: int, namelist: array?<Entry?>, ghost kept: seq<Entry>, ghost rejected: seq<Entry>,
      ghost grown: seq<object>, ghost final: seq<Entry>)
    requires heap.Valid() && (compar.Some? ==> TotalPreorder(compar.value))
    modifies heap
    ensures listing.None? ==> n == -1 && heap.live == old(heap.live) && heap.freed == old(heap.freed)
    ensures listing.Some? ==>
      && namelist != null && n == |kept| == |final| && n <= namelist.Length == CapacityFor(|kept|, 32)
      && Split(listing.value, select, kept, rejected)
      && Picks(listing.value, select, false, Values(kept)) && Picks(listing.value, select, true, Values(rejected))
      && (forall i :: 0 <= i < |final| ==> namelist[i] == final[i])
      && multiset(final) == multiset(kept) && NoDuplicates(kept)
      && (compar.Some? ==> SortedBy(compar.value, final))
      && (compar.None? ==> final == kept)
    ensures listing.Some? ==>
      && heap.Valid() && heap.live == old(heap.live) + Blocks(kept) + {namelist}
      && SetOf(heap.freed) == SetOf(old(heap.freed)) + Blocks(rejected) + SetOf(grown)
  {
    kept, rejected, grown, final := [], [], [], [];
    if listing.None? { return -1, null, kept, rejected, grown, final; }
    ghost var live0, freed0 := heap.live, SetOf(heap.freed);
    var dir := new NativeDir(listing.value);
    var out := FillList(heap, dir, select, live0, freed0);
    kept, rejected, grown := out.kept, out.rejected, out.grown;
    final := kept;
    if out.nitems > 0 && compar.Some? {
      final := QSort(out.arr, out.nitems, compar.value, kept);
    }
    n, namelist := out.nitems, out.arr;
    KeptAndRejectedPick(listing.value, select);
    assert Values(kept) == Kept(listing.value, select) && Values(rejected) == Rejected(listing.value, select);
    hide Picks, Kept, Rejected;
  }

  lemma SplitExtends(entries: seq<NativeDirent>, i: nat, select: Option<Selector>, kept: seq<Entry>, rejected: seq<Entry>, x: Entry)
    requires i < |entries| && Split(entries[..i], select, kept, rejected) && x.value == Copied(entries[i])
    ensures if Selected(select, x.value) then Split(entries[..i + 1], select, kept + [x], rejected)
            else Split(entries[..i + 1], select, kept, rejected + [x])
  {
    assert entries[..i + 1][..i] == entries[..i];
  }

  /** One round of the readdir loop: copy, then keep or free. */
  method AddCopy(out: NameList, heap: Heap, e: NativeDirent, select: Option<Selector>,
      ghost entries: seq<NativeDirent>, ghost i: nat, ghost live0: set<object>, ghost freed0: set<object>)
    requires out.Filled() && out.Accounted(heap, live0, freed0) && i < |entries| && e == entries[i]
    requires out.arr !in live0
    requires Split(entries[..i], select, out.kept, out.rejected)
    modifies out, out.arr, heap
    ensures out.Filled() && out.Accounted(heap, live0, freed0)
    ensures out.arr == old(out.arr) || fresh(out.arr)
    ensures Split(entries[..i + 1], select, out.kept, out.rejected)
  {
    hide NameList.Filled, CapacityFor, Blocks, Split, Copied, Selected;
    var entry := new Entry(Copied(e));
    SplitExtends(entries, i, select, out.kept, out.rejected, entry);
    if Selected(select, entry.value) {
      out.Keep(heap, entry, live0, freed0);
    } else {
      out.Reject(heap, entry, live0, freed0);
    }
  }

  /** The readdir loop. */
  method FillList(heap: Heap, dir: NativeDir, select: Option<Selector>, ghost live0: set<object>, ghost freed0: set<object>)
    returns (out: NameList)
    requires heap.Valid() && live0 == heap.live && freed0 == SetOf(heap.freed) && dir.position == 0
    modifies heap, dir
    ensures fresh(out) && fresh(out.arr) && out.Filled() && out.Accounted(heap, live0, freed0)
    ensures Split(dir.entries, select, out.kept, out.rejected)
  {
    out := NewList(heap, live0, freed0);
    ghost var entries := dir.entries;
    var e := dir.ReadDir();
    ghost var i := 0;
    while e.Some?
      invariant i <= |entries| && At(dir, entries, e, i)
      invariant fresh(out) && fresh(out.arr) && out.Filled() && out.Accounted(heap, live0, freed0)
      invariant Split(entries[..i], select, out.kept, out.rejected)
      decreases |entries| - i
    {
      AddCopy(out, heap, e.value, select, entries, i, live0, freed0);
      e := dir.ReadDir();
      i := i + 1;
    }
    assert entries[..i] == entries;
  }

  /** The listing was read up to entry i, which is e. */
  ghost predicate At(dir: NativeDir, entries: seq<NativeDirent>, e: Option<NativeDirent>, i: nat)
    reads dir
  {
    && dir.entries == entries && i <= |entries|
    && (e.Some? <==> i < |entries|)
    && (e.Some? ==> e.value == entries[i] && dir.position == i + 1)
  }

  method NewList(heap: Heap, ghost live0: set<object>, ghost freed0: set<object>) returns (out: NameList)
    requires heap.Valid() && live0 == heap.live && freed0 == SetOf(heap.freed)
    modifies heap
    ensures fresh(out) && fresh(out.arr) && out.Filled() && out.Accounted(heap, live0, freed0)
    ensures out.kept == [] && out.rejected == []
  {
    out := new NameList();
    heap.Track(out.arr);
  }
}
