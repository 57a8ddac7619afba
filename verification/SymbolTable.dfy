/** The table of glibc's symbols: built from the symbols of its libraries and printed by
    utils/find_glibc_symbols.rb. A Ruby hash is the sequence of its entries in the order of insertion. */
module SymbolTable {
  import opened Wrappers
  import opened Text
  import opened Memory

  datatype Kind = Fun | Obj
  datatype Symbol = Symbol(kind: Kind, versions: seq<string>)
  type Entries = seq<(string, Symbol)>

  ghost predicate Unique(e: Entries) { forall i, j :: 0 <= i < j < |e| ==> e[i].0 != e[j].0 }

  /** Where an entry is. */
  function IndexOf(e: Entries, name: string): (k: Option<nat>)
    ensures k.Some? ==> k.value < |e| && e[k.value].0 == name
    ensures k.None? ==> forall i :: 0 <= i < |e| ==> e[i].0 != name
  {
    if e == [] then None
    else if e[|e| - 1].0 == name then Some(|e| - 1)
    else IndexOf(e[..|e| - 1], name)
  }

  /** symbols[name] = symbol: an entry keeps its place. */
  function Put(e: Entries, name: string, symbol: Symbol): (r: Entries)
    ensures Unique(e) ==> Unique(r)
    ensures IndexOf(e, name).None? ==> r == e + [(name, symbol)]
  {
    match IndexOf(e, name)
    case None => e + [(name, symbol)]
    case Some(k) => e[k := (name, symbol)]
  }

  // ----- Building

  /** A line of readelf: name, version and type of a symbol that a library defines. */
  datatype Row = Row(name: string, version: string, elfType: string)

  /** The case over the types; None is its raise. */
  function KindOf(elfType: string): Option<Kind> {
    if elfType == "FUNC" || elfType == "IFUNC" || elfType == "OS+0" then Some(Fun)
    else if elfType == "OBJECT" then Some(Obj)
    else None
  }

  /** The types of the two kinds. */
  predicate IsOfKind(elfType: string, kind: Kind) {
    match kind
    case Fun => elfType in {"FUNC", "IFUNC", "OS+0"}
    case Obj => elfType == "OBJECT"
  }

  predicate IsKnown(elfType: string) { elfType in {"FUNC", "IFUNC", "OS+0", "OBJECT"} }

  predicate KnownTypes(rows: seq<Row>) { forall i :: 0 <= i < |rows| ==> IsKnown(rows[i].elfType) }

  lemma KindIs(elfType: string)
    ensures KindOf(elfType).Some? <==> IsKnown(elfType)
    ensures forall kind :: KindOf(elfType) == Some(kind) <==> IsOfKind(elfType, kind)
  {
  }

  /** The versions under which the rows have a name: each once, in the order they came. */
  function VersionsOf(rows: seq<Row>, name: string): (vs: seq<string>)
    ensures NoDuplicates(vs)
    ensures forall v :: v in vs <==> exists i :: 0 <= i < |rows| && rows[i].name == name && rows[i].version == v
  {
    if rows == [] then []
    else
      var init, last := rows[..|rows| - 1], rows[|rows| - 1];
      var before := VersionsOf(init, name);
      assert rows == init + [last];
      if last.name == name && last.version !in before then before + [last.version] else before
  }

  /** The first row decides what a symbol is. */
  function FirstRow(rows: seq<Row>, name: string): (k: Option<nat>)
    ensures k.Some? ==> k.value < |rows| && rows[k.value].name == name && forall i :: 0 <= i < k.value ==> rows[i].name != name
    ensures k.None? ==> forall i :: 0 <= i < |rows| ==> rows[i].name != name
  {
    if rows == [] then None
    else match FirstRow(rows[..|rows| - 1], name)
      case Some(k) => Some(k)
      case None => if rows[|rows| - 1].name == name then Some(|rows| - 1) else None
  }

  /** The entry says what the rows say about its name. */
  ghost predicate EntryIs(rows: seq<Row>, entry: (string, Symbol)) {
    && entry.1.versions == VersionsOf(rows, entry.0)
    && FirstRow(rows, entry.0).Some? && IsOfKind(rows[FirstRow(rows, entry.0).value].elfType, entry.1.kind)
  }

  /** The entries are exactly the names of the rows. */
  ghost predicate TableOf(rows: seq<Row>, e: Entries) {
    Unique(e) && EntriesAre(rows, e) && NamesIn(rows, e)
  }

  ghost predicate EntriesAre(rows: seq<Row>, e: Entries) { forall k :: 0 <= k < |e| ==> EntryIs(rows, e[k]) }

  ghost predicate NamesIn(rows: seq<Row>, e: Entries) { forall i :: 0 <= i < |rows| ==> IndexOf(e, rows[i].name).Some? }

  lemma FirstRowOfName(rows: seq<Row>, row: Row, kind: Kind)
    requires FirstRow(rows, row.name).None? && IsOfKind(row.elfType, kind)
    ensures VersionsOf(rows, row.name) == [] && EntryIs(rows + [row], (row.name, Symbol(kind, [row.version])))
  {
    assert (rows + [row])[..|rows|] == rows;
    assert VersionsOf(rows, row.name) == [] || VersionsOf(rows, row.name)[0] in VersionsOf(rows, row.name);
  }

  class SymbolHash {
    var entries: Entries

    constructor ()
      ensures entries == []
    {
      entries := [];
    }

    /** The body of the loop over the lines. */
    method Insert(row: Row, ghost rows: seq<Row>) returns (ok: bool)
      requires TableOf(rows, entries)
      modifies this
      ensures ok <==> IsKnown(row.elfType)
      ensures ok ==> TableOf(rows + [row], entries)
    {
      var kind := KindOf(row.elfType);
      KindIs(row.elfType);
      hide IsOfKind, IsKnown, KindOf;
      if kind.None? { return false; }
      if IndexOf(entries, row.name).None? {
        entries := Put(entries, row.name, Symbol(kind.value, []));
      }
      var k := IndexOf(entries, row.name).value;
      var symbol := entries[k].1;
      if row.version !in symbol.versions {
        entries := Put(entries, row.name, symbol.(versions := symbol.versions + [row.version]));
      }
      ok := true;
      PutTwice(old(entries), row.name, kind.value, row.version);
      assert entries == WithRow(old(entries), row, kind.value);
      Inserted(rows, row, old(entries), kind.value);
    }

    /** The loops over the libraries and their lines. */
    method Build(rows: seq<Row>) returns (ok: bool)
      requires entries == []
      modifies this
      ensures ok <==> KnownTypes(rows)
      ensures ok ==> TableOf(rows, entries)
    {
      for i := 0 to |rows|
        invariant KnownTypes(rows[..i]) && TableOf(rows[..i], entries)
      {
        assert rows[..i + 1] == rows[..i] + [rows[i]];
        ok := Insert(rows[i], rows[..i]);
        if !ok { return; }
      }
      assert rows[..|rows|] == rows;
      ok := true;
    }
  }

  /** The table a row makes of a table. */
  function WithRow(e: Entries, row: Row, kind: Kind): Entries {
    match IndexOf(e, row.name)
    case None => e + [(row.name, Symbol(kind, [row.version]))]
    case Some(k) =>
      if row.version in e[k].1.versions then e
      else e[k := (row.name, e[k].1.(versions := e[k].1.versions + [row.version]))]
  }

  lemma PutTwice(e: Entries, name: string, kind: Kind, version: string)
    ensures IndexOf(e, name).None? ==>
      && IndexOf(e + [(name, Symbol(kind, []))], name) == Some(|e|)
      && Put(e + [(name, Symbol(kind, []))], name, Symbol(kind, [] + [version])) == e + [(name, Symbol(kind, [version]))]
  {
    assert [] + [version] == [version];
  }

  lemma WithRowEntry(rows: seq<Row>, row: Row, e: Entries, kind: Kind, k: nat)
    requires Unique(e) && k < |e| && EntryIs(rows, e[k])
    ensures EntryIs(rows + [row], WithRow(e, row, kind)[k])
  {
  }

  lemma WithRowEntries(rows: seq<Row>, row: Row, e: Entries, kind: Kind)
    requires TableOf(rows, e) && IsOfKind(row.elfType, kind)
    ensures EntriesAre(rows + [row], WithRow(e, row, kind))
  {
    forall k | 0 <= k < |e| ensures EntryIs(rows + [row], WithRow(e, row, kind)[k]) { WithRowEntry(rows, row, e, kind, k); }
    if IndexOf(e, row.name).None? {
      NewName(rows, row, e);
      FirstRowOfName(rows, row, kind);
    }
  }

  lemma WithRowUnique(e: Entries, row: Row, kind: Kind)
    requires Unique(e)
    ensures Unique(WithRow(e, row, kind))
  {
  }

  /** Names that were there stay. */
  lemma WithRowName(e: Entries, row: Row, kind: Kind, n: string)
    requires n == row.name || IndexOf(e, n).Some?
    ensures IndexOf(WithRow(e, row, kind), n).Some?
  {
    var e' := WithRow(e, row, kind);
    assert e'[if IndexOf(e, n).None? then |e| else IndexOf(e, n).value].0 == n;
  }

  lemma Inserted(rows: seq<Row>, row: Row, e: Entries, kind: Kind)
    requires TableOf(rows, e) && IsOfKind(row.elfType, kind)
    ensures TableOf(rows + [row], WithRow(e, row, kind))
  {
    WithRowEntries(rows, row, e, kind);
    WithRowUnique(e, row, kind);
    forall i | 0 <= i < |rows + [row]| ensures IndexOf(WithRow(e, row, kind), (rows + [row])[i].name).Some? {
      if i < |rows| { assert IndexOf(e, rows[i].name).Some?; }
      WithRowName(e, row, kind, (rows + [row])[i].name);
    }
    assert NamesIn(rows + [row], WithRow(e, row, kind));
  }

  lemma NewName(rows: seq<Row>, row: Row, e: Entries)
    requires NamesIn(rows, e) && IndexOf(e, row.name).None?
    ensures FirstRow(rows, row.name).None?
  {
  }

  // ----- Sorting and printing

  /** The order of strings */
  predicate AtMost(a: string, b: string) {
    a == "" || (b != "" && (a[0] < b[0] || (a[0] == b[0] && AtMost(a[1..], b[1..]))))
  }

  /** One begins the other, or the first characters that differ decide. */
  lemma {:induction false} AtMostIs(a: string, b: string)
    ensures AtMost(a, b) <==> a <= b || exists k :: 0 <= k < |a| && k < |b| && a[..k] == b[..k] && a[k] < b[k]
  {
    if a != "" && b != "" && a[0] == b[0] {
      AtMostIs(a[1..], b[1..]);
      if AtMost(a, b) && !(a[1..] <= b[1..]) {
        var k :| 0 <= k < |a[1..]| && k < |b[1..]| && a[1..][..k] == b[1..][..k] && a[1..][k] < b[1..][k];
        assert a[..k + 1] == [a[0]] + a[1..][..k] && b[..k + 1] == [b[0]] + b[1..][..k];
        assert a[k + 1] < b[k + 1];
      }
      if k :| 0 < k < |a| && k < |b| && a[..k] == b[..k] && a[k] < b[k] {
        assert a[1..][..k - 1] == a[..k][1..] && b[1..][..k - 1] == b[..k][1..];
        assert a[1..][k - 1] < b[1..][k - 1];
      }
    } else if a != "" && b != "" {
      assert a[..0] == b[..0];
      forall k | 0 < k < |a| && k < |b| ensures a[..k] != b[..k] { assert a[..k][0] == a[0] && b[..k][0] == b[0]; }
    }
  }

  ghost predicate Ordered(s: seq<string>) { forall i, j :: 0 <= i < j < |s| ==> AtMost(s[i], s[j]) }

  lemma {:induction false} AtMostTotal(a: string, b: string)
    ensures AtMost(a, b) || AtMost(b, a)
  {
    if a != "" && b != "" && a[0] == b[0] { AtMostTotal(a[1..], b[1..]); }
  }

  lemma {:induction false} AtMostTransitive(a: string, b: string, c: string)
    requires AtMost(a, b) && AtMost(b, c)
    ensures AtMost(a, c)
  {
    if a != "" && b[0] == a[0] == c[0] { AtMostTransitive(a[1..], b[1..], c[1..]); }
  }

  function InsertInOrder(x: string, s: seq<string>): (r: seq<string>)
    ensures |r| == |s| + 1 && multiset(r) == multiset(s) + multiset{x}
  {
    if s == [] then [x]
    else if AtMost(x, s[0]) then [x] + s
    else
      assert s == [s[0]] + s[1..];
      [s[0]] + InsertInOrder(x, s[1..])
  }

  /** Array#sort */
  function Sort(s: seq<string>): (r: seq<string>)
    ensures |r| == |s| && multiset(r) == multiset(s)
  {
    if s == [] then []
    else
      assert s == [s[0]] + s[1..];
      InsertInOrder(s[0], Sort(s[1..]))
  }

  lemma {:induction false} InsertKeepsOrder(x: string, s: seq<string>)
    requires Ordered(s)
    ensures Ordered(InsertInOrder(x, s))
  {
    if s != [] && AtMost(x, s[0]) {
      forall j | 0 <= j < |s| ensures AtMost(x, s[j]) {
        if j > 0 { AtMostTransitive(x, s[0], s[j]); }
      }
    } else if s != [] {
      var rest := InsertInOrder(x, s[1..]);
      InsertKeepsOrder(x, s[1..]);
      AtMostTotal(x, s[0]);
      forall j | 0 <= j < |rest| ensures AtMost(s[0], rest[j]) {
        assert rest[j] in multiset(rest);
        if rest[j] != x { assert rest[j] in s[1..]; }
      }
    }
  }

  lemma {:induction false} SortOrders(s: seq<string>)
    ensures Ordered(Sort(s))
  {
    if s != [] {
      SortOrders(s[1..]);
      InsertKeepsOrder(s[0], Sort(s[1..]));
    }
  }

  lemma SortKeepsDistinct(s: seq<string>)
    requires NoDuplicates(s)
    ensures NoDuplicates(Sort(s)) && forall x :: x in Sort(s) <==> x in s
  {
    var r := Sort(s);
    forall x ensures x in r <==> x in s { assert x in multiset(r) <==> x in multiset(s); }
    forall i, j | 0 <= i < j < |r| ensures r[i] != r[j] {
      if r[i] == r[j] {
        OccursOnce(s, r[i]);
        OccursTwice(r, i, j);
      }
    }
  }

  lemma {:induction false} OccursOnce(s: seq<string>, x: string)
    requires NoDuplicates(s)
    ensures multiset(s)[x] <= 1
  {
    if s != [] {
      assert s == [s[0]] + s[1..];
      OccursOnce(s[1..], x);
      if s[0] == x { assert x !in s[1..]; }
    }
  }

  lemma OccursTwice(s: seq<string>, i: nat, j: nat)
    requires i < j < |s| && s[i] == s[j]
    ensures multiset(s)[s[i]] >= 2
  {
    assert s == s[..i] + [s[i]] + s[i + 1..j] + [s[j]] + s[j + 1..];
  }

  function Names(e: Entries): (r: seq<string>)
    ensures |r| == |e| && forall i :: 0 <= i < |e| ==> r[i] == e[i].0
  {
    seq(|e|, i requires 0 <= i < |e| => e[i].0)
  }

  /** What is printed of a name: its kind, and its versions in order. */
  function SortedEntry(e: Entries, name: string): (r: (string, Symbol))
    ensures r.0 == name
  {
    match IndexOf(e, name)
    case None => (name, Symbol(Fun, []))
    case Some(k) => (name, Symbol(e[k].1.kind, Sort(e[k].1.versions)))
  }

  /** The table in the order in which it is printed. */
  function SortedEntries(e: Entries): (r: Entries)
    ensures |r| == |e|
  {
    var names := Sort(Names(e));
    seq(|names|, i requires 0 <= i < |names| => SortedEntry(e, names[i]))
  }

  function KindText(kind: Kind): string { if kind.Fun? then "fun" else "obj" }

  /** "fun name: v1, v2", with the end of the line */
  function LineOf(entry: (string, Symbol)): string {
    KindText(entry.1.kind) + " " + entry.0 + ": " + Join(entry.1.versions, ", ") + "\n"
  }

  function TextOf(e: Entries): string { if e == [] then "" else LineOf(e[0]) + TextOf(e[1..]) }

  /** The loop that prints. */
  method PrintTable(hash: SymbolHash) returns (text: string)
    ensures text == TextOf(SortedEntries(hash.entries))
  {
    var names := Sort(Names(hash.entries));
    ghost var sorted := SortedEntries(hash.entries);
    text := "";
    assert sorted[0..] == sorted;
    for i := 0 to |names|
      invariant text + TextOf(sorted[i..]) == TextOf(sorted)
    {
      NextLine(text, sorted, i);
      text := text + LineOf(SortedEntry(hash.entries, names[i]));
    }
  }

  lemma NextLine(text: string, e: Entries, i: nat)
    requires i < |e|
    ensures text + TextOf(e[i..]) == text + LineOf(e[i]) + TextOf(e[i + 1..])
  {
  }

  lemma EntryIsPrinted(rows: seq<Row>, e: Entries, name: string)
    requires EntriesAre(rows, e) && name in Names(e)
    ensures EntryPrinted(rows, SortedEntry(e, name))
  {
    var i := IndexOf(e, name).value;
    assert EntryIs(rows, e[i]);
    SortKeepsDistinct(e[i].1.versions);
    SortOrders(e[i].1.versions);
  }

  /** The printed table is the table: every entry once, under its name, with its kind and its versions. */
  lemma SortedIsTable(rows: seq<Row>, e: Entries)
    requires TableOf(rows, e)
    ensures Unique(SortedEntries(e)) && Ordered(Names(SortedEntries(e)))
    ensures forall k :: 0 <= k < |e| ==> EntryPrinted(rows, SortedEntries(e)[k])
    ensures forall i :: 0 <= i < |rows| ==> rows[i].name in Names(SortedEntries(e))
  {
    hide EntryPrinted, SortedEntry, Sort, Ordered, EntriesAre;
    var names, sorted := Sort(Names(e)), SortedEntries(e);
    SortKeepsDistinct(Names(e));
    SortOrders(Names(e));
    assert forall k :: 0 <= k < |e| ==> sorted[k].0 == names[k];
    assert Names(sorted) == names;
    forall k | 0 <= k < |e| ensures EntryPrinted(rows, sorted[k]) {
      assert names[k] in Names(e);
      EntryIsPrinted(rows, e, names[k]);
    }
    forall i | 0 <= i < |rows| ensures rows[i].name in names {
      assert Names(e)[IndexOf(e, rows[i].name).value] == rows[i].name;
    }
  }

  /** The entry says what the rows say about its name, with the versions in order. */
  ghost predicate EntryPrinted(rows: seq<Row>, entry: (string, Symbol)) {
    && NoDuplicates(entry.1.versions) && Ordered(entry.1.versions)
    && (forall v :: v in entry.1.versions <==> exists i :: 0 <= i < |rows| && rows[i].name == entry.0 && rows[i].version == v)
    && FirstRow(rows, entry.0).Some? && IsOfKind(rows[FirstRow(rows, entry.0).value].elfType, entry.1.kind)
  }
}
