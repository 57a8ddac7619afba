/** utils/symver.rb: reads the printed symbol table and mints an alias for every version of every symbol. */
module Symver {
  import opened Wrappers
  import opened Text
  import opened Memory
  import opened SymbolTable

  // ----- Reading

  /** String#lines: each line with its end. */
  function LinesOf(text: string): seq<string> { Cut("", text) }

  function Cut(line: string, rest: string): seq<string>
    decreases |rest|
  {
    if rest == "" then if line == "" then [] else [line]
    else if rest[0] == '\n' then [line + "\n"] + Cut("", rest[1..])
    else Cut(line + [rest[0]], rest[1..])
  }

  /** How many word characters a text begins with. */
  function WordRun(s: string): (k: nat)
    ensures k <= |s| && AllWord(s[..k]) && (k < |s| ==> !IsWord(s[k]))
  {
    if s != "" && IsWord(s[0]) then
      var k := WordRun(s[1..]);
      assert s[..k + 1] == [s[0]] + s[1..][..k];
      k + 1
    else 0
  }

  /** How far the line goes. */
  function LineRun(s: string): (k: nat)
    ensures k <= |s|
  {
    if s != "" && s[0] != '\n' then LineRun(s[1..]) + 1 else 0
  }

  // (fun|obj) (\w+): (.+) at the beginning of the text
  function MatchHere(s: string): Option<(Kind, string, string)> {
    if |s| < 4 || (s[..4] != "fun " && s[..4] != "obj ") then None
    else
      var rest := s[4..];
      var k := WordRun(rest);
      if k == 0 || |rest| < k + 2 || rest[k] != ':' || rest[k + 1] != ' ' then None
      else
        var tail := rest[k + 2..];
        if LineRun(tail) == 0 then None
        else Some((if s[0] == 'f' then Fun else Obj, rest[..k], tail[..LineRun(tail)]))
  }

  /** =~ takes the leftmost place where the expression matches. */
  function Match(s: string): Option<(Kind, string, string)> {
    if MatchHere(s).Some? then MatchHere(s) else if s == "" then None else Match(s[1..])
  }

  function SplitAt(part: string, rest: string): seq<string>
    decreases |rest|
  {
    if rest == "" then [part]
    else if |rest| >= 2 && rest[0] == ',' && rest[1] == ' ' then [part] + SplitAt("", rest[2..])
    else SplitAt(part + [rest[0]], rest[1..])
  }

  function DropEmpty(parts: seq<string>): seq<string> {
    if parts != [] && parts[|parts| - 1] == "" then DropEmpty(parts[..|parts| - 1]) else parts
  }

  /** split(', '): empty strings at the end are dropped. */
  function SplitCommas(s: string): seq<string> { DropEmpty(SplitAt("", s)) }

  /** A line of the table; None where symver.rb fails on it. */
  function ParseLine(line: string): Option<(string, Symbol)> {
    match Match(Strip(line))
    case None => None
    case Some(m) => Some((m.1, Symbol(m.0, SplitCommas(m.2))))
  }

  /** The table after the lines, from a table before them. */
  function ReadAll(lines: seq<string>, e: Entries): Option<Entries>
    decreases |lines|
  {
    if lines == [] then Some(e)
    else match ParseLine(lines[0])
      case None => None
      case Some(entry) => ReadAll(lines[1..], Put(e, entry.0, entry.1))
  }

  /** The loop that fills the hash. */
  method ReadTable(text: string) returns (hash: SymbolHash, ok: bool)
    ensures fresh(hash) && (ok <==> ReadAll(LinesOf(text), []).Some?)
    ensures ok ==> Some(hash.entries) == ReadAll(LinesOf(text), [])
  {
    hash := new SymbolHash();
    var lines := LinesOf(text);
    assert lines[0..] == lines;
    for i := 0 to |lines|
      invariant ReadAll(lines, []) == ReadAll(lines[i..], hash.entries)
      modifies hash
    {
      assert lines[i..][0] == lines[i] && lines[i..][1..] == lines[i + 1..];
      var entry := ParseLine(lines[i]);
      if entry.None? { return hash, false; }
      hash.entries := Put(hash.entries, entry.value.0, entry.value.1);
    }
    assert lines[|lines|..] == [];
    ok := true;
  }

  // ----- What was printed is read back

  /** What the versions of the table are made of: neither commas nor white space. */
  predicate Token(s: string) { s != "" && forall i :: 0 <= i < |s| ==> s[i] != ',' && !IsSpace(s[i]) }

  predicate Printable(entry: (string, Symbol)) {
    && entry.0 != "" && AllWord(entry.0)
    && entry.1.versions != [] && forall k :: 0 <= k < |entry.1.versions| ==> Token(entry.1.versions[k])
  }

  lemma {:induction false} SplitOfToken(part: string, s: string, rest: string)
    requires forall i :: 0 <= i < |s| ==> s[i] != ','
    ensures SplitAt(part, s + rest) == SplitAt(part + s, rest)
    decreases |s|
  {
    if s == "" {
      assert s + rest == rest && part + s == part;
    } else {
      assert (s + rest)[0] == s[0] && (s + rest)[1..] == s[1..] + rest;
      assert part + [s[0]] + s[1..] == part + s;
      SplitOfToken(part + [s[0]], s[1..], rest);
    }
  }

  lemma {:induction false} SplitOfJoin(parts: seq<string>)
    requires parts != [] && forall k :: 0 <= k < |parts| ==> Token(parts[k])
    ensures SplitAt("", Join(parts, ", ")) == parts
    decreases |parts|
  {
    var p := parts[0];
    assert "" + p == p;
    if |parts| == 1 {
      assert p + "" == p;
      SplitOfToken("", p, "");
    } else {
      var rest := ", " + Join(parts[1..], ", ");
      assert Join(parts, ", ") == p + rest;
      SplitOfToken("", p, rest);
      assert rest[0] == ',' && rest[1] == ' ' && rest[2..] == Join(parts[1..], ", ");
      SplitOfJoin(parts[1..]);
    }
  }

  /** The list of the versions has no line end, and white space on neither end. */
  lemma {:induction false} JoinedTokens(parts: seq<string>)
    requires parts != [] && forall k :: 0 <= k < |parts| ==> Token(parts[k])
    ensures Stripped(Join(parts, ", ")) && '\n' !in Join(parts, ", ")
    decreases |parts|
  {
    if |parts| > 1 {
      JoinedTokens(parts[1..]);
      var j := Join(parts[1..], ", ");
      assert Join(parts, ", ") == parts[0] + ", " + j;
      assert (parts[0] + ", " + j)[|parts[0] + ", " + j| - 1] == j[|j| - 1];
      assert (parts[0] + ", " + j)[0] == parts[0][0];
    }
  }

  lemma {:induction false} WordRunIs(w: string, rest: string)
    requires AllWord(w) && (rest == "" || !IsWord(rest[0]))
    ensures WordRun(w + rest) == |w|
    decreases |w|
  {
    if w == "" {
      assert w + rest == rest;
    } else {
      assert (w + rest)[0] == w[0] && (w + rest)[1..] == w[1..] + rest;
      WordRunIs(w[1..], rest);
    }
  }

  lemma {:induction false} LineRunIs(s: string)
    requires '\n' !in s
    ensures LineRun(s) == |s|
    decreases |s|
  {
    if s != "" {
      assert s[0] in s;
      assert forall c :: c in s[1..] ==> c in s;
      LineRunIs(s[1..]);
    }
  }

  /** A printed line without its end */
  function Body(entry: (string, Symbol)): string {
    KindText(entry.1.kind) + " " + entry.0 + ": " + Join(entry.1.versions, ", ")
  }

  lemma MatchOfBody(kind: Kind, name: string, list: string)
    requires name != "" && AllWord(name) && list != "" && '\n' !in list
    ensures Match(KindText(kind) + " " + name + ": " + list) == Some((kind, name, list))
  {
    var s := KindText(kind) + " " + name + ": " + list;
    var rest := name + ": " + list;
    assert |KindText(kind)| == 3 && s[0] == KindText(kind)[0];
    assert s[..4] == KindText(kind) + " " && s[4..] == rest;
    assert rest == name + (": " + list);
    WordRunIs(name, ": " + list);
    LineRunIs(list);
    assert rest[..|name|] == name && rest[|name| + 2..] == list && rest[|name|] == ':' && rest[|name| + 1] == ' ';
    assert list[..|list|] == list;
  }

  lemma StripLine(s: string)
    requires Stripped(s)
    ensures Strip(s + "\n") == s
  {
    assert (s + "\n")[0] == s[0] && (s + "\n")[..|s|] == s;
    assert LStrip(s + "\n") == s + "\n";
    assert RStrip(s) == s;
  }

  lemma LineIsBody(entry: (string, Symbol))
    requires Printable(entry)
    ensures LineOf(entry) == Body(entry) + "\n" && Stripped(Body(entry)) && '\n' !in Body(entry)
  {
    JoinedTokens(entry.1.versions);
    var list := Join(entry.1.versions, ", ");
    var b := Body(entry);
    assert b[0] == KindText(entry.1.kind)[0] && b[|b| - 1] == list[|list| - 1];
    assert '\n' !in KindText(entry.1.kind) && '\n' !in entry.0;
  }

  /** A printed line is read as the entry it was printed from. */
  lemma LineReadsBack(entry: (string, Symbol))
    requires Printable(entry)
    ensures ParseLine(LineOf(entry)) == Some(entry)
  {
    LineIsBody(entry);
    StripLine(Body(entry));
    JoinedTokens(entry.1.versions);
    MatchOfBody(entry.1.kind, entry.0, Join(entry.1.versions, ", "));
    SplitOfJoin(entry.1.versions);
  }

  lemma {:induction false} CutOfLine(line: string, s: string, rest: string)
    requires '\n' !in s
    ensures Cut(line, s + "\n" + rest) == [line + s + "\n"] + Cut("", rest)
    decreases |s|
  {
    var whole := s + "\n" + rest;
    if s == "" {
      assert whole == "\n" + rest && whole[1..] == rest && line + s == line;
    } else {
      assert s[0] in s && forall c :: c in s[1..] ==> c in s;
      assert whole[0] == s[0] && whole[1..] == s[1..] + "\n" + rest;
      CutOfLine(line + [s[0]], s[1..], rest);
      assert line + [s[0]] + s[1..] == line + s;
    }
  }

  lemma LinesOfText(e: Entries)
    requires e != [] && Printable(e[0])
    ensures LinesOf(TextOf(e)) == [LineOf(e[0])] + LinesOf(TextOf(e[1..]))
  {
    LineIsBody(e[0]);
    CutOfLine("", Body(e[0]), TextOf(e[1..]));
    assert "" + Body(e[0]) == Body(e[0]);
  }

  lemma NotYetIn(e: Entries, name: string)
    requires forall i :: 0 <= i < |e| ==> e[i].0 != name
    ensures IndexOf(e, name).None?
  {
  }

  /** A printed table is read as the table it was printed from, entry by entry. */
  lemma {:induction false} TableReadsBack(before: Entries, e: Entries)
    requires Unique(before + e) && forall k :: 0 <= k < |e| ==> Printable(e[k])
    ensures ReadAll(LinesOf(TextOf(e)), before) == Some(before + e)
    decreases |e|
  {
    if e == [] {
      assert before + e == before;
    } else {
      var lines := LinesOf(TextOf(e));
      LinesOfText(e);
      LineReadsBack(e[0]);
      assert lines[0] == LineOf(e[0]) && lines[1..] == LinesOf(TextOf(e[1..]));
      assert forall i :: 0 <= i < |before| ==> (before + e)[i] == before[i];
      assert (before + e)[|before|] == e[0];
      NotYetIn(before, e[0].0);
      assert before + [e[0]] + e[1..] == before + e;
      assert e[0] == (e[0].0, e[0].1);
      TableReadsBack(before + [e[0]], e[1..]);
    }
  }

  // ----- Aliases

  // What GLIBC_[0-9\.]+ matches, with /i: letters of any case.
  predicate IsVersion(v: string) {
    && |v| > 6
    && v[0] in {'G', 'g'} && v[1] in {'L', 'l'} && v[2] in {'I', 'i'} && v[3] in {'B', 'b'} && v[4] in {'C', 'c'} && v[5] == '_'
    && forall i :: 6 <= i < |v| ==> IsDigit(v[i]) || v[i] == '.'
  }

  /** gsub('.', '_') */
  function Underscored(v: string): (r: string)
    ensures |r| == |v| && forall i :: 0 <= i < |v| ==> r[i] == if v[i] == '.' then '_' else v[i]
  {
    seq(|v|, i requires 0 <= i < |v| => if v[i] == '.' then '_' else v[i])
  }

  function Alias(name: string, version: string): string { name + "_" + Underscored(version) }

  /** Where an alias changes from name to version: its last letter is the C of GLIBC. */
  lemma LastLetter(name: string, v: string)
    requires IsVersion(v)
    ensures var a := Alias(name, v);
      && |a| == |name| + 1 + |v| && a[|name| + 5] in {'C', 'c'}
      && forall i :: |name| + 5 < i < |a| ==> IsDigit(a[i]) || a[i] == '_'
  {
  }

  lemma UnderscoredDiffer(v: string, w: string)
    requires IsVersion(v) && IsVersion(w) && Underscored(v) == Underscored(w)
    ensures v == w
  {
  }

  /** Two aliases are equal only if both the symbols and the versions are, whatever the symbols are called. */
  lemma AliasesDiffer(name: string, v: string, other: string, w: string)
    requires IsVersion(v) && IsVersion(w)
    ensures Alias(name, v) == Alias(other, w) <==> name == other && v == w
  {
    if Alias(name, v) == Alias(other, w) {
      var a := Alias(name, v);
      LastLetter(name, v);
      LastLetter(other, w);
      assert |name| == |other|;
      assert name == a[..|name|] == other;
      assert a[|name| + 1..] == Underscored(v) == Underscored(w);
      UnderscoredDiffer(v, w);
    }
  }

  /** _GLIBC_ stands at k, in any case. */
  predicate MarkAt(s: string, k: nat) {
    && k + 7 <= |s|
    && s[k] == '_' && s[k + 1] in {'G', 'g'} && s[k + 2] in {'L', 'l'} && s[k + 3] in {'I', 'i'} && s[k + 4] in {'B', 'b'}
    && s[k + 5] in {'C', 'c'} && s[k + 6] == '_'
  }

  /** An alias is the name, an underscore and the version with underscores for dots. It contains the mark: so none
      is the name of a symbol that does not. */
  lemma AliasContainsMark(name: string, v: string)
    requires IsVersion(v)
    ensures exists k :: MarkAt(Alias(name, v), k)
    ensures var a := Alias(name, v);
      && |a| == |name| + 1 + |v| && a[..|name|] == name && a[|name|] == '_'
      && forall i :: 0 <= i < |v| ==> a[|name| + 1 + i] == if v[i] == '.' then '_' else v[i]
  {
    var a, k := Alias(name, v), |name|;
    assert a[k] == '_' && forall i :: 0 <= i < |v| ==> a[k + 1 + i] == Underscored(v)[i];
    assert a[k + 1] == a[k + 1 + 0] && a[k + 2] == a[k + 1 + 1] && a[k + 3] == a[k + 1 + 2];
    assert a[k + 4] == a[k + 1 + 3] && a[k + 5] == a[k + 1 + 4] && a[k + 6] == a[k + 1 + 5];
    assert MarkAt(a, k);
  }

  /** One line with .symver: the alias stands for this version of the symbol. */
  datatype Directive = Directive(alias: string, name: string, version: string)

  function DirectivesFor(entry: (string, Symbol)): (r: seq<Directive>)
    ensures |r| == |entry.1.versions|
    ensures forall k :: 0 <= k < |r| ==> r[k] == Directive(Alias(entry.0, entry.1.versions[k]), entry.0, entry.1.versions[k])
  {
    var vs := entry.1.versions;
    seq(|vs|, k requires 0 <= k < |vs| => Directive(Alias(entry.0, vs[k]), entry.0, vs[k]))
  }

  function Directives(e: Entries): seq<Directive> {
    if e == [] then [] else Directives(e[..|e| - 1]) + DirectivesFor(e[|e| - 1])
  }

  /** The loops that print. */
  method Emit(hash: SymbolHash) returns (out: seq<Directive>)
    ensures out == Directives(hash.entries)
  {
    out := [];
    var e := hash.entries;
    for i := 0 to |e|
      invariant out == Directives(e[..i])
    {
      assert e[..i + 1][..i] == e[..i];
      var lines: seq<Directive> := [];
      for k := 0 to |e[i].1.versions|
        invariant lines == DirectivesFor(e[i])[..k]
      {
        var version := e[i].1.versions[k];
        lines := lines + [Directive(Alias(e[i].0, version), e[i].0, version)];
      }
      out := out + lines;
    }
    assert e[..|e|] == e;
  }

  ghost predicate GoodEntry(entry: (string, Symbol)) {
    NoDuplicates(entry.1.versions) && forall k :: 0 <= k < |entry.1.versions| ==> IsVersion(entry.1.versions[k])
  }

  /** Every directive belongs to an entry and one of its versions. */
  lemma {:induction false} DirectiveOf(e: Entries, i: nat)
    requires i < |Directives(e)| && forall j :: 0 <= j < |e| ==> GoodEntry(e[j])
    ensures var d := Directives(e)[i];
      && IsVersion(d.version) && d.alias == Alias(d.name, d.version)
      && exists j :: 0 <= j < |e| && e[j].0 == d.name && d.version in e[j].1.versions
    decreases |e|
  {
    var init, last := e[..|e| - 1], e[|e| - 1];
    if i < |Directives(init)| {
      assert Directives(e)[i] == Directives(init)[i];
      DirectiveOf(init, i);
    } else {
      var k := i - |Directives(init)|;
      assert Directives(e)[i] == DirectivesFor(last)[k];
      assert GoodEntry(e[|e| - 1]) && last.1.versions[k] in last.1.versions;
    }
  }

  /** No alias is minted twice. */
  lemma {:induction false} AliasesDistinct(e: Entries)
    requires Unique(e) && forall j :: 0 <= j < |e| ==> GoodEntry(e[j])
    ensures forall i, k :: 0 <= i < k < |Directives(e)| ==> Directives(e)[i].alias != Directives(e)[k].alias
    decreases |e|
  {
    if e != [] {
      var init, last := e[..|e| - 1], e[|e| - 1];
      var n := |Directives(init)|;
      AliasesDistinct(init);
      assert GoodEntry(e[|e| - 1]);
      forall i, k | 0 <= i < k < |Directives(e)| ensures Directives(e)[i].alias != Directives(e)[k].alias {
        if k < n {
          assert Directives(e)[i] == Directives(init)[i] && Directives(e)[k] == Directives(init)[k];
        } else {
          assert Directives(e)[k] == DirectivesFor(last)[k - n];
          if i < n {
            assert Directives(e)[i] == Directives(init)[i];
            DirectiveOf(init, i);
            AliasesDiffer(Directives(e)[i].name, Directives(e)[i].version, last.0, last.1.versions[k - n]);
          } else {
            assert Directives(e)[i] == DirectivesFor(last)[i - n];
            AliasesDiffer(last.0, last.1.versions[i - n], last.0, last.1.versions[k - n]);
          }
        }
      }
    }
  }

  /** Every version of every entry has its directive. */
  lemma {:induction false} DirectiveFor(e: Entries, j: nat, v: string)
    requires j < |e| && v in e[j].1.versions
    ensures Directive(Alias(e[j].0, v), e[j].0, v) in Directives(e)
    decreases |e|
  {
    var init, last := e[..|e| - 1], e[|e| - 1];
    if j < |init| {
      DirectiveFor(init, j, v);
    } else {
      var k :| 0 <= k < |last.1.versions| && last.1.versions[k] == v;
      assert DirectivesFor(last)[k] == Directive(Alias(last.0, v), last.0, v);
      assert DirectivesFor(last)[k] in DirectivesFor(last);
    }
  }

  // ----- From the libraries to the aliases

  predicate GoodRow(row: Row) { row.name != "" && AllWord(row.name) && IsVersion(row.version) }

  lemma VersionIsToken(v: string)
    requires IsVersion(v)
    ensures Token(v)
  {
  }

  lemma PrintedIsGood(rows: seq<Row>, entry: (string, Symbol))
    requires EntryPrinted(rows, entry) && forall i :: 0 <= i < |rows| ==> GoodRow(rows[i])
    ensures Printable(entry) && GoodEntry(entry)
  {
    var first := FirstRow(rows, entry.0).value;
    assert GoodRow(rows[first]) && rows[first].version in entry.1.versions;
    forall k | 0 <= k < |entry.1.versions| ensures IsVersion(entry.1.versions[k]) && Token(entry.1.versions[k]) {
      assert entry.1.versions[k] in entry.1.versions;
      var i :| 0 <= i < |rows| && rows[i].name == entry.0 && rows[i].version == entry.1.versions[k];
      assert GoodRow(rows[i]);
      VersionIsToken(entry.1.versions[k]);
    }
  }

  ghost predicate NoAliasTwice(ds: seq<Directive>) { forall i, k :: 0 <= i < k < |ds| ==> ds[i].alias != ds[k].alias }

  ghost predicate HasDirective(ds: seq<Directive>, row: Row) {
    Directive(Alias(row.name, row.version), row.name, row.version) in ds
  }

  lemma {:induction false} RowHasDirective(rows: seq<Row>, e: Entries, i: nat)
    requires i < |rows| && rows[i].name in Names(e) && forall k :: 0 <= k < |e| ==> EntryPrinted(rows, e[k])
    ensures HasDirective(Directives(e), rows[i])
  {
    var j :| 0 <= j < |Names(e)| && Names(e)[j] == rows[i].name;
    assert EntryPrinted(rows, e[j]);
    DirectiveFor(e, j, rows[i].version);
  }

  ghost predicate FromRow(rows: seq<Row>, d: Directive) {
    exists i :: 0 <= i < |rows| && rows[i].name == d.name && rows[i].version == d.version && d.alias == Alias(d.name, d.version)
  }

  lemma DirectiveFromRow(rows: seq<Row>, e: Entries, i: nat)
    requires i < |Directives(e)| && forall k :: 0 <= k < |e| ==> EntryPrinted(rows, e[k]) && GoodEntry(e[k])
    ensures FromRow(rows, Directives(e)[i])
  {
    DirectiveOf(e, i);
    var d := Directives(e)[i];
    var j :| 0 <= j < |e| && e[j].0 == d.name && d.version in e[j].1.versions;
    assert EntryPrinted(rows, e[j]);
  }

  /** What is known of the directives for a printed table. */
  lemma DirectivesOfTable(rows: seq<Row>, table: Entries)
    requires TableOf(rows, table) && forall i :: 0 <= i < |rows| ==> GoodRow(rows[i])
    ensures ReadAll(LinesOf(TextOf(SortedEntries(table))), []) == Some(SortedEntries(table))
    ensures NoAliasTwice(Directives(SortedEntries(table)))
    ensures forall i :: 0 <= i < |rows| ==> HasDirective(Directives(SortedEntries(table)), rows[i])
    ensures forall i :: 0 <= i < |Directives(SortedEntries(table))| ==> FromRow(rows, Directives(SortedEntries(table))[i])
  {
    var e := SortedEntries(table);
    SortedIsTable(rows, table);
    forall k | 0 <= k < |e| ensures Printable(e[k]) && GoodEntry(e[k]) { PrintedIsGood(rows, e[k]); }
    assert [] + e == e;
    TableReadsBack([], e);
    AliasesDistinct(e);
    forall i | 0 <= i < |rows| ensures HasDirective(Directives(e), rows[i]) { RowHasDirective(rows, e, i); }
    forall i | 0 <= i < |Directives(e)| ensures FromRow(rows, Directives(e)[i]) { DirectiveFromRow(rows, e, i); }
  }

  /** Both scripts in a row, on the rows the first one's expression lets through: the second reads the very
      table the first has built, in order; no alias is minted twice; and the aliases are those of the names
      and versions of the rows, no more and no less. */
  method TableToAliases(rows: seq<Row>) returns (ok: bool, out: seq<Directive>)
    requires forall i :: 0 <= i < |rows| ==> GoodRow(rows[i])
    ensures ok <==> KnownTypes(rows)
    ensures ok ==> NoAliasTwice(out)
    ensures ok ==> forall i :: 0 <= i < |rows| ==> HasDirective(out, rows[i])
    ensures ok ==> forall i :: 0 <= i < |out| ==> FromRow(rows, out[i])
  {
    var built := new SymbolHash();
    ok := built.Build(rows);
    out := [];
    if !ok { return; }
    var text := PrintTable(built);
    DirectivesOfTable(rows, built.entries);
    var hash, read := ReadTable(text);
    out := Emit(hash);
  }
}
