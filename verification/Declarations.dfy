/** parse_prototype and define of src/prototypes.rb: the parts of a prototype become a name and a type each.
    Every regular expression of the script is a hand-written match, for texts of one line. */
module Declarations {
  import opened Wrappers
  import opened Text
  import opened Splitter

  /** {name: name, type: type}; nil is None. */
  datatype Decl = Decl(name: Option<string>, kind: Option<string>)

  datatype Function = Function(name: Option<string>, kind: Option<string>, args: seq<Decl>)

  // /\*\srestrict$/
  predicate EndsWithStarRestrict(s: string) {
    EndsWith(s, "restrict") && |s| >= 10 && IsSpace(s[|s| - 9]) && s[|s| - 10] == '*'
  }

  /** How many of the first characters are white space. */
  function SpacePrefix(s: string): (k: nat)
    ensures k <= |s|
  {
    if s != "" && IsSpace(s[0]) then 1 + SpacePrefix(s[1..]) else 0
  }

  // The end of a function pointer, \)\s*(\([^\)]+\))$ : where the parenthesis that closes the name is, and
  // the parameter list, which contains no other closing parenthesis.
  function ParameterList(s: string): (r: Option<(nat, string)>)
    ensures r.Some? ==> r.value.0 < |s|
  {
    if s == "" || s[|s| - 1] != ')' then None
    else match LastIndex(s[..|s| - 1], ')')
      case None => None
      case Some(q) =>
        var j := q + 1 + SpacePrefix(s[q + 1..]);
        if j + 2 < |s| && s[j] == '(' then Some((q, s[j..])) else None
  }

  // /^(.+)?\([\*\^](\w+)\)\s*(\([^\)]+\))$/ : prefix, name and parameter list.
  function FunctionPointerDecl(s: string): Option<(string, string, string)> {
    match ParameterList(s)
    case None => None
    case Some((q, params)) =>
      var k := WordStart(s[..q]);
      if k < q && k >= 2 && (s[k - 1] == '*' || s[k - 1] == '^') && s[k - 2] == '(' then
        Some((s[..k - 2], s[k..q], params))
      else None
  }

  // /^(.+?)(\w+)$/ : the name is the longest word suffix that leaves a character before it.
  function NamedDecl(s: string): Option<(string, string)> {
    if |s| >= 2 && IsWord(s[|s| - 1]) then
      var k := if WordStart(s) == 0 then 1 else WordStart(s);
      Some((s[..k], s[k..]))
    else None
  }

  // (\[(\d*|restrict)\])$ : what is before the brackets, and the brackets.
  function Brackets(s: string): (r: Option<(string, string)>)
    ensures r.Some? ==> r.value.0 + r.value.1 == s
  {
    if s == "" || s[|s| - 1] != ']' then None
    else match LastIndex(s, '[')
      case None => None
      case Some(k) =>
        var inner := s[k + 1..|s| - 1];
        if AllDigits(inner) || inner == "restrict" then Some((s[..k], s[k..])) else None
  }

  // /^(.+?)(\w+)(\[(\d*|restrict)\])$/
  function ArrayDecl(s: string): Option<(string, string, string)> {
    match Brackets(s)
    case None => None
    case Some((body, brackets)) =>
      match NamedDecl(body)
      case None => None
      case Some((before, name)) => Some((before, name, brackets))
  }

  /** One part of a prototype, at position i among the parts that are not empty; None where the script
      raises, because no case matches or because the prefix of a function pointer is nil. */
  function ParseDecl(i: nat, decl: string): Option<Decl> {
    if EndsWith(decl, "*") || EndsWithStarRestrict(decl) then Some(Decl(Some("_arg_" + Digits(i)), Some(decl)))
    else if decl == "void" then Some(Decl(None, Some("void")))
    else if decl == "..." then Some(Decl(Some("..."), None))
    else if decl != "" && NoSpace(decl) then Some(Decl(Some("_arg_" + Digits(i)), Some(decl)))
    else if FunctionPointerDecl(decl).Some? then
      var (before, name, params) := FunctionPointerDecl(decl).value;
      if before == "" then None else Some(Decl(Some(name), Some(before + "(*)" + params)))
    else if NamedDecl(decl).Some? then
      var (before, name) := NamedDecl(decl).value;
      Some(Decl(Some(name), Some(Strip(before))))
    else match ArrayDecl(decl)
      case None => None
      case Some((before, name, brackets)) => Some(Decl(Some(name), Some(before + brackets)))
  }

  /** The names that parameters without one are given differ from place to place. */
  lemma ArgNamesDiffer(i: nat, k: nat)
    ensures "_arg_" + Digits(i) == "_arg_" + Digits(k) <==> i == k
  {
    ValueOfDigits(i);
    ValueOfDigits(k);
    assert ("_arg_" + Digits(i))[5..] == Digits(i) && ("_arg_" + Digits(k))[5..] == Digits(k);
  }

  function NonEmpty(parts: seq<string>): seq<string> {
    if parts == [] then [] else (if parts[0] == "" then [] else [parts[0]]) + NonEmpty(parts[1..])
  }

  function ParseDecls(i: nat, parts: seq<string>): Option<seq<Decl>>
    decreases |parts|
  {
    if parts == [] then Some([])
    else match (ParseDecl(i, parts[0]), ParseDecls(i + 1, parts[1..]))
      case (Some(d), Some(ds)) => Some([d] + ds)
      case _ => None
  }

  /** parse_prototype: the first part names the function, the others its arguments. */
  function ParsePrototype(prototype: string): Option<Function> {
    match Split(prototype)
    case None => None
    case Some(parts) =>
      match ParseDecls(0, NonEmpty(parts))
      case None => None
      case Some(ds) => if ds == [] then None else Some(Function(ds[0].name, ds[0].kind, ds[1..]))
  }

  // ----- The table of functions

  /** The function the prototype declares is an entry of the table, and was none before. */
  ghost predicate Entered(before: map<Option<string>, Function>, table: map<Option<string>, Function>, prototype: string) {
    && ParsePrototype(prototype).Some?
    && var fn := ParsePrototype(prototype).value;
       fn.name !in before && fn.name in table && table[fn.name] == fn
  }

  /** The global $functions. */
  class FunctionTable {
    var table: map<Option<string>, Function>

    constructor ()
      ensures table == map[]
    {
      table := map[];
    }

    /** define: every prototype becomes an entry under its name. It stops at the first prototype that
        does not parse or whose name is taken; what was entered before stays. */
    method Define(prototypes: seq<string>) returns (ok: bool)
      modifies this
      ensures ok <==> DefinedCount(old(table), prototypes) == |prototypes|
      ensures forall n :: n in old(table) ==> n in table && table[n] == old(table)[n]
      ensures forall i :: 0 <= i < DefinedCount(old(table), prototypes) ==> Entered(old(table), table, prototypes[i])
      ensures |table| == |old(table)| + DefinedCount(old(table), prototypes)
    {
      hide ParsePrototype;
      var i := 0;
      while i < |prototypes|
        invariant 0 <= i <= |prototypes|
        invariant DefinedCount(old(table), prototypes) == i + DefinedCount(table, prototypes[i..])
        invariant forall n :: n in old(table) ==> n in table && table[n] == old(table)[n]
        invariant forall k :: 0 <= k < i ==> Entered(old(table), table, prototypes[k])
        invariant |table| == |old(table)| + i
      {
        assert prototypes[i..][0] == prototypes[i] && prototypes[i..][1..] == prototypes[i + 1..];
        var parsed := ParsePrototype(prototypes[i]);
        if parsed.None? || parsed.value.name in table { return false; }
        ghost var before := table;
        table := table[parsed.value.name := parsed.value];
        forall k | 0 <= k < i ensures Entered(old(table), table, prototypes[k]) {
          assert Entered(old(table), before, prototypes[k]);
        }
        i := i + 1;
      }
      assert prototypes[i..] == [];
      ok := true;
    }
  }

  /** How many prototypes are entered before one fails to parse or repeats a name. */
  function DefinedCount(table: map<Option<string>, Function>, prototypes: seq<string>): (n: nat)
    ensures n <= |prototypes|
    decreases |prototypes|
  {
    if prototypes == [] then 0
    else match ParsePrototype(prototypes[0])
      case None => 0
      case Some(fn) => if fn.name in table then 0 else 1 + DefinedCount(table[fn.name := fn], prototypes[1..])
  }
}
