/** utils/wrappers.rb: the C signature of a wrapper and the call it forwards. */
module WrapperGen {
  import opened Wrappers
  import opened Text
  import opened Splitter
  import opened Declarations
  import opened ShimTypes

  // ----- to_decl and the signature

  // /^(.+?)\s?(\[(\d*|restrict)\])$/ : the element type, and the brackets.
  function ArrayType(t: string): Option<(string, string)> {
    match Brackets(t)
    case None => None
    case Some((body, brackets)) =>
      if body == "" then None
      else if |body| >= 2 && IsSpace(body[|body| - 1]) then Some((body[..|body| - 1], brackets))
      else Some((body, brackets))
  }

  // /^(.+)?\(([\*\^])\)\s*(\([^\)]+\))$/ : the result type, the star, the parameter list.
  function FunctionPointerType(t: string): Option<(string, string, string)> {
    match ParameterList(t)
    case None => None
    case Some((q, params)) =>
      if q >= 2 && (t[q - 1] == '*' || t[q - 1] == '^') && t[q - 2] == '(' then
        Some((t[..q - 2], t[q - 1..q], params))
      else None
  }

  function NameOf(d: Decl): string { if d.name.Some? then d.name.value else "" }

  /** The declaration of one parameter; None where the script raises, on a function pointer without a
      result type. */
  function ToDecl(d: Decl): Option<string> {
    if d.kind.None? then Some(" " + NameOf(d))
    else if ArrayType(d.kind.value).Some? then
      var (element, brackets) := ArrayType(d.kind.value).value;
      Some(element + " " + NameOf(d) + brackets)
    else if FunctionPointerType(d.kind.value).Some? then
      var (before, star, params) := FunctionPointerType(d.kind.value).value;
      if before == "" then None
      else Some(ToShimType(before) + "(" + star + NameOf(d) + ")" + ToShimType(params))
    else Some(ToShimType(d.kind.value) + " " + NameOf(d))
  }

  function ToDecls(ds: seq<Decl>): (r: Option<seq<string>>)
    ensures r.Some? ==> |r.value| == |ds|
  {
    if ds == [] then Some([])
    else match (ToDecl(ds[0]), ToDecls(ds[1..]))
      case (Some(t), Some(ts)) => Some([t] + ts)
      case _ => None
  }

  /** The line generate_wrapper begins with, without the brace; None where the script raises: on a function
      whose name or type is nil, or on a parameter that cannot be printed. */
  function Signature(fn: Function): Option<string> {
    if fn.name.None? || fn.kind.None? then None
    else match ToDecls(fn.args)
      case None => None
      case Some(ts) => Some(ToShimType(fn.kind.value) + " shim_" + fn.name.value + "(" + Join(ts, ", ") + ")")
  }

  // ----- Well-formed declarations

  predicate GoodName(n: string) { n != "" && AllWord(n) && n != "restrict" }

  /** Begins a declaration: plain characters, no white space in front. */
  predicate Leads(t: string) { t != "" && !IsSpace(t[0]) && PlainText(t) }

  predicate CleanType(t: string) { Leads(t) && !IsSpace(t[|t| - 1]) }

  predicate ParameterText(s: string) {
    && |s| >= 3 && s[0] == '(' && s[|s| - 1] == ')'
    && forall i :: 0 < i < |s| - 1 ==> IsPlain(s[i]) || s[i] == ','
  }

  /** The declarations parse_prototype produces: plain and pointer types, arrays with one space before the
      brackets, function pointers, the ellipsis and void. A function pointer must print with white space in
      its result type or its parameter list, or the parser would take it for a type without a name; and its
      parameter list must not be a text that the mapping replaces as a whole. */
  predicate WellFormedDecl(d: Decl) {
    match d
    case Decl(None, None) => false
    case Decl(None, Some(kind)) => kind == "void"
    case Decl(Some(name), None) => name == "..."
    case Decl(Some(name), Some(kind)) =>
      && GoodName(name)
      && if ArrayType(kind).Some? then
           var (element, brackets) := ArrayType(kind).value;
           kind == element + " " + brackets && Leads(element)
         else if FunctionPointerType(kind).Some? then
           var (before, star, params) := FunctionPointerType(kind).value;
           && kind == before + "(*)" + params
           && Leads(before) && !NoSpace(ToShimType(before) + ToShimType(params))
           && ParameterText(params) && !Matched(params)
         else CleanType(kind)
  }

  predicate WellFormedFunction(fn: Function) {
    && fn.name.Some? && fn.name.value != "" && AllWord(fn.name.value)
    && fn.kind.Some? && CleanType(fn.kind.value)
    && forall i :: 0 <= i < |fn.args| ==> WellFormedDecl(fn.args[i])
  }

  /** What reading back the printed declaration must give: mapped types, arrays as they were. */
  function Mapped(d: Decl): Decl {
    match d
    case Decl(Some(name), Some(kind)) =>
      if ArrayType(kind).Some? then d
      else if FunctionPointerType(kind).Some? then
        var (before, _, params) := FunctionPointerType(kind).value;
        d.(kind := Some(ToShimType(before) + "(*)" + ToShimType(params)))
      else d.(kind := Some(ToShimType(kind)))
    case _ => d
  }

  function MappedAll(ds: seq<Decl>): seq<Decl> {
    if ds == [] then [] else [Mapped(ds[0])] + MappedAll(ds[1..])
  }

  /** The declaration has the Linux names: of its type, or of the result type and the parameter list of a function
      pointer. An array keeps its type. */
  ghost predicate Renamed(d: Decl, d': Decl) {
    && d'.name == d.name && (d'.kind.Some? <==> d.kind.Some?)
    && (d.kind.Some? ==>
          if ArrayType(d.kind.value).Some? then d'.kind == d.kind
          else if FunctionPointerType(d.kind.value).Some? then
            var (before, _, params) := FunctionPointerType(d.kind.value).value;
            exists b, p :: Renames(before, b) && Renames(params, p) && d'.kind.value == b + "(*)" + p
          else Renames(d.kind.value, d'.kind.value))
  }

  ghost predicate AllRenamed(ds: seq<Decl>, ds': seq<Decl>) {
    |ds'| == |ds| && forall k :: 0 <= k < |ds| ==> Renamed(ds[k], ds'[k])
  }

  lemma MappedIsRenamed(d: Decl)
    requires WellFormedDecl(d)
    ensures Renamed(d, Mapped(d))
  {
    if d.kind.Some? {
      var kind := d.kind.value;
      if d.name.None? { VoidPrints(d); VoidStays(); }
      MappingRenames(kind);
      if FunctionPointerType(kind).Some? {
        var (before, _, params) := FunctionPointerType(kind).value;
        MappingRenames(before);
        MappingRenames(params);
      }
    }
    hide ToShimType, Renames, ArrayType, FunctionPointerType, WellFormedDecl;
  }

  lemma {:induction false} MappedAllRenamed(ds: seq<Decl>)
    requires forall k :: 0 <= k < |ds| ==> WellFormedDecl(ds[k])
    ensures AllRenamed(ds, MappedAll(ds))
    decreases |ds|
  {
    hide WellFormedDecl, Renamed, Mapped;
    if ds != [] {
      MappedIsRenamed(ds[0]);
      MappedAllRenamed(ds[1..]);
    }
  }

  // ----- The type mapping keeps types readable

  lemma {:induction false} SpacePrefixIsSpace(s: string)
    ensures forall i :: 0 <= i < SpacePrefix(s) ==> IsSpace(s[i])
  {
    if s != "" && IsSpace(s[0]) {
      SpacePrefixIsSpace(s[1..]);
      assert forall i :: 1 <= i < SpacePrefix(s) ==> s[i] == s[1..][i - 1];
    }
  }

  ghost predicate EndsClean(s: string) { s != "" && !IsSpace(s[|s| - 1]) }

  /** r can stand for s: plain, and no white space at an end where s has none. */
  ghost predicate Replaces(r: string, s: string) {
    PlainText(r) && (EndsClean(s) ==> EndsClean(r)) && (Leads(s) ==> Leads(r))
  }

  lemma PlainConcat(a: string, b: string)
    requires PlainText(a) && PlainText(b)
    ensures PlainText(a + b)
  {
  }

  /** A replaced front and a replaced rest. */
  lemma ReplacesConcat(front: string, rest: string, front': string, rest': string)
    requires front != "" && Leads(front') && PlainText(rest) && Replaces(rest', rest)
    requires rest == "" ==> EndsClean(front) ==> rest' == "" && EndsClean(front')
    ensures Replaces(front' + rest', front + rest)
  {
  }

  lemma CharConcat(c: char, rest: string, rest': string)
    requires IsPlain(c) && Replaces(rest', rest) && (rest == "" ==> rest' == "")
    ensures Replaces([c] + rest', [c] + rest)
  {
  }

  lemma {:induction false} ReplaceStructKeeps(s: string)
    requires PlainText(s)
    ensures Replaces(ReplaceStruct(s), s)
    decreases |s|
  {
    if s != "" {
      if StartsWith(s, "struct") && SpacePrefix(s[6..]) > 0 {
        var k := 6 + SpacePrefix(s[6..]);
        SpacePrefixIsSpace(s[6..]);
        assert IsSpace(s[6..][k - 7]) && s[..k][k - 1] == s[6..][k - 7];
        ReplaceStructKeeps(s[k..]);
        ReplacesConcat(s[..k], s[k..], "linux_", ReplaceStruct(s[k..]));
        assert s == s[..k] + s[k..];
      } else {
        ReplaceStructKeeps(s[1..]);
        CharConcat(s[0], s[1..], ReplaceStruct(s[1..]));
        assert s == [s[0]] + s[1..];
      }
    }
  }

  lemma StackWordIsPlain(s: string)
    requires PlainText(s) && StackWordAt(s).Some?
    ensures var (w, next) := StackWordAt(s).value;
      && Leads(w) && EndsClean(w) && PlainText(next) && |w + next| <= |s| && s[..|w + next|] == w + next
  {
  }

  lemma {:induction false} PrefixStackWordsKeeps(s: string, mayBegin: bool)
    requires PlainText(s)
    ensures Replaces(PrefixStackWords(s, mayBegin), s)
    decreases |s|
  {
    if s != "" {
      if mayBegin && StackWordAt(s).Some? {
        StackWordIsPlain(s);
        var (w, next) := StackWordAt(s).value;
        var rest := s[|w| + |next|..];
        PrefixStackWordsKeeps(rest, false);
        PlainConcat("linux_", w);
        PlainConcat("linux_" + w, next);
        ReplacesConcat(w + next, rest, "linux_" + w + next, PrefixStackWords(rest, false));
        assert s == (w + next) + rest;
      } else {
        PrefixStackWordsKeeps(s[1..], IsSpace(s[0]));
        CharConcat(s[0], s[1..], PrefixStackWords(s[1..], IsSpace(s[0])));
        assert s == [s[0]] + s[1..];
      }
    }
  }

  lemma {:induction false} FindGlobIsPlain(s: string)
    requires FindGlob(s).Some?
    ensures var (digits, q) := FindGlob(s).value;
      CleanType("linux_glob" + digits + "_t*" + q)
    decreases |s|
  {
    if GlobAt(s).None? { FindGlobIsPlain(s[1..]); }
    else {
      var digits := GlobAt(s).value;
      var rest := s[7 + |digits|..];
      if rest != "" && IsSpace(rest[0]) && StartsWith(rest[1..], "restrict") {
        assert rest[..9] == [rest[0]] + "restrict";
        PlainConcat("linux_glob" + digits + "_t*", rest[..9]);
        assert ("linux_glob" + digits + "_t*" + rest[..9])[0] == 'l';
      }
    }
  }

  lemma ExactTypeIsClean(t: string)
    requires ExactType(t).Some?
    ensures CleanType(ExactType(t).value)
  {
  }

  lemma AttrTypeIsClean(t: string)
    requires AttrType(t).Some?
    ensures CleanType(AttrType(t).value)
  {
    if StartsWith(t, "const ") && AttrWord(t[6..]).Some? {
      AttrWordIsWord(t[6..]);
      PlainConcat("const ", "linux_pthread_");
      PlainConcat("const " + "linux_pthread_", AttrWord(t[6..]).value);
      PlainConcat("const " + "linux_pthread_" + AttrWord(t[6..]).value, "attr_t*");
    } else {
      AttrWordIsWord(t);
      PlainConcat("" + "linux_pthread_", AttrWord(t).value);
      PlainConcat("" + "linux_pthread_" + AttrWord(t).value, "attr_t*");
    }
  }

  lemma AttrWordIsWord(s: string)
    ensures AttrWord(s).Some? ==> PlainText(AttrWord(s).value)
  {
  }

  lemma ClockIsClean(star: string)
    requires star == "" || star == "*"
    ensures CleanType("linux_clockid_t" + star)
  {
  }

  predicate Matched(t: string) {
    Find(t, "clockid_t").Some? || ExactType(t).Some? || FindGlob(t).Some? || AttrType(t).Some?
  }

  lemma MatchedIsClean(t: string)
    requires Matched(t)
    ensures CleanType(ToShimType(t))
  {
    if Find(t, "clockid_t").Some? {
      ClockIsClean(if StartsWith(t[Find(t, "clockid_t").value + 9..], "*") then "*" else "");
    } else if ExactType(t).Some? {
      ExactTypeIsClean(t);
    } else if FindGlob(t).Some? {
      FindGlobIsPlain(t);
    } else {
      AttrTypeIsClean(t);
    }
  }

  lemma UnmatchedIs(t: string)
    requires !Matched(t)
    ensures ToShimType(t) == PrefixStackWords(t, true) || ToShimType(t) == ReplaceStruct(t)
  {
  }

  lemma ShimTypeKeeps(t: string)
    requires Leads(t)
    ensures Leads(ToShimType(t)) && Renames(t, ToShimType(t))
    ensures CleanType(t) ==> CleanType(ToShimType(t))
  {
    MappingRenames(t);
    hide Renames;
    if Matched(t) {
      MatchedIsClean(t);
    } else {
      UnmatchedIs(t);
      PrefixStackWordsKeeps(t, true);
      ReplaceStructKeeps(t);
    }
  }

  // ----- The parameter list of a function pointer

  /** Plain characters and commas, and one closing parenthesis at the end. */
  predicate Closed(s: string) {
    s != "" && s[|s| - 1] == ')' && forall i :: 0 <= i < |s| - 1 ==> IsPlain(s[i]) || s[i] == ','
  }

  predicate PlainOrCommas(s: string) { forall i :: 0 <= i < |s| ==> IsPlain(s[i]) || s[i] == ',' }

  lemma ClosedConcat(front: string, rest: string)
    requires PlainOrCommas(front) && Closed(rest)
    ensures Closed(front + rest)
  {
  }

  lemma ClosedRest(s: string, k: nat)
    requires Closed(s) && k < |s|
    ensures PlainOrCommas(s[..k]) && Closed(s[k..])
  {
  }

  lemma {:induction false} ReplaceStructCloses(s: string)
    requires Closed(s)
    ensures Closed(ReplaceStruct(s)) && (|s| > 1 ==> |ReplaceStruct(s)| > 1)
    decreases |s|
  {
    if StartsWith(s, "struct") && SpacePrefix(s[6..]) > 0 {
      var k := 6 + SpacePrefix(s[6..]);
      SpacePrefixIsSpace(s[6..]);
      assert IsSpace(s[6..][k - 7]) && s[6..][k - 7] == s[k - 1];
      ClosedRest(s, k);
      ReplaceStructCloses(s[k..]);
      ClosedConcat("linux_", ReplaceStruct(s[k..]));
    } else if |s| > 1 {
      ClosedRest(s, 1);
      ReplaceStructCloses(s[1..]);
      ClosedConcat([s[0]], ReplaceStruct(s[1..]));
    } else {
      assert s[1..] == "";
    }
  }

  lemma {:induction false} PrefixStackWordsCloses(s: string, mayBegin: bool)
    requires Closed(s)
    ensures Closed(PrefixStackWords(s, mayBegin)) && (|s| > 1 ==> |PrefixStackWords(s, mayBegin)| > 1)
    decreases |s|
  {
    if mayBegin && StackWordAt(s).Some? {
      var (w, next) := StackWordAt(s).value;
      StackWordCloses(s, w, next);
      var rest := s[|w| + |next|..];
      if rest != "" {
        ClosedRest(s, |w + next|);
        PrefixStackWordsCloses(rest, false);
        ClosedConcat("linux_" + w + next, PrefixStackWords(rest, false));
      }
    } else if |s| > 1 {
      ClosedRest(s, 1);
      PrefixStackWordsCloses(s[1..], IsSpace(s[0]));
      ClosedConcat([s[0]], PrefixStackWords(s[1..], IsSpace(s[0])));
    } else {
      assert s[1..] == "";
    }
  }

  lemma StackWordCloses(s: string, w: string, next: string)
    requires Closed(s) && StackWordAt(s) == Some((w, next))
    ensures |w| + |next| <= |s| && s[..|w + next|] == w + next
    ensures if |w + next| == |s| then Closed("linux_" + w + next) else PlainOrCommas("linux_" + w + next)
  {
    assert AllWord(w);
  }

  /** The mapping keeps the parameter list of a function pointer a parameter list, exactly when it does not
      replace it as a whole: as it does with one that mentions clockid_t or glob_t*. */
  lemma ParametersKeptIffUnmatched(params: string)
    requires ParameterText(params)
    ensures ParameterText(ToShimType(params)) <==> !Matched(params)
  {
    if Matched(params) {
      MatchedIsClean(params);
      assert IsPlain(ToShimType(params)[0]);
    } else {
      var rest := params[1..];
      assert Closed(rest) && |rest| >= 2;
      assert params == "(" + rest;
      hide Matched, ToShimType, PrefixStackWords, ReplaceStruct, ParameterText, Closed;
      UnmatchedIs(params);
      PrefixStackWordsCloses(rest, false);
      ReplaceStructCloses(rest);
      ParametersOpen(params, rest);
      OpenedIsText(PrefixStackWords(rest, false));
      OpenedIsText(ReplaceStruct(rest));
    }
  }

  lemma OpenedIsText(rest: string)
    requires Closed(rest) && |rest| > 1
    ensures ParameterText("(" + rest)
  {
  }

  lemma ParametersOpen(params: string, rest: string)
    requires params == "(" + rest
    ensures PrefixStackWords(params, true) == "(" + PrefixStackWords(rest, false)
    ensures ReplaceStruct(params) == "(" + ReplaceStruct(rest)
  {
    assert params[1..] == rest && params[0] == '(';
  }

  // ----- Reading one declaration back

  /** With white space inside and no star at the end, the first four cases of the parser do not apply. */
  lemma LaterCase(s: string, p: nat)
    requires p < |s| && IsSpace(s[p]) && s[|s| - 1] != '*'
    ensures !EndsWith(s, "*") && !NoSpace(s) && s != "void" && s != "..."
  {
  }

  lemma NoStarRestrict(front: string, name: string)
    requires front != "" && IsSpace(front[|front| - 1]) && GoodName(name)
    ensures !EndsWithStarRestrict(front + name)
  {
    var s := front + name;
    if EndsWithStarRestrict(s) {
      var w := s[|s| - 8..];
      assert w == "restrict" && AllWord(w);
      assert s == s[..|s| - 8] + w;
      WordStartIs(s[..|s| - 8], w);
      WordStartIs(front, name);
    }
  }

  /** A text that ends in white space and a name. */
  lemma WordEndReads(front: string, name: string)
    requires front != "" && IsSpace(front[|front| - 1]) && GoodName(name)
    ensures WordStart(front + name) == |front| && NamedDecl(front + name) == Some((front, name))
    ensures FunctionPointerDecl(front + name).None?
  {
    var s := front + name;
    WordStartIs(front, name);
    assert s[|front|..] == name && s[..|front|] == front;
    assert s[|s| - 1] == name[|name| - 1];
  }

  lemma PlainDeclReads(i: nat, kind: string, name: string)
    requires CleanType(kind) && GoodName(name)
    ensures ParseDecl(i, kind + " " + name) == Some(Decl(Some(name), Some(kind)))
    ensures Stripped(kind + " " + name)
  {
    var s := kind + " " + name;
    assert s[0] == kind[0] && s[|kind|] == ' ' && s[|s| - 1] == name[|name| - 1];
    WordEndReads(kind + " ", name);
    NoStarRestrict(kind + " ", name);
    LaterCase(s, |kind|);
    StripOfStripped(kind);
  }

  lemma BracketsEnd(t: string)
    requires Brackets(t).Some?
    ensures var (body, brackets) := Brackets(t).value;
      && |brackets| >= 2 && brackets[0] == '[' && brackets[|brackets| - 1] == ']'
      && (forall i :: 1 <= i < |brackets| - 1 ==> IsWord(brackets[i]))
      && var inner := brackets[1..|brackets| - 1]; (AllDigits(inner) || inner == "restrict") && '[' !in inner
  {
    var (body, brackets) := Brackets(t).value;
    var inner := brackets[1..|brackets| - 1];
    assert inner == t[|body| + 1..|t| - 1];
    assert forall i :: 0 <= i < |inner| ==> inner[i] == t[|body| + 1 + i];
    assert AllWord("restrict");
    assert forall i :: 1 <= i < |brackets| - 1 ==> brackets[i] == inner[i - 1];
  }

  /** Putting other text in front of the brackets. */
  lemma BracketsMove(t: string, front: string)
    requires Brackets(t).Some?
    ensures Brackets(front + Brackets(t).value.1) == Some((front, Brackets(t).value.1))
  {
    BracketsEnd(t);
    var brackets := Brackets(t).value.1;
    var inner := brackets[1..|brackets| - 1];
    assert brackets == "[" + inner + "]";
    BracketsAre(front, inner);
  }

  lemma BracketsAre(front: string, inner: string)
    requires (AllDigits(inner) || inner == "restrict") && '[' !in inner
    ensures Brackets(front + ("[" + inner + "]")) == Some((front, "[" + inner + "]"))
  {
    var brackets := "[" + inner + "]";
    var s := front + brackets;
    assert s == front + ['['] + (inner + "]");
    assert '[' !in inner + "]";
    LastIndexIs(front, '[', inner + "]");
    assert s[|front| + 1..|s| - 1] == inner && s[..|front|] == front && s[|front|..] == brackets && s[|s| - 1] == ']';
    hide LastIndex, AllDigits;
  }

  lemma EndIsNoRestrict(s: string)
    requires s != "" && s[|s| - 1] != 't'
    ensures !EndsWithStarRestrict(s)
  {
  }

  lemma ArrayDeclReads(i: nat, element: string, name: string, t: string)
    requires Brackets(t).Some? && Leads(element) && GoodName(name)
    ensures var brackets := Brackets(t).value.1; var s := element + " " + name + brackets;
      && ParseDecl(i, s) == Some(Decl(Some(name), Some(element + " " + brackets)))
      && Stripped(s)
  {
    var brackets := Brackets(t).value.1;
    var s := element + " " + name + brackets;
    BracketsEnd(t);
    assert s[|s| - 1] == brackets[|brackets| - 1] == ']';
    assert s[0] == element[0] && s[|element|] == ' ';
    LaterCase(s, |element|);
    EndIsNoRestrict(s);
    ArrayDeclIs(element, name, t);
    assert element + " " + brackets == (element + " ") + brackets;
    hide Brackets, ArrayDecl, ParseDecl;
    ArrayParses(i, s, element + " ", name, brackets);
  }

  lemma ArrayParses(i: nat, s: string, before: string, name: string, brackets: string)
    requires ArrayDecl(s) == Some((before, name, brackets)) && s != "" && s[|s| - 1] == ']'
    requires !EndsWith(s, "*") && !NoSpace(s) && s != "void" && s != "..." && !EndsWithStarRestrict(s)
    ensures ParseDecl(i, s) == Some(Decl(Some(name), Some(before + brackets)))
  {
    assert FunctionPointerDecl(s).None? && NamedDecl(s).None?;
    hide ArrayDecl, FunctionPointerDecl, NamedDecl, EndsWithStarRestrict, EndsWith, NoSpace;
  }

  lemma ArrayDeclIs(element: string, name: string, t: string)
    requires Brackets(t).Some? && GoodName(name)
    ensures var brackets := Brackets(t).value.1;
      ArrayDecl(element + " " + name + brackets) == Some((element + " ", name, brackets))
  {
    BracketsMove(t, element + " " + name);
    WordEndReads(element + " ", name);
  }

  lemma ParameterListIs(front: string, params: string)
    requires ParameterText(params)
    ensures ParameterList(front + ")" + params) == Some((|front|, params))
  {
    var s := front + ")" + params;
    var inner := params[..|params| - 1];
    assert forall k :: 0 < k < |inner| ==> inner[k] == params[k];
    assert ')' !in inner;
    assert s[..|s| - 1] == front + [')'] + inner;
    LastIndexIs(front, ')', inner);
    assert s[|front| + 1..] == params;
    assert s[|s| - 1] == ')';
  }

  lemma FunctionPointerDeclIs(before: string, name: string, params: string)
    requires GoodName(name) && ParameterText(params)
    ensures FunctionPointerDecl(before + "(*" + name + ")" + params) == Some((before, name, params))
  {
    var lead := before + "(*";
    var front := lead + name;
    var s := front + ")" + params;
    ParameterListIs(front, params);
    assert s[..|front|] == front;
    WordStartIs(lead, name);
    assert s[|lead| - 1] == '*' && s[|lead| - 2] == '(';
    assert s[..|lead| - 2] == before && s[|lead|..|front|] == name;
  }

  lemma PointerDeclReads(i: nat, before: string, name: string, params: string)
    requires Leads(before) && !NoSpace(before + params) && GoodName(name) && ParameterText(params)
    ensures var s := before + "(*" + name + ")" + params;
      && ParseDecl(i, s) == Some(Decl(Some(name), Some(before + "(*)" + params)))
      && Stripped(s)
  {
    var s := before + "(*" + name + ")" + params;
    FunctionPointerDeclIs(before, name, params);
    PointerText(before, name, params);
    PointerParses(i, s, before, name, params);
  }

  /** The text of a function pointer falls into none of the cases before. */
  lemma PointerText(before: string, name: string, params: string)
    requires Leads(before) && !NoSpace(before + params) && ParameterText(params)
    ensures var s := before + "(*" + name + ")" + params;
      Stripped(s) && !EndsWith(s, "*") && !NoSpace(s) && s != "void" && s != "..." && !EndsWithStarRestrict(s)
  {
    var s := before + "(*" + name + ")" + params;
    var k :| 0 <= k < |before + params| && IsSpace((before + params)[k]);
    var p := if k < |before| then k else k + 3 + |name|;
    assert s[p] == (before + params)[k] && s[0] == before[0] && s[|s| - 1] == params[|params| - 1] == ')';
    LaterCase(s, p);
    EndIsNoRestrict(s);
  }

  lemma PointerParses(i: nat, s: string, before: string, name: string, params: string)
    requires FunctionPointerDecl(s) == Some((before, name, params)) && before != ""
    requires !EndsWith(s, "*") && !NoSpace(s) && s != "void" && s != "..." && !EndsWithStarRestrict(s)
    ensures ParseDecl(i, s) == Some(Decl(Some(name), Some(before + "(*)" + params)))
  {
    hide FunctionPointerDecl, EndsWith, EndsWithStarRestrict, NoSpace;
  }

  // ----- Printed declarations are balanced

  lemma {:induction false} PlainBalanced(s: string)
    requires PlainText(s)
    ensures Balanced(s, 0)
    decreases |s|
  {
    if s != "" { PlainBalanced(s[1..]); }
  }

  lemma {:induction false} BalancedAppend(s: string, t: string, d: nat)
    requires Balanced(s, d) && Balanced(t, 0)
    ensures Balanced(s + t, d)
    decreases |s|
  {
    if s == "" {
      assert s + t == t;
    } else {
      assert (s + t)[0] == s[0] && (s + t)[1..] == s[1..] + t;
      BalancedAppend(s[1..], t, if s[0] == '(' then d + 1 else if s[0] == ')' then d - 1 else d);
    }
  }

  lemma {:induction false} ParameterTailBalanced(s: string)
    requires s != "" && s[|s| - 1] == ')' && forall i :: 0 <= i < |s| - 1 ==> IsPlain(s[i]) || s[i] == ','
    ensures Balanced(s, 1)
    decreases |s|
  {
    if |s| == 1 {
      assert s[1..] == "";
    } else {
      ParameterTailBalanced(s[1..]);
    }
  }

  lemma ParametersBalanced(s: string)
    requires ParameterText(s)
    ensures Balanced(s, 0)
  {
    ParameterTailBalanced(s[1..]);
  }

  lemma PointerBalanced(before: string, name: string, params: string)
    requires PlainText(before) && GoodName(name) && ParameterText(params)
    ensures Balanced(before + "(*" + name + ")" + params, 0)
  {
    var middle := "(*" + name + ")";
    assert forall i :: 2 <= i < |middle| - 1 ==> middle[i] == name[i - 2];
    PlainBalanced(before);
    ParametersBalanced(middle);
    ParametersBalanced(params);
    BalancedAppend(middle, params, 0);
    BalancedAppend(before, middle + params, 0);
    assert before + "(*" + name + ")" + params == before + (middle + params);
  }

  lemma BracketsPlain(t: string)
    requires Brackets(t).Some?
    ensures PlainText(Brackets(t).value.1)
  {
    BracketsEnd(t);
  }

  // ----- The round trip

  lemma VoidStays()
    ensures ToShimType("void") == "void"
  {
    assert "void"[1..] == "oid" && "oid"[1..] == "id" && "id"[1..] == "d" && "d"[1..] == "";
    assert ReplaceStruct("void") == "v" + ("o" + ("i" + ("d" + "")));
    assert PrefixStackWords("void", true) == "v" + ("o" + ("i" + ("d" + "")));
    assert FindGlob("void").None?;
  }

  /** What one printed declaration must satisfy to be read back. */
  ghost predicate Reads(i: nat, t: string, d: Decl) {
    && Balanced(t, 0) && Strip(" " + t) == Strip(t) && Strip(t) != ""
    && ParseDecl(i, Strip(t)) == Some(Mapped(d))
  }

  lemma StrippedReads(i: nat, t: string, d: Decl)
    requires Balanced(t, 0) && Stripped(t) && ParseDecl(i, t) == Some(Mapped(d))
    ensures Reads(i, t, d)
  {
  }

  lemma StripSpaced(s: string)
    requires Stripped(s)
    ensures Strip(" " + s) == s && Strip(" " + (" " + s)) == s && Strip(s + " ") == s && Strip(" " + (s + " ")) == s
  {
    StripOfStripped(s);
    assert (" " + (" " + s))[1..] == " " + s;
    assert (" " + (s + " "))[1..] == s + " ";
    assert LStrip(" " + (s + " ")) == LStrip(s + " ") == s + " ";
  }

  lemma EllipsisReads(i: nat, d: Decl)
    requires d == Decl(Some("..."), None)
    ensures ToDecl(d) == Some(" ...") && Reads(i, " ...", d)
  {
    assert " ..." == " " + "...";
    StripSpaced("...");
    PlainBalanced(" ...");
    assert ParseDecl(i, "...") == Some(d);
  }

  lemma VoidPrints(d: Decl)
    requires d == Decl(None, Some("void"))
    ensures ToDecl(d) == Some("void" + " ") && Mapped(d) == d
  {
    VoidStays();
    assert ArrayType("void").None? && FunctionPointerType("void").None?;
    assert "void" + " " + "" == "void" + " ";
  }

  lemma VoidReads(i: nat, d: Decl)
    requires d == Decl(None, Some("void"))
    ensures ToDecl(d).Some? && Reads(i, ToDecl(d).value, d)
  {
    VoidPrints(d);
    StripSpaced("void");
    PlainBalanced("void" + " ");
    assert ParseDecl(i, "void") == Some(d);
  }

  /** The printed declaration of a well-formed parameter reads back as the parameter, mapped. */
  lemma DeclReads(i: nat, d: Decl)
    requires WellFormedDecl(d)
    ensures ToDecl(d).Some? && Reads(i, ToDecl(d).value, d) && Renamed(d, Mapped(d))
  {
    MappedIsRenamed(d);
    hide Renamed, Renames;
    if d.kind.None? {
      EllipsisReads(i, d);
    } else if d.name.None? {
      VoidReads(i, d);
    } else {
      var name, kind := d.name.value, d.kind.value;
      var t := ToDecl(d);
      if ArrayType(kind).Some? {
        var (element, brackets) := ArrayType(kind).value;
        ArrayDeclReads(i, element, name, kind);
        BracketsPlain(kind);
        PlainConcat(element, " ");
        PlainConcat(element + " ", name);
        PlainConcat(element + " " + name, brackets);
        PlainBalanced(t.value);
        StrippedReads(i, t.value, d);
      } else if FunctionPointerType(kind).Some? {
        var (before, star, params) := FunctionPointerType(kind).value;
        FunctionPointerReads(i, d, before, star, params);
      } else {
        ShimTypeKeeps(kind);
        PlainDeclReads(i, ToShimType(kind), name);
        PlainConcat(ToShimType(kind), " ");
        PlainConcat(ToShimType(kind) + " ", name);
        PlainBalanced(t.value);
        StrippedReads(i, t.value, d);
      }
    }
  }

  lemma FunctionPointerReads(i: nat, d: Decl, before: string, star: string, params: string)
    requires WellFormedDecl(d) && d.name.Some? && d.kind.Some?
    requires ArrayType(d.kind.value).None? && FunctionPointerType(d.kind.value) == Some((before, star, params))
    ensures ToDecl(d).Some? && Reads(i, ToDecl(d).value, d)
  {
    StarIsStar(d.kind.value, before, star, params);
    ParametersKeptIffUnmatched(params);
    ShimTypeKeeps(before);
    hide ToShimType, Matched, ParameterText, NoSpace, ArrayType, FunctionPointerType;
    PrintedPointerReads(i, ToShimType(before), d.name.value, ToShimType(params), d);
  }

  lemma PrintedPointerReads(i: nat, before: string, name: string, params: string, d: Decl)
    requires Leads(before) && !NoSpace(before + params) && GoodName(name) && ParameterText(params)
    requires Mapped(d) == Decl(Some(name), Some(before + "(*)" + params))
    ensures Reads(i, before + "(" + "*" + name + ")" + params, d)
  {
    PointerDeclReads(i, before, name, params);
    PointerBalanced(before, name, params);
    StrippedReads(i, before + "(*" + name + ")" + params, d);
    assert before + "(" + "*" == before + "(*";
  }

  /** A type that is the result, a star in parentheses and the parameters is printed with a star. */
  lemma StarIsStar(kind: string, before: string, star: string, params: string)
    requires FunctionPointerType(kind) == Some((before, star, params)) && kind == before + "(*)" + params
    ensures star == "*"
  {
  }

  /** What the printed declarations must satisfy to be read back. */
  ghost predicate AllRead(i: nat, ts: seq<string>, ds: seq<Decl>) {
    && AllBalanced(ts) && SpaceIsStripped(ts)
    && ParseDecls(i, NonEmpty(StripAll(ts))) == Some(MappedAll(ds))
  }

  ghost predicate SpaceIsStripped(ts: seq<string>) { forall k :: 0 <= k < |ts| ==> Strip(" " + ts[k]) == Strip(ts[k]) }

  lemma TextsCons(t: string, ts: seq<string>)
    requires Balanced(t, 0) && Strip(" " + t) == Strip(t) && AllBalanced(ts) && SpaceIsStripped(ts)
    ensures AllBalanced([t] + ts) && SpaceIsStripped([t] + ts) && StripAll([t] + ts) == [Strip(t)] + StripAll(ts)
  {
    hide Strip, Balanced;
    var all := [t] + ts;
    forall k | 0 <= k < |all|
      ensures Balanced(all[k], 0) && Strip(" " + all[k]) == Strip(all[k])
      ensures StripAll(all)[k] == ([Strip(t)] + StripAll(ts))[k]
    {
      if k > 0 { assert all[k] == ts[k - 1]; }
    }
  }

  lemma ReadCons(i: nat, t: string, ts: seq<string>, d: Decl, ds: seq<Decl>)
    requires Reads(i, t, d) && AllRead(i + 1, ts, ds)
    ensures AllRead(i, [t] + ts, [d] + ds)
  {
    TextsCons(t, ts);
    ParseDeclsCons(i, Strip(t), NonEmpty(StripAll(ts)));
    ParseDeclsCons(i, Strip(t), StripAll(ts));
    assert ([d] + ds)[1..] == ds;
  }

  lemma NoneRead(i: nat)
    ensures AllRead(i, [], [])
  {
    assert StripAll([]) == [];
  }

  lemma {:induction false} DeclsRead(i: nat, ds: seq<Decl>)
    requires forall k :: 0 <= k < |ds| ==> WellFormedDecl(ds[k])
    ensures ToDecls(ds).Some? && AllRead(i, ToDecls(ds).value, ds)
    decreases |ds|
  {
    hide WellFormedDecl, ToDecl, Reads, AllRead;
    if ds == [] {
      NoneRead(i);
    } else {
      DeclReads(i, ds[0]);
      DeclsRead(i + 1, ds[1..]);
      assert [ds[0]] + ds[1..] == ds;
      ReadCons(i, ToDecl(ds[0]).value, ToDecls(ds[1..]).value, ds[0], ds[1..]);
    }
  }

  lemma ParseDeclsCons(i: nat, part: string, parts: seq<string>)
    requires part != ""
    ensures NonEmpty([part] + parts) == [part] + NonEmpty(parts)
    ensures ParseDecl(i, part).Some? && ParseDecls(i + 1, parts).Some? ==>
      ParseDecls(i, [part] + parts) == Some([ParseDecl(i, part).value] + ParseDecls(i + 1, parts).value)
  {
  }

  /** The texts with the space that ", " puts in front of all but the first. */
  function Spaced(ts: seq<string>): (r: seq<string>)
    ensures |r| == |ts| && forall k :: 0 <= k < |ts| ==> r[k] == if k == 0 then ts[0] else " " + ts[k]
  {
    seq(|ts|, k requires 0 <= k < |ts| => if k == 0 then ts[0] else " " + ts[k])
  }

  lemma {:induction false} JoinSpaced(ts: seq<string>)
    ensures Join(ts, ", ") == Join(Spaced(ts), ",")
    ensures ts != [] ==> " " + Join(ts, ", ") == Join(seq(|ts|, k requires 0 <= k < |ts| => " " + ts[k]), ",")
    decreases |ts|
  {
    if |ts| > 1 {
      JoinSpaced(ts[1..]);
      var all := seq(|ts|, k requires 0 <= k < |ts| => " " + ts[k]);
      var rest := seq(|ts| - 1, k requires 0 <= k < |ts| - 1 => " " + ts[1..][k]);
      assert Spaced(ts)[1..] == rest && all[1..] == rest;
      assert ts[0] + ", " + Join(ts[1..], ", ") == ts[0] + "," + (" " + Join(ts[1..], ", "));
      assert " " + (ts[0] + "," + Join(rest, ",")) == (" " + ts[0]) + "," + Join(rest, ",");
    } else if |ts| == 1 {
      assert Spaced(ts) == ts;
    }
  }

  lemma SpacedBalanced(ts: seq<string>)
    requires AllBalanced(ts)
    ensures AllBalanced(Spaced(ts))
  {
  }

  lemma SplitSpaced(head: string, ts: seq<string>)
    requires PlainText(head) && ts != [] && AllBalanced(ts) && SpaceIsStripped(ts)
    ensures Split(head + "(" + Join(ts, ", ") + ")") == Some([Strip(head)] + StripAll(ts))
  {
    JoinSpaced(ts);
    SpacedBalanced(ts);
    SplitInvertsPrinting(head, Spaced(ts));
    assert StripAll(Spaced(ts)) == StripAll(ts);
  }

  lemma HeadReads(kind: string, name: string)
    requires CleanType(kind) && AllWord(name)
    ensures var head := kind + " shim_" + name;
      && PlainText(head) && Strip(head) == head && head != ""
      && ParseDecl(0, head) == Some(Decl(Some("shim_" + name), Some(kind)))
  {
    ShimNameIsGood(name);
    var shim := "shim_" + name;
    assert PlainText(shim) && PlainText(" ");
    assert kind + " shim_" + name == kind + " " + shim;
    hide ParseDecl, Strip, GoodName, AllWord;
    PlainDeclReads(0, kind, shim);
    PlainConcat(kind, " ");
    PlainConcat(kind + " ", shim);
    hide PlainText;
    StripOfStripped(kind + " " + shim);
  }

  lemma ShimNameIsGood(name: string)
    requires AllWord(name)
    ensures GoodName("shim_" + name)
  {
    assert AllWord("shim_");
    assert ("shim_" + name)[0] == 's' && "restrict"[0] == 'r';
  }

  /** Splitting a signature gives the head and the stripped declarations, and at most an empty part. */
  lemma SplitSignature(head: string, ts: seq<string>)
    requires PlainText(head) && Strip(head) == head && head != "" && AllBalanced(ts) && SpaceIsStripped(ts)
    ensures var parts := Split(head + "(" + Join(ts, ", ") + ")");
      parts.Some? && NonEmpty(parts.value) == [head] + NonEmpty(StripAll(ts))
  {
    if ts == [] {
      PlainBalanced("");
      SplitInvertsPrinting(head, [""]);
      assert Join([""], ",") == Join(ts, ", ");
      ParseDeclsCons(0, head, StripAll([""]));
      assert StripAll([""]) == [""] && NonEmpty([""]) == [] && StripAll(ts) == [];
    } else {
      SplitSpaced(head, ts);
      ParseDeclsCons(0, head, StripAll(ts));
    }
  }

  /** The parts of a prototype that are read as a function. */
  lemma PartsRead(text: string, parts: seq<string>, head: Decl, headText: string, rest: seq<string>, args: seq<Decl>)
    requires Split(text) == Some(parts) && NonEmpty(parts) == [headText] + NonEmpty(rest) && headText != ""
    requires ParseDecl(0, headText) == Some(head) && ParseDecls(1, NonEmpty(rest)) == Some(args)
    ensures ParsePrototype(text) == Some(Function(head.name, head.kind, args))
  {
  }

  /** What is read back from a printed signature: the prefixed name, and the Linux names of all types. */
  ghost predicate IsShimOf(back: Function, fn: Function)
    requires fn.name.Some? && fn.kind.Some?
  {
    && back.name == Some("shim_" + fn.name.value)
    && back.kind.Some? && Renames(fn.kind.value, back.kind.value)
    && AllRenamed(fn.args, back.args)
  }

  /** Parsing the printed signature gives the prefixed name, the mapped result type, and the same
      parameters in the same order with their types mapped. */
  lemma SignatureReparses(fn: Function)
    requires WellFormedFunction(fn)
    ensures Signature(fn).Some?
    ensures ParsePrototype(Signature(fn).value) ==
      Some(Function(Some("shim_" + fn.name.value), Some(ToShimType(fn.kind.value)), MappedAll(fn.args)))
    ensures IsShimOf(ParsePrototype(Signature(fn).value).value, fn)
  {
    hide WellFormedDecl, Renames, AllRenamed, AllRead;
    MappedAllRenamed(fn.args);
    ShimTypeKeeps(fn.kind.value);
    DeclsRead(1, fn.args);
    HeadedSignature(ToShimType(fn.kind.value), fn.name.value, ToDecls(fn.args).value, fn.args);
  }

  lemma HeadedSignature(kind: string, name: string, ts: seq<string>, ds: seq<Decl>)
    requires CleanType(kind) && AllWord(name) && AllRead(1, ts, ds)
    ensures ParsePrototype(kind + " shim_" + name + "(" + Join(ts, ", ") + ")")
      == Some(Function(Some("shim_" + name), Some(kind), MappedAll(ds)))
  {
    var head := kind + " shim_" + name;
    HeadReads(kind, name);
    SplitSignature(head, ts);
    var text := head + "(" + Join(ts, ", ") + ")";
    PartsRead(text, Split(text).value, Decl(Some("shim_" + name), Some(kind)), head, StripAll(ts), MappedAll(ds));
  }

  /** An array type comes back unchanged exactly when one space stands before its brackets: the printer
      always writes the name behind one space. */
  lemma ArrayKeptIffSpaced(i: nat, d: Decl)
    requires d.name.Some? && GoodName(d.name.value) && d.kind.Some? && ArrayType(d.kind.value).Some?
    requires Leads(ArrayType(d.kind.value).value.0)
    ensures ToDecl(d).Some?
    ensures var (element, brackets) := ArrayType(d.kind.value).value;
      ParseDecl(i, Strip(ToDecl(d).value)) == Some(d) <==> d.kind.value == element + " " + brackets
  {
    var (element, brackets) := ArrayType(d.kind.value).value;
    ArrayDeclReads(i, element, d.name.value, d.kind.value);
    StripOfStripped(ToDecl(d).value);
  }
}
