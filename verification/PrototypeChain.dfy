/** From the text of a prototype to the signature of its wrapper and back (src/prototypes.rb,
    utils/wrappers.rb): which texts are read as functions that are printed and read again. */
module PrototypeChain {
  import opened Wrappers
  import opened Text
  import opened Splitter
  import opened Declarations
  import opened ShimTypes
  import opened WrapperGen

  /** A type and a name, with white space or a star between them. */
  predicate NamedPart(p: string) {
    && Stripped(p) && PlainText(p) && ']' !in p && !NoSpace(p)
    && IsWord(p[|p| - 1]) && GoodName(p[WordStart(p)..])
  }

  /** A type without a name, the ellipsis or void. */
  predicate UnnamedPart(p: string) {
    Stripped(p) && PlainText(p) && ']' !in p && (NoSpace(p) || EndsWith(p, "*") || EndsWithStarRestrict(p))
  }

  /** An array, with one space or more in front of its name. */
  predicate ArrayPart(p: string) {
    && Stripped(p) && PlainText(p)
    && match ArrayDecl(p)
       case None => false
       case Some((before, name, brackets)) => GoodName(name) && |before| >= 2 && before[|before| - 1] == ' '
  }

  /** A pointer to a function of plain parameters that the mapping does not replace as a whole, and whose mapped
      type has some white space. */
  predicate PointerPart(p: string) {
    && Stripped(p) && !NoSpace(p)
    && match FunctionPointerDecl(p)
       case None => false
       case Some((before, name, params)) =>
         && GoodName(name) && Leads(before) && ParameterText(params)
         && !Matched(params) && !NoSpace(ToShimType(before) + ToShimType(params))
  }

  predicate GoodPart(p: string) { NamedPart(p) || UnnamedPart(p) || ArrayPart(p) || PointerPart(p) }

  lemma NoBracketNoArray(t: string)
    requires ']' !in t
    ensures ArrayType(t).None?
  {
    if t != "" { assert t[|t| - 1] in t; }
  }

  lemma PlainIsNoPointer(t: string)
    requires PlainText(t)
    ensures FunctionPointerType(t).None? && FunctionPointerDecl(t).None?
  {
    if t != "" { assert IsPlain(t[|t| - 1]); }
  }

  /** A plain type without brackets is well-formed with any good name. */
  lemma PlainIsWellFormed(name: string, kind: string)
    requires GoodName(name) && CleanType(kind) && ']' !in kind
    ensures WellFormedDecl(Decl(Some(name), Some(kind)))
  {
    NoBracketNoArray(kind);
    PlainIsNoPointer(kind);
  }

  lemma ArgNameIsGood(i: nat)
    ensures GoodName("_arg_" + Digits(i))
  {
    var name := "_arg_" + Digits(i);
    assert AllWord("_arg_");
    assert name[0] == '_' && "restrict"[0] == 'r';
  }

  lemma {:induction false} RStripIs(s: string)
    requires s != "" && !IsSpace(s[0])
    ensures exists k :: 1 <= k <= |s| && RStrip(s) == s[..k] && !IsSpace(s[k - 1])
    decreases |s|
  {
    if IsSpace(s[|s| - 1]) {
      RStripIs(s[..|s| - 1]);
      var k :| 1 <= k <= |s| - 1 && RStrip(s[..|s| - 1]) == s[..|s| - 1][..k] && !IsSpace(s[..|s| - 1][k - 1]);
      assert s[..|s| - 1][..k] == s[..k];
    } else {
      assert s[..|s|] == s;
    }
  }

  /** What is left of the front of a part is a clean type. */
  lemma FrontIsClean(p: string, k: nat)
    requires 1 <= k <= |p| && PlainText(p) && !IsSpace(p[0]) && ']' !in p
    ensures CleanType(Strip(p[..k])) && ']' !in Strip(p[..k])
  {
    var front := p[..k];
    assert LStrip(front) == front;
    RStripIs(front);
    var j :| 1 <= j <= |front| && RStrip(front) == front[..j] && !IsSpace(front[j - 1]);
    assert front[..j] == p[..j];
  }

  lemma NameStarts(p: string)
    requires NamedPart(p)
    ensures 1 <= WordStart(p) < |p|
  {
    var j :| 0 <= j < |p| && IsSpace(p[j]);
    assert !IsWord(p[j]);
  }

  lemma RestrictIsName(p: string)
    requires EndsWithStarRestrict(p)
    ensures p[WordStart(p)..] == "restrict"
  {
    var n := |p| - 8;
    assert p[n..] == "restrict" && AllWord("restrict") && p == p[..n] + p[n..];
    WordStartIs(p[..n], "restrict");
  }

  /** A part that is named does not end like a pointer. */
  lemma NamedIsNoPointer(p: string)
    requires NamedPart(p)
    ensures !EndsWith(p, "*") && !EndsWithStarRestrict(p)
  {
    if EndsWithStarRestrict(p) { RestrictIsName(p); }
  }

  lemma NamedIsRead(i: nat, p: string)
    requires NamedPart(p)
    ensures var k := WordStart(p);
      && 1 <= k < |p| && CleanType(Strip(p[..k])) && ']' !in Strip(p[..k])
      && ParseDecl(i, p) == Some(Decl(Some(p[k..]), Some(Strip(p[..k]))))
  {
    NameStarts(p);
    NamedIsNoPointer(p);
    PlainIsNoPointer(p);
    FrontIsClean(p, WordStart(p));
    SpacedIsNoWord(p);
    NamedParses(i, p, WordStart(p));
  }

  lemma SpacedIsNoWord(p: string)
    requires !NoSpace(p)
    ensures p != "void" && p != "..."
  {
    assert NoSpace("void") && NoSpace("...");
  }

  lemma NamedParses(i: nat, p: string, k: nat)
    requires |p| >= 2 && IsWord(p[|p| - 1]) && k == WordStart(p) && 1 <= k < |p| && FunctionPointerDecl(p).None?
    requires !EndsWith(p, "*") && !NoSpace(p) && p != "void" && p != "..." && !EndsWithStarRestrict(p)
    ensures ParseDecl(i, p) == Some(Decl(Some(p[k..]), Some(Strip(p[..k]))))
  {
    hide WordStart, Strip, EndsWith, EndsWithStarRestrict, FunctionPointerDecl, NoSpace;
  }

  lemma UnnamedIsRead(i: nat, p: string)
    requires UnnamedPart(p)
    ensures ParseDecl(i, p).Some? && WellFormedDecl(ParseDecl(i, p).value)
  {
    ArgNameIsGood(i);
    PlainIsWellFormed("_arg_" + Digits(i), p);
  }

  lemma ArrayIsSplit(p: string)
    requires ArrayPart(p)
    ensures Brackets(p).Some? && Brackets(p).value.0 + Brackets(p).value.1 == p
    ensures var (before, name, brackets) := ArrayDecl(p).value;
      brackets == Brackets(p).value.1 && Brackets(p).value.0 == before + name && p == before + name + brackets
  {
  }

  lemma ArrayIsRead(i: nat, p: string)
    requires ArrayPart(p)
    ensures ParseDecl(i, p).Some? && WellFormedDecl(ParseDecl(i, p).value)
  {
    var (before, name, brackets) := ArrayDecl(p).value;
    ArrayIsSplit(p);
    hide ArrayDecl;
    BracketsEnd(p);
    assert p[|p| - 1] == brackets[|brackets| - 1] == ']' && p[|before| - 1] == before[|before| - 1] == ' ';
    LaterCase(p, |before| - 1);
    EndIsNoRestrict(p);
    ArrayParses(i, p, before, name, brackets);
    ArrayIsWellFormed(p, before, name, brackets);
  }

  lemma ArrayTypeIs(before: string, element: string, brackets: string)
    requires Brackets(before + brackets) == Some((before, brackets)) && before == element + " " && element != ""
    ensures ArrayType(before + brackets) == Some((element, brackets))
  {
    hide Brackets;
    assert before[..|before| - 1] == element;
  }

  lemma ArrayIsWellFormed(p: string, before: string, name: string, brackets: string)
    requires Brackets(p).Some? && Brackets(p).value.1 == brackets && p == before + name + brackets
    requires GoodName(name) && PlainText(p) && !IsSpace(p[0]) && |before| >= 2 && before[|before| - 1] == ' '
    ensures WellFormedDecl(Decl(Some(name), Some(before + brackets)))
  {
    var element := before[..|before| - 1];
    assert p[0] == element[0] && forall k :: 0 <= k < |element| ==> element[k] == p[k];
    BracketsMove(p, before);
    assert before == element + " ";
    hide Brackets, GoodName, PlainText;
    ArrayTypeIs(before, element, brackets);
  }

  lemma PointerIsRead(i: nat, p: string)
    requires PointerPart(p)
    ensures ParseDecl(i, p).Some? && WellFormedDecl(ParseDecl(i, p).value)
  {
    var (before, name, params) := FunctionPointerDecl(p).value;
    var q := ParameterList(p).value.0;
    assert p[|p| - 1] == ')';
    var j :| 0 <= j < |p| && IsSpace(p[j]);
    LaterCase(p, j);
    EndIsNoRestrict(p);
    assert ParseDecl(i, p) == Some(Decl(Some(name), Some(before + "(*)" + params)));
    PointerTypeIs(before, params);
  }

  lemma PointerTypeIs(before: string, params: string)
    requires ParameterText(params)
    ensures ArrayType(before + "(*)" + params).None?
    ensures FunctionPointerType(before + "(*)" + params) == Some((before, "*", params))
  {
    var front := before + "(*";
    var t := before + "(*)" + params;
    assert t == front + ")" + params && t[|t| - 1] == ')';
    ParameterListIs(front, params);
    assert t[|front| - 1] == '*' && t[|front| - 2] == '(' && t[..|front| - 2] == before && t[|front| - 1..|front|] == "*";
  }

  lemma PartIsRead(i: nat, p: string)
    requires GoodPart(p)
    ensures p != "" && ParseDecl(i, p).Some? && WellFormedDecl(ParseDecl(i, p).value)
  {
    if NamedPart(p) {
      NamedIsRead(i, p);
      NamedIsNoPointer(p);
      PlainIsWellFormed(p[WordStart(p)..], Strip(p[..WordStart(p)]));
    } else if UnnamedPart(p) {
      UnnamedIsRead(i, p);
    } else if ArrayPart(p) {
      ArrayIsRead(i, p);
    } else {
      PointerIsRead(i, p);
    }
  }

  lemma {:induction false} PartsAreRead(i: nat, parts: seq<string>)
    requires forall k :: 0 <= k < |parts| ==> GoodPart(parts[k])
    ensures ParseDecls(i, parts).Some?
    ensures forall k :: 0 <= k < |ParseDecls(i, parts).value| ==> WellFormedDecl(ParseDecls(i, parts).value[k])
    decreases |parts|
  {
    if parts != [] {
      PartIsRead(i, parts[0]);
      PartsAreRead(i + 1, parts[1..]);
    }
  }

  lemma {:induction false} NonEmptyAreGood(parts: seq<string>)
    requires forall k :: 0 <= k < |parts| ==> parts[k] == "" || GoodPart(parts[k])
    ensures forall k :: 0 <= k < |NonEmpty(parts)| ==> GoodPart(NonEmpty(parts)[k])
    decreases |parts|
  {
    if parts != [] {
      NonEmptyAreGood(parts[1..]);
      assert parts[0] == "" || GoodPart(parts[0]);
    }
  }

  /** A prototype, as it is written: the function and, between commas, its parameters. */
  function Prototype(head: string, args: seq<string>): string { head + "(" + Join(args, ",") + ")" }

  predicate GoodPrototype(head: string, args: seq<string>) {
    && PlainText(head) && NamedPart(Strip(head)) && args != [] && AllBalanced(args)
    && forall k :: 0 <= k < |args| ==> Strip(args[k]) == "" || GoodPart(Strip(args[k]))
  }

  /** Such a prototype is read as a well-formed function. */
  lemma PrototypeIsRead(head: string, args: seq<string>)
    requires GoodPrototype(head, args)
    ensures ParsePrototype(Prototype(head, args)).Some?
    ensures var fn := ParsePrototype(Prototype(head, args)).value; var h := Strip(head);
      && WellFormedFunction(fn)
      && fn.name == Some(h[WordStart(h)..]) && fn.kind == Some(Strip(h[..WordStart(h)]))
  {
    var text, h := Prototype(head, args), Strip(head);
    SplitInvertsPrinting(head, args);
    NamedIsRead(0, h);
    NamedIsNoPointer(h);
    ParseDeclsCons(0, h, StripAll(args));
    NonEmptyAreGood(StripAll(args));
    PartsAreRead(1, NonEmpty(StripAll(args)));
    PartsRead(text, Split(text).value, ParseDecl(0, h).value, h, StripAll(args), ParseDecls(1, NonEmpty(StripAll(args))).value);
  }

  /** From prototype to signature to prototype: what was read is printed, and what was printed is read as the
      function with the prefixed name and its types mapped. */
  lemma PrototypeSurvives(head: string, args: seq<string>)
    requires GoodPrototype(head, args)
    ensures ParsePrototype(Prototype(head, args)).Some?
    ensures var fn := ParsePrototype(Prototype(head, args)).value;
      && fn.name.Some? && fn.kind.Some? && Signature(fn).Some?
      && ParsePrototype(Signature(fn).value)
         == Some(Function(Some("shim_" + fn.name.value), Some(ToShimType(fn.kind.value)), MappedAll(fn.args)))
      && IsShimOf(ParsePrototype(Signature(fn).value).value, fn)
  {
    PrototypeIsRead(head, args);
    SignatureReparses(ParsePrototype(Prototype(head, args)).value);
  }
}
