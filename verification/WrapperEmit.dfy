/** The body of generate_wrapper (utils/wrappers.rb): the text it writes and the call it forwards. */
module WrapperEmit {
  import opened Wrappers
  import opened Text
  import opened Splitter
  import opened Declarations
  import opened ShimTypes
  import opened WrapperGen

  predicate IsVariadic(fn: Function) {
    |fn.args| > 1 && fn.args[|fn.args| - 1].name == Some("...")
  }

  /** The arguments that are passed on: none for f(void). */
  function PassedArgs(fn: Function): seq<Decl> {
    if |fn.args| == 1 && fn.args[0].kind == Some("void") then [] else fn.args
  }

  function CallName(d: Decl): string {
    if d.name == Some("...") then "_args_" else NameOf(d)
  }

  function CallNames(ds: seq<Decl>): (r: seq<string>)
    ensures |r| == |ds| && forall k :: 0 <= k < |ds| ==> r[k] == CallName(ds[k])
  {
    seq(|ds|, k requires 0 <= k < |ds| => CallName(ds[k]))
  }

  /** The name of the function called: the replacement, or the function itself, with a v in front when it
      takes a va_list. */
  function Callee(fn: Function, replacement: Option<string>): string
    requires fn.name.Some?
  {
    if replacement.Some? then replacement.value
    else (if IsVariadic(fn) then "v" else "") + fn.name.value
  }

  function CallText(fn: Function, replacement: Option<string>): string
    requires fn.name.Some?
  {
    Callee(fn, replacement) + "(" + Join(CallNames(PassedArgs(fn)), ", ") + ")"
  }

  /** The lines between the signature and the call: the log line, the va_list, the result variable. */
  function Prologue(fn: Function, logEntry: string): seq<string>
    requires fn.kind.Some?
  {
    ["  " + logEntry]
    + (if IsVariadic(fn) then
         ["  va_list _args_;", "  va_start(_args_, " + NameOf(fn.args[|fn.args| - 2]) + ");"]
       else [])
    + (if fn.kind.value != "void" then ["  " + ToShimType(fn.kind.value) + " _ret_ = "] else [])
  }

  function Epilogue(fn: Function, logExit: string): seq<string>
    requires fn.kind.Some?
  {
    (if IsVariadic(fn) then ["  va_end(_args_);"] else [])
    + ["  " + logExit]
    + (if fn.kind.value != "void" then ["  return _ret_;"] else [])
    + ["}"]
  }

  /** The stream the wrappers are written to: finished lines and the line being written. */
  class Output {
    var lines: seq<string>
    var line: string

    constructor ()
      ensures lines == [] && line == ""
    {
      lines, line := [], "";
    }

    method Print(s: string)
      modifies this
      ensures lines == old(lines) && line == old(line) + s
    {
      line := line + s;
    }

    method Puts(s: string)
      modifies this
      ensures lines == old(lines) + [old(line) + s] && line == ""
      ensures old(line) == "" ==> lines == old(lines) + [s]
    {
      assert "" + s == s;
      lines, line := lines + [line + s], "";
    }
  }

  /** generate_wrapper. The two log lines are parameters. What is written is one function whose first
      line is the signature and whose one call is CallText; when a declaration cannot be printed, nothing
      is written at all. */
  method GenerateWrapper(out: Output, fn: Function, replacement: Option<string>, logEntry: string, logExit: string)
    returns (ok: bool)
    requires out.line == ""
    modifies out
    ensures ok <==> Signature(fn).Some?
    ensures out.line == ""
    ensures out.lines == old(out.lines) + (if !ok then [] else
      [Signature(fn).value + " {"] + Prologue(fn, logEntry) + ["  " + CallText(fn, replacement) + ";"] + Epilogue(fn, logExit))
    ensures ok && fn.kind.value != "void" ==>
      exists kind :: Renames(fn.kind.value, kind) && "  " + kind + " _ret_ = " in out.lines[|old(out.lines)|..]
  {
    hide Renames, CallText;
    var args := PassedArgs(fn);
    var signature := Signature(fn);
    if signature.None? { return false; }
    ghost var before := out.lines;
    out.Puts(signature.value + " {");
    EmitPrologue(out, fn, logEntry);
    EmitCall(out, fn, replacement, args);
    EmitEpilogue(out, fn, logExit);
    ok := true;
    ResultIsDeclared(fn, logEntry);
    AppendAll(before, signature.value + " {", Prologue(fn, logEntry), "  " + CallText(fn, replacement) + ";", Epilogue(fn, logExit));
  }

  lemma ResultIsDeclared(fn: Function, logEntry: string)
    requires fn.kind.Some?
    ensures Renames(fn.kind.value, ToShimType(fn.kind.value))
    ensures fn.kind.value != "void" ==> "  " + ToShimType(fn.kind.value) + " _ret_ = " in Prologue(fn, logEntry)
  {
    MappingRenames(fn.kind.value);
  }

  lemma AppendAll(before: seq<string>, first: string, prologue: seq<string>, call: string, epilogue: seq<string>)
    ensures before + [first] + prologue + [call] + epilogue == before + ([first] + prologue + [call] + epilogue)
  {
  }

  method EmitPrologue(out: Output, fn: Function, logEntry: string)
    requires fn.kind.Some? && out.line == ""
    modifies out
    ensures out.lines == old(out.lines) + Prologue(fn, logEntry) && out.line == ""
  {
    ghost var before := out.lines;
    out.Puts("  " + logEntry);
    if IsVariadic(fn) {
      out.Puts("  va_list _args_;");
      out.Puts("  va_start(_args_, " + NameOf(fn.args[|fn.args| - 2]) + ");");
    }
    if fn.kind.value != "void" {
      out.Puts("  " + ToShimType(fn.kind.value) + " _ret_ = ");
    }
    assert out.lines[..|before|] == before && out.lines[|before|..] == Prologue(fn, logEntry);
  }

  method EmitCall(out: Output, fn: Function, replacement: Option<string>, args: seq<Decl>)
    requires fn.name.Some? && args == PassedArgs(fn) && out.line == ""
    modifies out
    ensures out.lines == old(out.lines) + ["  " + CallText(fn, replacement) + ";"] && out.line == ""
  {
    if replacement.Some? {
      out.Print("  " + replacement.value);
    } else {
      out.Print("  ");
      if IsVariadic(fn) { out.Print("v"); }
      out.Print(fn.name.value);
    }
    assert out.line == "  " + Callee(fn, replacement);
    out.Print("(");
    out.Print(Join(CallNames(args), ", "));
    CallLine(fn, replacement);
    out.Puts(");");
  }

  lemma CallLine(fn: Function, replacement: Option<string>)
    requires fn.name.Some?
    ensures "  " + Callee(fn, replacement) + "(" + Join(CallNames(PassedArgs(fn)), ", ") + ");"
      == "  " + CallText(fn, replacement) + ";"
  {
  }

  method EmitEpilogue(out: Output, fn: Function, logExit: string)
    requires fn.kind.Some? && out.line == ""
    modifies out
    ensures out.lines == old(out.lines) + Epilogue(fn, logExit) && out.line == ""
  {
    ghost var before := out.lines;
    if IsVariadic(fn) { out.Puts("  va_end(_args_);"); }
    out.Puts("  " + logExit);
    if fn.kind.value != "void" { out.Puts("  return _ret_;"); }
    out.Puts("}");
    assert out.lines[..|before|] == before && out.lines[|before|..] == Epilogue(fn, logExit);
  }

  /** How many parameters are forwarded: all, but for a lone void. */
  function Forwarded(fn: Function): nat {
    if |fn.args| == 1 && fn.args[0].kind == Some("void") then 0 else |fn.args|
  }

  /** Splitting the call that is emitted gives the function called and, in order, the names of the
      parameters, with the ellipsis replaced by the va_list. Where nothing is passed, the text between the
      parentheses is one empty part. */
  lemma CallForwardsNames(fn: Function, replacement: Option<string>)
    requires fn.name.Some? && CleanType(Callee(fn, replacement))
    requires forall k :: 0 <= k < Forwarded(fn) ==>
      var name := NameOf(fn.args[k]); name == "..." || (name != "" && AllWord(name))
    ensures Split(CallText(fn, replacement)).Some?
    ensures var parts := Split(CallText(fn, replacement)).value;
      && parts != []
      && parts[0] == (if replacement.Some? then replacement.value
                      else if |fn.args| > 1 && fn.args[|fn.args| - 1].name == Some("...") then "v" + fn.name.value
                      else fn.name.value)
      && (Forwarded(fn) == 0 ==> parts[1..] == [""])
      && (Forwarded(fn) > 0 ==> |parts| == 1 + Forwarded(fn))
      && forall k :: 0 <= k < Forwarded(fn) ==> parts[k + 1] == if fn.args[k].name == Some("...") then "_args_" else NameOf(fn.args[k])
  {
    var names := CallNames(PassedArgs(fn));
    if names == [] {
      assert Strip("") == "" && Strip(" " + "") == "";
      CallSplits(Callee(fn, replacement), [""]);
    } else {
      forall k | 0 <= k < |names|
        ensures Balanced(names[k], 0) && Strip(names[k]) == names[k] && Strip(" " + names[k]) == names[k]
      {
        assert AllWord("_args_");
        PlainBalanced(names[k]);
        StripOfStripped(names[k]);
      }
      CallSplits(Callee(fn, replacement), names);
    }
  }

  lemma CallSplits(callee: string, names: seq<string>)
    requires CleanType(callee) && names != []
    requires forall k :: 0 <= k < |names| ==>
      Balanced(names[k], 0) && Strip(names[k]) == names[k] && Strip(" " + names[k]) == names[k]
    ensures Split(callee + "(" + Join(names, ", ") + ")") == Some([callee] + names)
  {
    hide Balanced, Join, Split;
    StripOfStripped(callee);
    SplitSpaced(callee, names);
    assert StripAll(names) == names;
  }
}
