/** split_prototype of src/prototypes.rb: a C prototype is cut at its outermost parentheses and at the
    commas directly inside them. */
module Splitter {
  import opened Wrappers
  import opened Text

  // The characters the scanner copies: [\w\s\*\^\[\]\.\+].
  predicate IsPlain(c: char) {
    IsWord(c) || IsSpace(c) || c == '*' || c == '^' || c == '[' || c == ']' || c == '.' || c == '+'
  }

  const NBSP: char := '\U{00a0}'

  /** Where the first comment terminator is; a comment does not cross a line. */
  function CommentEnd(s: string): (k: Option<nat>)
    ensures k.Some? ==> k.value <= |s|
  {
    if |s| < 2 || s[0] == '\n' then None
    else if s[0] == '*' && s[1] == '/' then Some(2)
    else match CommentEnd(s[1..]) case None => None case Some(k) => Some(k + 1)
  }

  // prototype.gsub(/\/\*.*?\*\//, "")
  function StripComments(s: string): string
    decreases |s|
  {
    if s == "" then ""
    else if |s| >= 2 && s[0] == '/' && s[1] == '*' && CommentEnd(s[2..]).Some? then
      StripComments(s[2 + CommentEnd(s[2..]).value..])
    else [s[0]] + StripComments(s[1..])
  }

  datatype Scan = Scan(parts: seq<string>, depth: int, decl: string)

  /** What the scanner does with one character; None is its exception. */
  function ScanChar(st: Scan, c: char): Option<Scan> {
    if c == '(' then
      Some(if st.depth == 0 then Scan(st.parts + [st.decl], 1, "") else Scan(st.parts, st.depth + 1, st.decl + "("))
    else if c == ')' then
      Some(if st.depth == 1 then Scan(st.parts + [st.decl], 0, st.decl) else Scan(st.parts, st.depth - 1, st.decl + ")"))
    else if c == ',' then
      Some(if st.depth == 1 then Scan(st.parts + [st.decl], 1, "") else st.(decl := st.decl + ","))
    else if IsPlain(c) then Some(st.(decl := st.decl + [c]))
    else if c == NBSP then Some(st.(decl := st.decl + " "))
    else None
  }

  function ScanAll(st: Scan, s: string): Option<Scan>
    decreases |s|
  {
    if s == "" then Some(st)
    else match ScanChar(st, s[0]) case None => None case Some(next) => ScanAll(next, s[1..])
  }

  const START := Scan([], 0, "")

  function StripAll(parts: seq<string>): (r: seq<string>)
    ensures |r| == |parts| && forall i :: 0 <= i < |parts| ==> r[i] == Strip(parts[i])
  {
    seq(|parts|, i requires 0 <= i < |parts| => Strip(parts[i]))
  }

  /** The parts of a prototype, or None where the scanner raises. */
  function Split(prototype: string): Option<seq<string>> {
    match ScanAll(START, StripComments(prototype))
    case None => None
    case Some(st) => Some(StripAll(st.parts))
  }

  /** Opening minus closing parentheses. */
  function Depth(s: string): int {
    if s == "" then 0
    else Depth(s[..|s| - 1]) + (if s[|s| - 1] == '(' then 1 else if s[|s| - 1] == ')' then -1 else 0)
  }

  /** The loop; at every character its counter is the nesting depth of what was read. */
  method SplitPrototype(prototype: string) returns (r: Option<seq<string>>)
    ensures r == Split(prototype)
  {
    var text := StripComments(prototype);
    var st := START;
    var i := 0;
    while i < |text|
      invariant 0 <= i <= |text|
      invariant st.depth == Depth(text[..i])
      invariant ScanAll(st, text[i..]) == ScanAll(START, text)
    {
      assert text[..i + 1][..i] == text[..i] && text[i..][1..] == text[i + 1..];
      match ScanChar(st, text[i]) {
        case None => return None;
        case Some(next) => st := next;
      }
      i := i + 1;
    }
    r := Some(StripAll(st.parts));
  }

  lemma {:induction false} DepthAppend(s: string, c: char)
    ensures Depth(s + [c]) == Depth(s) + (if c == '(' then 1 else if c == ')' then -1 else 0)
  {
    assert (s + [c])[..|s|] == s;
  }

  /** The counter of the scanner is the nesting depth of what it has read. */
  lemma {:induction false} DepthIs(s: string)
    requires ScanAll(START, s).Some?
    ensures ScanAll(START, s).value.depth == Depth(s)
    decreases |s|
  {
    if s != "" {
      var init, last := s[..|s| - 1], s[|s| - 1];
      assert s == init + [last];
      ScanPrefix(START, init, [last]);
      DepthIs(init);
      ScanAppend(START, init, [last]);
      var st := ScanAll(START, init).value;
      assert [last][1..] == "";
      assert ScanAll(st, [last]) == ScanChar(st, last);
      DepthAppend(init, last);
    }
  }

  /** A text that is scanned to its end is scanned to the end of each prefix. */
  lemma {:induction false} ScanPrefix(st: Scan, s: string, t: string)
    requires ScanAll(st, s + t).Some?
    ensures ScanAll(st, s).Some?
    decreases |s|
  {
    if s != "" {
      assert (s + t)[0] == s[0] && (s + t)[1..] == s[1..] + t;
      ScanPrefix(ScanChar(st, s[0]).value, s[1..], t);
    }
  }

  // ----- Comments and spaces

  /** c is nowhere followed by d. */
  predicate Without(s: string, c: char, d: char) { forall i :: 0 <= i < |s| - 1 && s[i] == c ==> s[i + 1] != d }

  lemma {:induction false} CommentEndIs(body: string, rest: string)
    requires Without(body, '*', '/') && '\n' !in body
    ensures CommentEnd(body + ("*/" + rest)) == Some(|body| + 2)
    decreases |body|
  {
    var s := body + ("*/" + rest);
    if body == "" {
      assert s[0] == '*' && s[1] == '/';
    } else {
      assert s[0] == body[0] && s[0] in body && s[1..] == body[1..] + ("*/" + rest);
      assert s[1] == if |body| > 1 then body[1] else '*';
      forall c | c in body[1..] ensures c in body {}
      CommentEndIs(body[1..], rest);
    }
  }

  lemma CommentFirst(body: string, rest: string)
    requires Without(body, '*', '/') && '\n' !in body
    ensures StripComments("/*" + body + "*/" + rest) == StripComments(rest)
  {
    var s := "/*" + body + "*/" + rest;
    assert s[0] == '/' && s[1] == '*' && s[2..] == body + ("*/" + rest);
    CommentEndIs(body, rest);
    assert s[2 + (|body| + 2)..] == rest;
  }

  lemma NotFirst(s: string)
    requires |s| >= 2 && (s[0] != '/' || s[1] != '*')
    ensures StripComments(s) == [s[0]] + StripComments(s[1..])
  {
  }

  /** A comment is removed, and nothing else. */
  lemma {:induction false} CommentIsRemoved(before: string, body: string, rest: string)
    requires Without(before, '/', '*') && Without(body, '*', '/') && '\n' !in body
    ensures StripComments(before + ("/*" + body + "*/" + rest)) == before + StripComments(rest)
    decreases |before|
  {
    var comment := "/*" + body + "*/" + rest;
    var s := before + comment;
    assert comment[0] == '/' && |comment| >= 4;
    if before == "" {
      CommentFirst(body, rest);
      assert s == comment && before + StripComments(rest) == StripComments(rest);
    } else {
      assert s[0] == before[0] && s[1] == (if |before| > 1 then before[1] else '/') && s[1..] == before[1..] + comment;
      NotFirst(s);
      CommentIsRemoved(before[1..], body, rest);
      hide StripComments;
      assert [before[0]] + (before[1..] + StripComments(rest)) == before + StripComments(rest);
    }
  }

  function Respaced(s: string): (r: string)
    ensures |r| == |s| && forall i :: 0 <= i < |s| ==> r[i] == if s[i] == '\U{00a0}' then ' ' else s[i]
  {
    seq(|s|, i requires 0 <= i < |s| => if s[i] == '\U{00a0}' then ' ' else s[i])
  }

  /** A non-breaking space counts as a space. */
  lemma {:induction false} NonBreakingIsSpace(st: Scan, s: string)
    ensures ScanAll(st, Respaced(s)) == ScanAll(st, s)
    decreases |s|
  {
    if s != "" {
      assert Respaced(s)[1..] == Respaced(s[1..]);
      assert ScanChar(st, Respaced(s)[0]) == ScanChar(st, s[0]);
      var next := ScanChar(st, s[0]);
      if next.Some? { NonBreakingIsSpace(next.value, s[1..]); }
    } else {
      assert Respaced(s) == s;
    }
  }

  // ----- Splitting undoes printing

  predicate PlainText(s: string) { forall i :: 0 <= i < |s| ==> IsPlain(s[i]) }

  /** An argument: its parentheses match, and its commas are inside them. d are open already. */
  predicate Balanced(s: string, d: nat) {
    if s == "" then d == 0
    else if s[0] == '(' then Balanced(s[1..], d + 1)
    else if s[0] == ')' then d > 0 && Balanced(s[1..], d - 1)
    else if s[0] == ',' then d > 0 && Balanced(s[1..], d)
    else IsPlain(s[0]) && Balanced(s[1..], d)
  }

  predicate AllBalanced(args: seq<string>) { forall i :: 0 <= i < |args| ==> Balanced(args[i], 0) }

  lemma {:induction false} ScanAppend(st: Scan, s: string, t: string)
    requires ScanAll(st, s).Some?
    ensures ScanAll(st, s + t) == ScanAll(ScanAll(st, s).value, t)
    decreases |s|
  {
    if s == "" {
      assert s + t == t;
    } else {
      assert (s + t)[0] == s[0] && (s + t)[1..] == s[1..] + t;
      ScanAppend(ScanChar(st, s[0]).value, s[1..], t);
    }
  }

  /** Inside parentheses an argument is copied as it stands. */
  lemma {:induction false} ScanArgument(parts: seq<string>, decl: string, s: string, d: nat)
    requires Balanced(s, d)
    ensures ScanAll(Scan(parts, 1 + d, decl), s) == Some(Scan(parts, 1, decl + s))
    decreases |s|
  {
    if s == "" {
      assert decl + s == decl;
    } else {
      var d' := if s[0] == '(' then d + 1 else if s[0] == ')' then d - 1 else d;
      ScanArgument(parts, decl + [s[0]], s[1..], d');
      assert decl + [s[0]] + s[1..] == decl + s;
    }
  }

  lemma {:induction false} ScanHead(parts: seq<string>, decl: string, s: string)
    requires PlainText(s)
    ensures ScanAll(Scan(parts, 0, decl), s) == Some(Scan(parts, 0, decl + s))
    decreases |s|
  {
    if s == "" {
      assert decl + s == decl;
    } else {
      ScanHead(parts, decl + [s[0]], s[1..]);
      assert decl + [s[0]] + s[1..] == decl + s;
    }
  }

  lemma {:induction false} ScanArguments(parts: seq<string>, args: seq<string>)
    requires args != [] && AllBalanced(args)
    ensures ScanAll(Scan(parts, 1, ""), Join(args, ",") + ")") == Some(Scan(parts + args, 0, args[|args| - 1]))
    decreases |args|
  {
    if |args| == 1 {
      ScanLastArgument(parts, args[0]);
      assert args == [args[0]];
    } else {
      var rest := Join(args[1..], ",") + ")";
      assert Join(args, ",") + ")" == args[0] + ("," + rest);
      ScanOneArgument(parts, args[0], "," + rest);
      ScanComma(parts, args[0], rest);
      ScanArguments(parts + [args[0]], args[1..]);
      assert parts + [args[0]] + args[1..] == parts + args;
    }
  }

  lemma ScanLastArgument(parts: seq<string>, arg: string)
    requires Balanced(arg, 0)
    ensures ScanAll(Scan(parts, 1, ""), arg + ")") == Some(Scan(parts + [arg], 0, arg))
  {
    ScanOneArgument(parts, arg, ")");
    assert ScanChar(Scan(parts, 1, arg), ')') == Some(Scan(parts + [arg], 0, arg));
    assert ")"[1..] == "";
    assert ScanAll(Scan(parts + [arg], 0, arg), "") == Some(Scan(parts + [arg], 0, arg));
  }

  lemma ScanOneArgument(parts: seq<string>, arg: string, rest: string)
    requires Balanced(arg, 0)
    ensures ScanAll(Scan(parts, 1, ""), arg + rest) == ScanAll(Scan(parts, 1, arg), rest)
  {
    ScanArgument(parts, "", arg, 0);
    assert "" + arg == arg;
    ScanAppend(Scan(parts, 1, ""), arg, rest);
  }

  lemma ScanComma(parts: seq<string>, arg: string, rest: string)
    ensures ScanAll(Scan(parts, 1, arg), "," + rest) == ScanAll(Scan(parts + [arg], 1, ""), rest)
  {
  }

  lemma {:induction false} NoCommentNoChange(s: string)
    requires '/' !in s
    ensures StripComments(s) == s
    decreases |s|
  {
    if s != "" {
      assert s[0] in s;
      assert '/' !in s[1..];
      NoCommentNoChange(s[1..]);
    }
  }

  lemma {:induction false} BalancedHasNoSlash(s: string, d: nat)
    requires Balanced(s, d)
    ensures '/' !in s
    decreases |s|
  {
    if s != "" {
      BalancedHasNoSlash(s[1..], if s[0] == '(' then d + 1 else if s[0] == ')' then d - 1 else d);
      assert s == [s[0]] + s[1..];
    }
  }

  lemma {:induction false} JoinHasNoSlash(args: seq<string>)
    requires AllBalanced(args)
    ensures '/' !in Join(args, ",")
    decreases |args|
  {
    if args != [] {
      BalancedHasNoSlash(args[0], 0);
      JoinHasNoSlash(args[1..]);
    }
  }

  lemma ScanOpen(head: string, rest: string)
    requires PlainText(head)
    ensures ScanAll(START, head + ("(" + rest)) == ScanAll(Scan([head], 1, ""), rest)
  {
    ScanHead([], "", head);
    assert "" + head == head;
    ScanAppend(START, head, "(" + rest);
    assert ("(" + rest)[1..] == rest;
    assert [] + [head] == [head];
  }

  lemma PrintedHasNoSlash(head: string, args: seq<string>)
    requires PlainText(head) && AllBalanced(args)
    ensures '/' !in head + "(" + Join(args, ",") + ")"
  {
    JoinHasNoSlash(args);
  }

  /** Splitting head(arguments joined by commas) gives the stripped head and the stripped arguments. */
  lemma SplitInvertsPrinting(head: string, args: seq<string>)
    requires PlainText(head) && args != [] && AllBalanced(args)
    ensures Split(head + "(" + Join(args, ",") + ")") == Some([Strip(head)] + StripAll(args))
  {
    var inside := Join(args, ",") + ")";
    var text := head + "(" + Join(args, ",") + ")";
    PrintedHasNoSlash(head, args);
    NoCommentNoChange(text);
    assert text == head + ("(" + inside);
    ScanOpen(head, inside);
    ScanArguments([head], args);
    assert StripAll([head] + args) == [Strip(head)] + StripAll(args);
  }
}
