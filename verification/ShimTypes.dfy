/** to_shim_type of utils/wrappers.rb: the name a type of glibc gets in the shim. */
module ShimTypes {
  import opened Wrappers
  import opened Text
  import opened Declarations

  function Find(s: string, t: string): (k: Option<nat>)
    ensures k.Some? ==> k.value + |t| <= |s| && s[k.value..k.value + |t|] == t
    decreases |s|
  {
    if StartsWith(s, t) then Some(0)
    else if s == "" then None
    else match Find(s[1..], t) case None => None case Some(k) => Some(k + 1)
  }

  // glob(64|)_t\* at the start: the digits, if it matches.
  function GlobAt(s: string): Option<string> {
    if StartsWith(s, "glob64_t*") then Some("64") else if StartsWith(s, "glob_t*") then Some("") else None
  }

  // /glob(64|)_t\*(\srestrict|)/ : the digits and the qualifier of the first match.
  function FindGlob(s: string): Option<(string, string)> {
    if s == "" then None
    else match GlobAt(s)
      case None => FindGlob(s[1..])
      case Some(digits) =>
        var rest := s[7 + |digits|..];
        Some((digits, if rest != "" && IsSpace(rest[0]) && StartsWith(rest[1..], "restrict") then rest[..9] else ""))
  }

  // pthread_(barrier|cond|mutex|rwlock)attr_t\* at the start: the word in the middle.
  function AttrWord(s: string): Option<string> {
    if StartsWith(s, "pthread_barrierattr_t*") then Some("barrier")
    else if StartsWith(s, "pthread_condattr_t*") then Some("cond")
    else if StartsWith(s, "pthread_mutexattr_t*") then Some("mutex")
    else if StartsWith(s, "pthread_rwlockattr_t*") then Some("rwlock")
    else None
  }

  // The replacement of /^(const |)pthread_(barrier|cond|mutex|rwlock)attr_t\*/
  function AttrType(s: string): Option<string> {
    if StartsWith(s, "const ") && AttrWord(s[6..]).Some? then
      Some("const " + "linux_pthread_" + AttrWord(s[6..]).value + "attr_t*")
    else if AttrWord(s).Some? then Some("" + "linux_pthread_" + AttrWord(s).value + "attr_t*")
    else None
  }

  // (stack_t|sigset_t)($|[^\w_]) at the start: the word and what follows it.
  function StackWordAt(s: string): Option<(string, string)> {
    var w := if StartsWith(s, "stack_t") then "stack_t" else if StartsWith(s, "sigset_t") then "sigset_t" else "";
    if w == "" then None
    else if |s| == |w| then Some((w, ""))
    else if IsWord(s[|w|]) then None
    else Some((w, s[|w|..|w| + 1]))
  }

  // gsub of (^|\s)(stack_t|sigset_t)($|[^\w_]) by a linux_ in front of the word. A word may begin at the
  // start and behind white space; a match eats the character behind the word, so that character does not
  // count as white space in front of the next one.
  function PrefixStackWords(s: string, mayBegin: bool): (r: string)
    ensures s == "" ==> r == ""
    decreases |s|
  {
    if s == "" then ""
    else if mayBegin && StackWordAt(s).Some? then
      var (w, next) := StackWordAt(s).value;
      ("linux_" + w + next) + PrefixStackWords(s[|w| + |next|..], false)
    else [s[0]] + PrefixStackWords(s[1..], IsSpace(s[0]))
  }

  // gsub(/struct\s+/, 'linux_')
  function ReplaceStruct(s: string): string
    decreases |s|
  {
    if s == "" then ""
    else if StartsWith(s, "struct") && SpacePrefix(s[6..]) > 0 then "linux_" + ReplaceStruct(s[6 + SpacePrefix(s[6..])..])
    else [s[0]] + ReplaceStruct(s[1..])
  }

  /** The types the script compares for equality. */
  function ExactType(t: string): Option<string> {
    if t == "cpu_set_t*" then Some("linux_cpu_set_t*")
    else if t == "mode_t" then Some("linux_mode_t")
    else if t == "off_t" then Some("linux_off_t")
    else if t == "off64_t" then Some("linux_off64_t")
    else if t == "fpos_t*" then Some("linux_fpos_t*")
    else if t == "fpos64_t*" then Some("linux_fpos64_t*")
    else if t == "DIR*" then Some("linux_DIR*")
    else if t == "locale_t" then Some("linux_locale_t")
    else if t == "pthread_once_t*" then Some("linux_pthread_once_t*")
    else if t == "pthread_mutex_t*" then Some("linux_pthread_mutex_t*")
    else None
  }

  /** to_shim_type. No type of ExactType matches a pattern, so the place of its cases does not matter. */
  function ToShimType(t: string): string {
    if Find(t, "clockid_t").Some? then
      "linux_clockid_t" + (if StartsWith(t[Find(t, "clockid_t").value + 9..], "*") then "*" else "")
    else if ExactType(t).Some? then ExactType(t).value
    else if FindGlob(t).Some? then "linux_glob" + FindGlob(t).value.0 + "_t*" + FindGlob(t).value.1
    else if AttrType(t).Some? then AttrType(t).value
    else if PrefixStackWords(t, true) != t then PrefixStackWords(t, true)
    else ReplaceStruct(t)
  }

  // ----- What it does, said of the texts alone

  /** The types that are compared for equality: each gets a prefix. */
  const EXACT_TYPES: set<string> := {"cpu_set_t*", "mode_t", "off_t", "off64_t", "fpos_t*", "fpos64_t*", "DIR*", "locale_t",
    "pthread_once_t*", "pthread_mutex_t*"}

  ghost predicate OccursAt(s: string, t: string, k: nat) { k + |t| <= |s| && s[k..k + |t|] == t }

  ghost predicate FirstAt(s: string, t: string, k: nat) {
    OccursAt(s, t, k) && forall i: nat :: i < k ==> !OccursAt(s, t, i)
  }

  ghost predicate Occurs(s: string, t: string) { exists k: nat :: OccursAt(s, t, k) }

  ghost predicate GlobAtIs(s: string, k: nat, digits: string) {
    digits in {"", "64"} && OccursAt(s, "glob" + digits + "_t*", k)
  }

  ghost predicate FirstGlob(s: string, k: nat, digits: string) {
    GlobAtIs(s, k, digits) && forall i: nat, d :: i < k ==> !GlobAtIs(s, i, d)
  }

  /** White space and the word restrict at e, or nothing. */
  function Qualifier(s: string, e: nat): string {
    if e + 9 <= |s| && IsSpace(s[e]) && s[e + 1..e + 9] == "restrict" then s[e..e + 9] else ""
  }

  ghost predicate FoundGlob(s: string, k: nat, digits: string, q: string) {
    FirstGlob(s, k, digits) && q == Qualifier(s, k + 7 + |digits|)
  }

  ghost predicate IsAttr(s: string, qualifier: string, what: string) {
    && qualifier in {"", "const "} && IsAttrWord(what)
    && OccursAt(s, qualifier + "pthread_" + what + "attr_t*", 0)
  }

  /** stack_t or sigset_t as a word of its own: white space or the start in front of it, no word character behind. */
  ghost predicate StackWord(s: string, mayBegin: bool, k: nat, w: string) {
    && w in {"stack_t", "sigset_t"} && OccursAt(s, w, k)
    && (if k == 0 then mayBegin else IsSpace(s[k - 1]))
    && (k + |w| == |s| || !IsWord(s[k + |w|]))
  }

  ghost predicate FirstStackWord(s: string, mayBegin: bool, k: nat, w: string) {
    StackWord(s, mayBegin, k, w) && forall i: nat, v :: i < k ==> !StackWord(s, mayBegin, i, v)
  }

  ghost predicate HasStackWord(s: string, mayBegin: bool) { exists k: nat, w :: StackWord(s, mayBegin, k, w) }

  /** Behind the word and the character that follows it. */
  ghost function WordEnd(s: string, k: nat, w: string): (e: nat)
    requires k + |w| <= |s| && w != ""
    ensures k < e <= |s|
  {
    if k + |w| < |s| then k + |w| + 1 else |s|
  }

  /** r begins with what is before e in s, with the prefix put in at k. */
  ghost predicate PrefixedUpTo(s: string, k: nat, e: nat, r: string)
    requires k <= e <= |s|
  {
    e + 6 <= |r| && r[..e + 6] == s[..k] + "linux_" + s[k..e]
  }

  /** Every such word gets the prefix, from left to right; the character behind one is not looked at again. */
  ghost predicate StackPrefixed(s: string, mayBegin: bool, r: string)
    decreases |s|
  {
    && (!HasStackWord(s, mayBegin) ==> r == s)
    && forall k: nat, w :: FirstStackWord(s, mayBegin, k, w) ==>
         var e := WordEnd(s, k, w);
         PrefixedUpTo(s, k, e, r) && StackPrefixed(s[e..], false, r[e + 6..])
  }

  /** The word struct at k and all the white space behind it, up to e. */
  ghost predicate StructAt(s: string, k: nat, e: nat) {
    && k + 6 < e <= |s| && s[k..k + 6] == "struct" && (forall i :: k + 6 <= i < e ==> IsSpace(s[i]))
    && (e < |s| ==> !IsSpace(s[e]))
  }

  ghost predicate FirstStruct(s: string, k: nat, e: nat) {
    StructAt(s, k, e) && forall i: nat, j: nat :: i < k ==> !StructAt(s, i, j)
  }

  ghost predicate HasStruct(s: string) { exists k: nat, e: nat :: StructAt(s, k, e) }

  /** r begins with what is before k in s, and the prefix. */
  ghost predicate ReplacedUpTo(s: string, k: nat, r: string)
    requires k <= |s|
  {
    k + 6 <= |r| && r[..k + 6] == s[..k] + "linux_"
  }

  /** Each of them, with its white space, becomes the prefix. */
  ghost predicate StructReplaced(s: string, r: string)
    decreases |s|
  {
    && (!HasStruct(s) ==> r == s)
    && forall k: nat, e: nat :: FirstStruct(s, k, e) ==>
         ReplacedUpTo(s, k, r) && StructReplaced(s[e..], r[k + 6..])
  }

  ghost predicate HasGlob(s: string) { exists k: nat, digits :: GlobAtIs(s, k, digits) }

  ghost predicate HasAttr(s: string) { exists qualifier, what :: IsAttr(s, qualifier, what) }

  function GlobName(digits: string, qualifier: string): string { "linux_glob" + digits + "_t*" + qualifier }

  function AttrName(qualifier: string, what: string): string { qualifier + "linux_pthread_" + what + "attr_t*" }

  ghost function ClockName(s: string, k: nat): string { "linux_clockid_t" + (if OccursAt(s, "*", k + 9) then "*" else "") }

  /** r is the Linux name of the type t. The first rule that applies decides: for clocks, for types that are compared
      for equality, for globs, for attributes, for words of signals, for structures. A type that none applies to
      stays as it is. */
  ghost predicate Renames(t: string, r: string) {
    && (forall k: nat :: FirstAt(t, "clockid_t", k) ==> r == ClockName(t, k))
    && (!Occurs(t, "clockid_t") ==> if t in EXACT_TYPES then r == "linux_" + t else RenamesOther(t, r))
  }

  ghost predicate RenamesOther(t: string, r: string) {
    && (forall k: nat, digits, q :: FoundGlob(t, k, digits, q) ==> r == GlobName(digits, q))
    && (!HasGlob(t) ==>
          && (forall qualifier, what :: IsAttr(t, qualifier, what) ==> r == AttrName(qualifier, what))
          && (!HasAttr(t) ==> if HasStackWord(t, true) then StackPrefixed(t, true, r) else StructReplaced(t, r)))
  }

  // ----- Each rule

  lemma Shifted(s: string, a: nat, b: nat)
    requires 1 <= a <= b <= |s|
    ensures s[1..][a - 1..b - 1] == s[a..b]
  {
  }

  lemma OccursShifts(s: string, t: string, k: nat)
    requires s != "" && k > 0
    ensures OccursAt(s, t, k) <==> OccursAt(s[1..], t, k - 1)
  {
    if k + |t| <= |s| { Shifted(s, k, k + |t|); }
  }

  lemma {:induction false} FindIs(s: string, t: string)
    requires t != ""
    ensures match Find(s, t) case None => !Occurs(s, t) case Some(k) => FirstAt(s, t, k)
    decreases |s|
  {
    if StartsWith(s, t) {
      assert OccursAt(s, t, 0);
    } else if s != "" {
      FindIs(s[1..], t);
      forall k: nat ensures OccursAt(s, t, k) <==> k > 0 && OccursAt(s[1..], t, k - 1) {
        if k > 0 { OccursShifts(s, t, k); }
      }
    }
  }

  lemma ExactTypesAre(t: string)
    ensures ExactType(t).Some? <==> t in EXACT_TYPES
  {
  }

  lemma FileNames()
    ensures ExactType("cpu_set_t*") == Some("linux_" + "cpu_set_t*") && ExactType("mode_t") == Some("linux_" + "mode_t")
    ensures ExactType("off_t") == Some("linux_" + "off_t") && ExactType("off64_t") == Some("linux_" + "off64_t")
    ensures ExactType("fpos_t*") == Some("linux_" + "fpos_t*") && ExactType("fpos64_t*") == Some("linux_" + "fpos64_t*")
  {
    assert "linux_" + "cpu_set_t*" == "linux_cpu_set_t*" && "linux_" + "mode_t" == "linux_mode_t";
    assert "linux_" + "off_t" == "linux_off_t" && "linux_" + "off64_t" == "linux_off64_t";
    assert "linux_" + "fpos_t*" == "linux_fpos_t*" && "linux_" + "fpos64_t*" == "linux_fpos64_t*";
  }

  lemma OtherNames()
    ensures ExactType("DIR*") == Some("linux_" + "DIR*") && ExactType("locale_t") == Some("linux_" + "locale_t")
    ensures ExactType("pthread_once_t*") == Some("linux_" + "pthread_once_t*")
    ensures ExactType("pthread_mutex_t*") == Some("linux_" + "pthread_mutex_t*")
  {
    assert "linux_" + "DIR*" == "linux_DIR*" && "linux_" + "locale_t" == "linux_locale_t";
    assert "linux_" + "pthread_once_t*" == "linux_pthread_once_t*" && "linux_" + "pthread_mutex_t*" == "linux_pthread_mutex_t*";
  }

  lemma ExactTypeIs(t: string)
    ensures ExactType(t).Some? <==> t in EXACT_TYPES
    ensures t in EXACT_TYPES ==> ExactType(t) == Some("linux_" + t)
  {
    ExactTypesAre(t);
    FileNames();
    OtherNames();
    hide ExactType;
  }

  /** No exact type contains a k, so none is a clock. */
  lemma ExactTypeIsNoClock(t: string)
    requires t in EXACT_TYPES
    ensures !Occurs(t, "clockid_t")
  {
    assert 'k' !in t;
    hide *;
    forall k: nat ensures !OccursAt(t, "clockid_t", k) { NoClockAt(t, k); }
    NotOccurring(t, "clockid_t");
  }

  lemma NoClockAt(t: string, k: nat)
    requires 'k' !in t
    ensures !OccursAt(t, "clockid_t", k)
  {
    if k + 9 <= |t| { assert t[k..k + 9][4] == t[k + 4] && t[k + 4] in t && "clockid_t"[4] == 'k'; }
  }

  lemma NotOccurring(s: string, t: string)
    requires forall k: nat :: !OccursAt(s, t, k)
    ensures !Occurs(s, t)
  {
  }

  lemma {:induction false} FindGlobIs(s: string)
    ensures FindGlob(s).None? ==> forall k: nat, digits :: !GlobAtIs(s, k, digits)
    ensures FindGlob(s).Some? ==> exists k: nat :: FoundGlob(s, k, FindGlob(s).value.0, FindGlob(s).value.1)
    decreases |s|
  {
    if s != "" {
      forall k: nat, d ensures GlobAtIs(s, k, d) <==> (if k == 0 then GlobAt(s) == Some(d) else GlobAtIs(s[1..], k - 1, d)) {
        GlobShifts(s, k, d);
      }
      match GlobAt(s)
      case None =>
        FindGlobIs(s[1..]);
        if FindGlob(s).Some? {
          var (digits, q) := FindGlob(s).value;
          var k: nat :| FoundGlob(s[1..], k, digits, q);
          QualifierShifts(s, k + 7 + |digits|);
          assert FoundGlob(s, k + 1, digits, q);
        }
      case Some(digits) =>
        QualifierIs(s, 7 + |digits|);
        assert FoundGlob(s, 0, digits, FindGlob(s).value.1);
    }
  }

  lemma GlobShifts(s: string, k: nat, d: string)
    requires s != ""
    ensures GlobAtIs(s, k, d) <==> if k == 0 then GlobAt(s) == Some(d) else GlobAtIs(s[1..], k - 1, d)
  {
    assert "glob" + "" + "_t*" == "glob_t*" && "glob" + "64" + "_t*" == "glob64_t*";
    assert "glob_t*"[4] == '_' && "glob64_t*"[4] == '6';
    var t := "glob" + d + "_t*";
    if k > 0 { OccursShifts(s, t, k); }
    assert StartsWith(s, "glob_t*") ==> s[..7][4] == s[4];
    assert StartsWith(s, "glob64_t*") ==> s[..9][4] == s[4];
  }

  lemma QualifierShifts(s: string, e: nat)
    requires s != ""
    ensures Qualifier(s[1..], e) == Qualifier(s, e + 1)
  {
    if e + 10 <= |s| { assert s[1..][e + 1..e + 9] == s[e + 2..e + 10] && s[1..][e..e + 9] == s[e + 1..e + 10]; }
  }

  lemma QualifierIs(s: string, e: nat)
    requires e <= |s|
    ensures var rest := s[e..];
      Qualifier(s, e) == if rest != "" && IsSpace(rest[0]) && StartsWith(rest[1..], "restrict") then rest[..9] else ""
  {
    if e + 9 <= |s| { assert s[e..][1..][..8] == s[e + 1..e + 9] && s[e..][..9] == s[e..e + 9]; }
  }

  lemma AttrNamesDiffer(s: string)
    ensures StartsWith(s, "pthread_barrierattr_t*") ==> |s| > 8 && s[8] == 'b'
    ensures StartsWith(s, "pthread_condattr_t*") ==> |s| > 8 && s[8] == 'c'
    ensures StartsWith(s, "pthread_mutexattr_t*") ==> |s| > 8 && s[8] == 'm'
    ensures StartsWith(s, "pthread_rwlockattr_t*") ==> |s| > 8 && s[8] == 'r'
  {
    assert StartsWith(s, "pthread_barrierattr_t*") ==> s[..22][8] == 'b';
    assert StartsWith(s, "pthread_condattr_t*") ==> s[..19][8] == 'c';
    assert StartsWith(s, "pthread_mutexattr_t*") ==> s[..20][8] == 'm';
    assert StartsWith(s, "pthread_rwlockattr_t*") ==> s[..21][8] == 'r';
  }

  predicate IsAttrWord(what: string) { what in {"barrier", "cond", "mutex", "rwlock"} }

  lemma AttrWordIs(s: string, what: string)
    ensures AttrWord(s) == Some(what) <==> IsAttrWord(what) && StartsWith(s, "pthread_" + what + "attr_t*")
  {
    AttrNamesDiffer(s);
    AttrNames();
    hide StartsWith;
  }

  lemma AttrNames()
    ensures "pthread_" + "barrier" + "attr_t*" == "pthread_barrierattr_t*" && "pthread_" + "cond" + "attr_t*" == "pthread_condattr_t*"
    ensures "pthread_" + "mutex" + "attr_t*" == "pthread_mutexattr_t*" && "pthread_" + "rwlock" + "attr_t*" == "pthread_rwlockattr_t*"
  {
  }

  /** The pattern of attributes applies at most one way, and gives the prefixed name behind the qualifier. */
  lemma AttrTypeIs(t: string)
    ensures AttrType(t).Some? <==> HasAttr(t)
    ensures forall qualifier, what :: IsAttr(t, qualifier, what) ==> AttrType(t) == Some(AttrName(qualifier, what))
  {
    hide AttrType, IsAttr;
    forall qualifier, what | IsAttr(t, qualifier, what) ensures AttrType(t) == Some(AttrName(qualifier, what)) {
      AttrIs(t, qualifier, what);
    }
    if AttrType(t).Some? { AttrIsThere(t); }
  }

  lemma AttrSplits(t: string, qualifier: string, what: string)
    ensures IsAttr(t, qualifier, what) <==>
      && qualifier in {"", "const "} && IsAttrWord(what)
      && StartsWith(t, qualifier) && StartsWith(t[|qualifier|..], "pthread_" + what + "attr_t*")
  {
    var name := "pthread_" + what + "attr_t*";
    assert qualifier + "pthread_" + what + "attr_t*" == qualifier + name;
    BeginsWithBoth(t, qualifier, name);
    hide StartsWith, OccursAt;
  }

  lemma BeginsWithBoth(s: string, a: string, b: string)
    ensures OccursAt(s, a + b, 0) <==> StartsWith(s, a) && StartsWith(s[|a|..], b)
  {
    if |a + b| <= |s| {
      assert s[0..|a + b|] == s[..|a|] + s[|a|..][..|b|];
      assert (a + b)[..|a|] == a && (a + b)[|a|..] == b;
    }
  }

  lemma AttrIs(t: string, qualifier: string, what: string)
    requires IsAttr(t, qualifier, what)
    ensures AttrType(t) == Some(AttrName(qualifier, what))
  {
    AttrSplits(t, qualifier, what);
    AttrWordIs(t[|qualifier|..], what);
    if qualifier == "" {
      assert t[0..] == t;
      StartsWithFirst(t, "pthread_" + what + "attr_t*", 'p');
      StartsWithFirst(t, "const ", 'c');
    }
    hide AttrWord, StartsWith, IsAttr;
  }

  lemma StartsWithFirst(s: string, t: string, c: char)
    requires t != "" && t[0] == c
    ensures StartsWith(s, t) ==> s != "" && s[0] == c
  {
    if StartsWith(s, t) { assert s[0] == s[..|t|][0]; }
  }

  lemma AttrIsThere(t: string)
    requires AttrType(t).Some?
    ensures HasAttr(t)
  {
    var qualifier := if StartsWith(t, "const ") && AttrWord(t[6..]).Some? then "const " else "";
    assert t[0..] == t;
    hide AttrWord;
    var what := AttrWord(t[|qualifier|..]).value;
    AttrWordIs(t[|qualifier|..], what);
    AttrSplits(t, qualifier, what);
    assert IsAttr(t, qualifier, what);
  }

  lemma WordShifts(s: string, mayBegin: bool, k: nat, w: string)
    requires s != "" && k > 0
    ensures StackWord(s, mayBegin, k, w) <==> StackWord(s[1..], IsSpace(s[0]), k - 1, w)
  {
    OccursShifts(s, w, k);
  }

  lemma StackWordAtIs(s: string)
    ensures StackWordAt(s).None? ==> forall w :: !StackWord(s, true, 0, w)
    ensures StackWordAt(s).Some? ==>
      var (w, next) := StackWordAt(s).value;
      var e := if |w| < |s| then |w| + 1 else |s|;
      StackWord(s, true, 0, w) && w + next == s[..e]
    ensures forall w :: StackWord(s, true, 0, w) ==> StackWordAt(s).Some? && StackWordAt(s).value.0 == w
  {
    assert StartsWith(s, "stack_t") ==> s[..7][1] == s[1];
    assert StartsWith(s, "sigset_t") ==> s[..8][1] == s[1];
    assert "stack_t"[1] == 't' && "sigset_t"[1] == 'i';
  }

  /** A text that begins with no such word, behind which the rest is done. */
  lemma CharPrefixed(s: string, mayBegin: bool, r: string)
    requires s != "" && (forall w :: !StackWord(s, mayBegin, 0, w)) && StackPrefixed(s[1..], IsSpace(s[0]), r)
    ensures StackPrefixed(s, mayBegin, [s[0]] + r)
  {
    HasShifts(s, mayBegin);
    assert [s[0]] + s[1..] == s;
    hide StackWord, IsSpace, HasStackWord, WordEnd, PrefixedUpTo;
    forall k: nat, w | FirstStackWord(s, mayBegin, k, w)
      ensures var e := WordEnd(s, k, w); var r' := [s[0]] + r;
        PrefixedUpTo(s, k, e, r') && StackPrefixed(s[e..], false, r'[e + 6..])
    {
      assert k > 0;
      FirstInRest(s, mayBegin, k, w);
      var e := WordEnd(s, k, w);
      CharInFront(s, k, e, r);
    }
  }

  lemma CharInFront(s: string, k: nat, e: nat, r: string)
    requires 0 < k < e <= |s| && PrefixedUpTo(s[1..], k - 1, e - 1, r)
    ensures PrefixedUpTo(s, k, e, [s[0]] + r) && s[1..][e - 1..] == s[e..] && ([s[0]] + r)[e + 6..] == r[e + 5..]
  {
    var rest, r' := s[1..], [s[0]] + r;
    assert r'[..e + 6] == [s[0]] + r[..e + 5];
    assert [s[0]] + (rest[..k - 1] + "linux_" + rest[k - 1..e - 1]) == s[..k] + "linux_" + s[k..e];
  }

  lemma FirstInRest(s: string, mayBegin: bool, k: nat, w: string)
    requires s != "" && FirstStackWord(s, mayBegin, k, w) && k > 0
    ensures FirstStackWord(s[1..], IsSpace(s[0]), k - 1, w)
    ensures WordEnd(s[1..], k - 1, w) == WordEnd(s, k, w) - 1
  {
    WordShifts(s, mayBegin, k, w);
    forall i: nat, v | i < k - 1 ensures !StackWord(s[1..], IsSpace(s[0]), i, v) { WordShifts(s, mayBegin, i + 1, v); }
  }

  ghost predicate WordsDone(s: string, mayBegin: bool) {
    && StackPrefixed(s, mayBegin, PrefixStackWords(s, mayBegin))
    && (PrefixStackWords(s, mayBegin) != s <==> HasStackWord(s, mayBegin))
  }

  lemma {:induction false} PrefixStackWordsIs(s: string, mayBegin: bool)
    ensures WordsDone(s, mayBegin)
    decreases |s|
  {
    if s != "" {
      hide WordsDone, HasStackWord, StackPrefixed, PrefixStackWords;
      if mayBegin && StackWordAt(s).Some? {
        var (w, next) := StackWordAt(s).value;
        PrefixStackWordsIs(s[|w| + |next|..], false);
        WordStep(s, w, next);
      } else {
        PrefixStackWordsIs(s[1..], IsSpace(s[0]));
        CharStep(s, mayBegin);
      }
    }
  }

  lemma WordStep(s: string, w: string, next: string)
    requires StackWordAt(s) == Some((w, next)) && WordsDone(s[|w| + |next|..], false)
    ensures WordsDone(s, true)
  {
    StackWordAtIs(s);
    var e := |w| + |next|;
    WordPrefixed(s, w, e, PrefixStackWords(s[e..], false));
    assert "linux_" + w + next == "linux_" + s[..e];
    hide StackWord, HasStackWord, StackPrefixed;
  }

  lemma CharStep(s: string, mayBegin: bool)
    requires s != "" && !(mayBegin && StackWordAt(s).Some?) && WordsDone(s[1..], IsSpace(s[0]))
    ensures WordsDone(s, mayBegin)
  {
    StackWordAtIs(s);
    var r := PrefixStackWords(s[1..], IsSpace(s[0]));
    CharPrefixed(s, mayBegin, r);
    HasShifts(s, mayBegin);
    assert ([s[0]] + r)[1..] == r && s == [s[0]] + s[1..];
    hide StackWord, HasStackWord, StackPrefixed;
  }

  /** A text that begins with such a word. */
  lemma WordPrefixed(s: string, w: string, e: nat, rest: string)
    requires StackWord(s, true, 0, w) && e == WordEnd(s, 0, w) && StackPrefixed(s[e..], false, rest)
    ensures StackPrefixed(s, true, "linux_" + s[..e] + rest) && HasStackWord(s, true) && "linux_" + s[..e] + rest != s
  {
    var r := "linux_" + s[..e] + rest;
    assert r[0] == 'l' && s[0] == s[0..|w|][0] == 's';
    assert s[0..e] == s[..e] && s[..0] + "linux_" == "linux_" && r[..e + 6] == s[..0] + "linux_" + s[0..e] && r[e + 6..] == rest;
    forall k: nat, v | FirstStackWord(s, true, k, v) ensures k == 0 && WordEnd(s, 0, v) == e { SameWord(s, w, k, v); }
    hide IsWord, IsSpace, OccursAt;
  }

  lemma SameWord(s: string, w: string, k: nat, v: string)
    requires StackWord(s, true, 0, w) && FirstStackWord(s, true, k, v)
    ensures k == 0 && v == w
  {
    StackWordAtIs(s);
  }

  lemma HasShifts(s: string, mayBegin: bool)
    requires s != "" && forall w :: !StackWord(s, mayBegin, 0, w)
    ensures HasStackWord(s, mayBegin) <==> HasStackWord(s[1..], IsSpace(s[0]))
  {
    if k: nat, w :| StackWord(s, mayBegin, k, w) { WordShifts(s, mayBegin, k, w); }
    if k: nat, w :| StackWord(s[1..], IsSpace(s[0]), k, w) { WordShifts(s, mayBegin, k + 1, w); }
  }

  lemma StructShifts(s: string, k: nat, e: nat)
    requires s != "" && k > 0 && e > 0
    ensures StructAt(s, k, e) <==> StructAt(s[1..], k - 1, e - 1)
  {
    if k + 6 <= |s| { Shifted(s, k, k + 6); }
    if StructAt(s[1..], k - 1, e - 1) {
      forall i | k + 6 <= i < e ensures IsSpace(s[i]) { assert IsSpace(s[1..][i - 1]); }
    }
  }

  lemma {:induction false} SpacePrefixIs(s: string)
    ensures forall i :: 0 <= i < SpacePrefix(s) ==> IsSpace(s[i])
    ensures SpacePrefix(s) < |s| ==> !IsSpace(s[SpacePrefix(s)])
    decreases |s|
  {
    if s != "" && IsSpace(s[0]) {
      SpacePrefixIs(s[1..]);
      forall i | 0 < i < SpacePrefix(s) ensures IsSpace(s[i]) { assert IsSpace(s[1..][i - 1]); }
    }
  }

  /** Where a struct begins, its end is where the white space ends. */
  lemma StructHere(s: string)
    ensures var e := 6 + (if |s| >= 6 then SpacePrefix(s[6..]) else 0);
      && (StartsWith(s, "struct") && SpacePrefix(s[6..]) > 0 ==> StructAt(s, 0, e))
      && forall j: nat :: StructAt(s, 0, j) ==> StartsWith(s, "struct") && SpacePrefix(s[6..]) > 0 && j == e
  {
    if |s| >= 6 {
      var n := SpacePrefix(s[6..]);
      SpacePrefixIs(s[6..]);
      assert forall i :: 6 <= i < 6 + n ==> s[i] == s[6..][i - 6];
      assert s[0..6] == s[..6];
      forall j: nat | StructAt(s, 0, j) ensures StartsWith(s, "struct") && n > 0 && j == 6 + n {
        assert IsSpace(s[6]) && s[6] == s[6..][0];
        assert 6 + n < |s| ==> !IsSpace(s[6 + n]) by { assert 6 + n < |s| ==> s[6 + n] == s[6..][n]; }
      }
    }
  }

  lemma CharReplaced(s: string, r: string)
    requires s != "" && (forall e: nat :: !StructAt(s, 0, e)) && StructReplaced(s[1..], r)
    ensures StructReplaced(s, [s[0]] + r)
  {
    HasStructShifts(s);
    assert [s[0]] + s[1..] == s;
    hide StructAt, HasStruct, ReplacedUpTo;
    forall k: nat, e: nat | FirstStruct(s, k, e)
      ensures e <= |s| && var r' := [s[0]] + r; ReplacedUpTo(s, k, r') && StructReplaced(s[e..], r'[k + 6..])
    {
      assert k > 0;
      FirstStructInRest(s, k, e);
      CharBefore(s, k, e, r);
    }
  }

  lemma CharBefore(s: string, k: nat, e: nat, r: string)
    requires 0 < k < e <= |s| && ReplacedUpTo(s[1..], k - 1, r)
    ensures ReplacedUpTo(s, k, [s[0]] + r) && s[1..][e - 1..] == s[e..] && ([s[0]] + r)[k + 6..] == r[k + 5..]
  {
    assert ([s[0]] + r)[..k + 6] == [s[0]] + r[..k + 5];
    assert [s[0]] + (s[1..][..k - 1] + "linux_") == s[..k] + "linux_";
  }

  lemma HasStructShifts(s: string)
    requires s != "" && forall e: nat :: !StructAt(s, 0, e)
    ensures HasStruct(s) <==> HasStruct(s[1..])
  {
    if k: nat, e: nat :| StructAt(s, k, e) { StructShifts(s, k, e); }
    if k: nat, e: nat :| StructAt(s[1..], k, e) { StructShifts(s, k + 1, e + 1); }
  }

  lemma FirstStructInRest(s: string, k: nat, e: nat)
    requires s != "" && FirstStruct(s, k, e) && k > 0
    ensures k < e <= |s| && FirstStruct(s[1..], k - 1, e - 1)
  {
    StructShifts(s, k, e);
    forall i: nat, j: nat | i < k - 1 ensures !StructAt(s[1..], i, j) { StructShifts(s, i + 1, j + 1); }
  }

  lemma {:induction false} ReplaceStructIs(s: string)
    ensures StructReplaced(s, ReplaceStruct(s))
    decreases |s|
  {
    StructHere(s);
    if s == "" {
    } else if StartsWith(s, "struct") && SpacePrefix(s[6..]) > 0 {
      var e := 6 + SpacePrefix(s[6..]);
      ReplaceStructIs(s[e..]);
      var r := ReplaceStruct(s);
      assert s[..0] == "" && r[..6] == s[..0] + "linux_" && r[6..] == ReplaceStruct(s[e..]);
    } else {
      ReplaceStructIs(s[1..]);
      CharReplaced(s, ReplaceStruct(s[1..]));
    }
  }

  // ----- The mapping

  lemma FoundOnce(s: string, k: nat, d: string, q: string, k': nat, d': string, q': string)
    requires FoundGlob(s, k, d, q) && FoundGlob(s, k', d', q')
    ensures d == d' && q == q'
  {
    assert k == k';
    GlobDigits(s, k, d);
    GlobDigits(s, k, d');
  }

  lemma GlobDigits(s: string, k: nat, d: string)
    requires GlobAtIs(s, k, d)
    ensures k + 4 < |s| && (d == "" <==> s[k + 4] == '_')
  {
    assert ("glob" + d + "_t*")[4] == if d == "" then '_' else '6';
    assert s[k..k + |"glob" + d + "_t*"|][4] == s[k + 4];
  }

  lemma FoundGlobIsFound(s: string)
    ensures FindGlob(s).None? ==> forall k: nat, digits :: !GlobAtIs(s, k, digits)
    ensures forall k: nat, d, q :: FoundGlob(s, k, d, q) ==> FindGlob(s) == Some((d, q))
  {
    FindGlobIs(s);
    forall k: nat, d, q | FoundGlob(s, k, d, q) ensures FindGlob(s) == Some((d, q)) {
      var k': nat :| FoundGlob(s, k', FindGlob(s).value.0, FindGlob(s).value.1);
      FoundOnce(s, k, d, q, k', FindGlob(s).value.0, FindGlob(s).value.1);
    }
  }

  lemma GlobNamed(t: string)
    requires Find(t, "clockid_t").None? && ExactType(t).None? && FindGlob(t).Some?
    ensures ToShimType(t) == GlobName(FindGlob(t).value.0, FindGlob(t).value.1) && HasGlob(t)
  {
    FindGlobIs(t);
    var k: nat :| FoundGlob(t, k, FindGlob(t).value.0, FindGlob(t).value.1);
    assert GlobAtIs(t, k, FindGlob(t).value.0);
    hide Find, ExactType, FindGlob, AttrType, PrefixStackWords, ReplaceStruct, FoundGlob, StartsWith;
  }

  lemma OtherRenames(t: string)
    requires Find(t, "clockid_t").None? && ExactType(t).None?
    ensures RenamesOther(t, ToShimType(t))
  {
    FoundGlobIsFound(t);
    AttrTypeIs(t);
    PrefixStackWordsIs(t, true);
    ReplaceStructIs(t);
    if FindGlob(t).Some? { GlobNamed(t); }
    hide Find, ExactType, FindGlob, AttrType, PrefixStackWords, ReplaceStruct, FoundGlob, IsAttr, HasGlob, HasAttr, GlobName,
      AttrName, HasStackWord, StackPrefixed, StructReplaced, StartsWith;
  }

  lemma ClockNamed(t: string)
    requires Find(t, "clockid_t").Some?
    ensures ToShimType(t) == ClockName(t, Find(t, "clockid_t").value)
    ensures forall k: nat :: FirstAt(t, "clockid_t", k) ==> k == Find(t, "clockid_t").value
  {
    FindIs(t, "clockid_t");
    var k := Find(t, "clockid_t").value;
    if k + 10 <= |t| { assert t[k + 9..][..1] == t[k + 9..k + 10]; }
    hide Find, ExactType, FindGlob, AttrType, PrefixStackWords, ReplaceStruct;
  }

  /** The mapping does what the rules say. */
  lemma MappingRenames(t: string)
    ensures Renames(t, ToShimType(t))
  {
    FindIs(t, "clockid_t");
    ExactTypeIs(t);
    if t in EXACT_TYPES { ExactTypeIsNoClock(t); }
    if Find(t, "clockid_t").Some? { ClockNamed(t); } else if t !in EXACT_TYPES { OtherRenames(t); }
    hide Find, ExactType, FindGlob, AttrType, PrefixStackWords, ReplaceStruct, EXACT_TYPES, OccursAt, Occurs, RenamesOther, StartsWith,
      ClockName;
  }

  // ----- The rules leave no choice

  lemma FirstStackWordExists(s: string, mayBegin: bool, k: nat, w: string) returns (j: nat, v: string)
    requires StackWord(s, mayBegin, k, w)
    ensures FirstStackWord(s, mayBegin, j, v) && j + |v| <= |s| && v != ""
    decreases k
  {
    j, v := k, w;
    if i: nat, u :| i < k && StackWord(s, mayBegin, i, u) { j, v := FirstStackWordExists(s, mayBegin, i, u); }
  }

  lemma FirstStructExists(s: string, k: nat, e: nat) returns (j: nat, f: nat)
    requires StructAt(s, k, e)
    ensures FirstStruct(s, j, f)
    decreases k
  {
    j, f := k, e;
    if i: nat, g: nat :| i < k && StructAt(s, i, g) { j, f := FirstStructExists(s, i, g); }
  }

  lemma PrefixedAt(s: string, mayBegin: bool, r: string, k: nat, w: string, e: nat)
    requires StackPrefixed(s, mayBegin, r) && FirstStackWord(s, mayBegin, k, w) && e == WordEnd(s, k, w)
    ensures PrefixedUpTo(s, k, e, r) && StackPrefixed(s[e..], false, r[e + 6..])
  {
  }

  lemma {:induction false} PrefixedOneWay(s: string, mayBegin: bool, r: string, r': string)
    requires StackPrefixed(s, mayBegin, r) && StackPrefixed(s, mayBegin, r')
    ensures r == r'
    decreases |s|
  {
    if k: nat, w :| StackWord(s, mayBegin, k, w) {
      var j, v := FirstStackWordExists(s, mayBegin, k, w);
      var e := WordEnd(s, j, v);
      PrefixedAt(s, mayBegin, r, j, v, e);
      PrefixedAt(s, mayBegin, r', j, v, e);
      PrefixedOneWay(s[e..], false, r[e + 6..], r'[e + 6..]);
      SameParts(r, r', e + 6);
      hide *;
    }
  }

  lemma SameParts(r: string, r': string, n: nat)
    requires n <= |r| && n <= |r'| && r[..n] == r'[..n] && r[n..] == r'[n..]
    ensures r == r'
  {
    assert r == r[..n] + r[n..] && r' == r'[..n] + r'[n..];
  }

  lemma {:induction false} ReplacedOneWay(s: string, r: string, r': string)
    requires StructReplaced(s, r) && StructReplaced(s, r')
    ensures r == r'
    decreases |s|
  {
    if k: nat, e: nat :| StructAt(s, k, e) {
      var j, f := FirstStructExists(s, k, e);
      hide StructAt;
      ReplacedOneWay(s[f..], r[j + 6..], r'[j + 6..]);
      SameParts(r, r', j + 6);
    }
  }

  /** The mapping is what the rules say, and nothing else is. */
  lemma RenamesIsMapping(t: string, r: string)
    ensures Renames(t, r) <==> r == ToShimType(t)
  {
    MappingRenames(t);
    var r' := ToShimType(t);
    hide ToShimType;
    FindIs(t, "clockid_t");
    FindGlobIs(t);
    if Renames(t, r) {
      if Find(t, "clockid_t").None? && t !in EXACT_TYPES && FindGlob(t).None? && !HasAttr(t) {
        if HasStackWord(t, true) { PrefixedOneWay(t, true, r, r'); } else { ReplacedOneWay(t, r, r'); }
      }
    }
    hide Find, FindGlob, EXACT_TYPES, GlobAtIs, FirstGlob, IsAttr, OccursAt, GlobName, AttrName, ClockName, HasStackWord,
      StackPrefixed, StructReplaced, Qualifier;
  }
}
