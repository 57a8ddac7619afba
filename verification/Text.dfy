/** Character classes and string helpers of the Ruby scripts. */
module Text {
  import opened Wrappers

  /** \w */
  predicate IsWord(c: char) { 'a' <= c <= 'z' || 'A' <= c <= 'Z' || '0' <= c <= '9' || c == '_' }

  /** \s, and what String#strip removes from the characters the scripts accept */
  predicate IsSpace(c: char) { c == ' ' || '\t' <= c <= '\r' }

  predicate IsDigit(c: char) { '0' <= c <= '9' }

  lemma LowerLetters(c: char)
    ensures 'a' <= c <= 'z' <==> c in "abcdefghijklmnopqrstuvwxyz"
  {
    assert 'a' <= c <= 'z' ==> "abcdefghijklmnopqrstuvwxyz"[c as int - 'a' as int] == c;
  }

  lemma UpperLetters(c: char)
    ensures 'A' <= c <= 'Z' <==> c in "ABCDEFGHIJKLMNOPQRSTUVWXYZ"
  {
    assert 'A' <= c <= 'Z' ==> "ABCDEFGHIJKLMNOPQRSTUVWXYZ"[c as int - 'A' as int] == c;
  }

  /** Every letter, digit and underscore, and nothing else. */
  lemma WordCharacters(c: char)
    ensures IsWord(c) <==>
      c in "abcdefghijklmnopqrstuvwxyz" || c in "ABCDEFGHIJKLMNOPQRSTUVWXYZ" || c in "0123456789" || c == '_'
  {
    LowerLetters(c);
    UpperLetters(c);
    assert '0' <= c <= '9' ==> "0123456789"[c as int - '0' as int] == c;
  }

  lemma SpaceCharacters(c: char)
    ensures IsSpace(c) <==> c in " \t\n\U{000b}\U{000c}\r"
  {
  }

  predicate AllWord(s: string) { forall i :: 0 <= i < |s| ==> IsWord(s[i]) }

  predicate AllDigits(s: string) { forall i :: 0 <= i < |s| ==> IsDigit(s[i]) }

  predicate NoSpace(s: string) { forall i :: 0 <= i < |s| ==> !IsSpace(s[i]) }

  predicate StartsWith(s: string, t: string) { |t| <= |s| && s[..|t|] == t }

  predicate EndsWith(s: string, t: string) { |t| <= |s| && s[|s| - |t|..] == t }

  function LStrip(s: string): string {
    if s != "" && IsSpace(s[0]) then LStrip(s[1..]) else s
  }

  function RStrip(s: string): string {
    if s != "" && IsSpace(s[|s| - 1]) then RStrip(s[..|s| - 1]) else s
  }

  function Strip(s: string): string { RStrip(LStrip(s)) }

  function Join(parts: seq<string>, sep: string): string {
    if parts == [] then "" else if |parts| == 1 then parts[0] else parts[0] + sep + Join(parts[1..], sep)
  }

  function Digits(n: nat): (s: string)
    ensures s != "" && AllDigits(s)
  {
    if n < 10 then [('0' as int + n) as char] else Digits(n / 10) + [('0' as int + n % 10) as char]
  }

  /** What a text of decimal digits stands for. */
  function Value(s: string): int {
    if s == "" then 0 else 10 * Value(s[..|s| - 1]) + s[|s| - 1] as int - '0' as int
  }

  lemma {:induction false} ValueOfDigits(n: nat)
    ensures Value(Digits(n)) == n
  {
    if n < 10 {
      assert Digits(n)[..0] == "" && Digits(n)[0] as int - '0' as int == n;
    } else {
      ValueOfDigits(n / 10);
      var last := ('0' as int + n % 10) as char;
      assert Digits(n)[..|Digits(n)| - 1] == Digits(n / 10) && Digits(n)[|Digits(n)| - 1] == last;
    }
  }

  /** Where the longest suffix of word characters begins. */
  function WordStart(s: string): (k: nat)
    ensures k <= |s| && (forall i :: k <= i < |s| ==> IsWord(s[i])) && (k > 0 ==> !IsWord(s[k - 1]))
  {
    if s == "" || !IsWord(s[|s| - 1]) then |s| else WordStart(s[..|s| - 1])
  }

  /** The index of the last occurrence of c, if there is one. */
  function LastIndex(s: string, c: char): (k: Option<nat>)
    ensures k.Some? ==> k.value < |s| && s[k.value] == c && forall i :: k.value < i < |s| ==> s[i] != c
    ensures k.None? <==> c !in s
  {
    if s == "" then None
    else if s[|s| - 1] == c then Some(|s| - 1)
    else
      assert s == s[..|s| - 1] + [s[|s| - 1]];
      LastIndex(s[..|s| - 1], c)
  }

  /** Not empty, and neither end is white space. */
  predicate Stripped(s: string) { s != "" && !IsSpace(s[0]) && !IsSpace(s[|s| - 1]) }

  lemma StripOfStripped(s: string)
    requires Stripped(s)
    ensures Strip(s) == s && Strip(" " + s) == s && Strip(s + " ") == s
  {
  }

  /** The longest word suffix of a text that ends in a word behind a character that is none. */
  lemma WordStartIs(s: string, word: string)
    requires s != "" && !IsWord(s[|s| - 1]) && AllWord(word)
    ensures WordStart(s + word) == |s|
  {
    var k := WordStart(s + word);
    assert !IsWord((s + word)[|s| - 1]);
    assert forall i :: |s| <= i < |s + word| ==> IsWord((s + word)[i]);
  }

  lemma {:induction false} LastIndexIs(s: string, c: char, t: string)
    requires c !in t
    ensures LastIndex(s + [c] + t, c) == Some(|s|)
    decreases |t|
  {
    var whole := s + [c] + t;
    if t == "" {
      assert whole[|s|] == c;
    } else {
      var t' := t[..|t| - 1];
      assert whole[..|whole| - 1] == s + [c] + t';
      assert t[|t| - 1] in t;
      LastIndexIs(s, c, t');
    }
  }
}
