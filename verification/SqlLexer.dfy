/** The scanner's token rules: longest match, earliest rule on ties. */
module SqlLexer {
  import opened SqlGrammar

  predicate IsLetter(c: char) {
    'a' <= c <= 'z' || 'A' <= c <= 'Z' || c == '_'
  }

  predicate IsDigit(c: char) {
    '0' <= c <= '9'
  }

  predicate IsWordChar(c: char) {
    IsLetter(c) || IsDigit(c)
  }

  predicate IsSpace(c: char) {
    c == ' ' || c == '\t' || c == '\r' || c == '\n'
  }

  predicate All(s: string, p: char -> bool) {
    forall i :: 0 <= i < |s| ==> p(s[i])
  }

  const KEYWORDS: seq<string> := ["SELECT", "FROM", "WHERE", "INSERT", "INTO", "VALUES", "UPDATE", "SET"]

  const WORD_RULE: nat := 11
  const NUMBER_RULE: nat := 12
  const SPACE_RULE: nat := 13
  const ANY_RULE: nat := 14

  /** Whether the pattern of the given rule matches the whole of `text`. */
  predicate Matches(rule: nat, text: string) {
    if rule < 8 then text == KEYWORDS[rule]
    else if rule == 8 then text == "="
    else if rule == 9 then text == ";"
    else if rule == 10 then text == ","
    else if rule == WORD_RULE then text != "" && IsLetter(text[0]) && All(text, IsWordChar)
    else if rule == NUMBER_RULE then text != "" && All(text, IsDigit)
    else if rule == SPACE_RULE then text != "" && All(text, IsSpace)
    else if rule == ANY_RULE then |text| == 1 && text[0] != '\n'
    else false
  }

  /** Length of the longest prefix of `s` whose characters all satisfy `p`. */
  function Run(s: string, p: char -> bool): (n: nat)
    ensures n <= |s| && All(s[..n], p) && (n < |s| ==> !p(s[n]))
  {
    if s == "" || !p(s[0]) then 0
    else
      var n := Run(s[1..], p);
      assert forall i :: 0 < i < n + 1 ==> s[i] == s[1..][i - 1] && s[1..][..n][i - 1] == s[i];
      n + 1
  }

  /** Position of the first key equal to `text`, or the number of keys if there is none. */
  function Position(keys: seq<string>, text: string): (r: nat)
    ensures r <= |keys| && (r < |keys| ==> keys[r] == text)
    ensures forall i :: 0 <= i < r ==> keys[i] != text
  {
    if keys == [] || keys[0] == text then 0
    else
      var r := Position(keys[1..], text);
      assert forall i :: 0 < i < r + 1 ==> keys[i] == keys[1..][i - 1];
      r + 1
  }

  /** The rule and length of the next lexeme. */
  function Next(s: string): (m: (nat, nat))
    requires s != ""
    ensures 1 <= m.1 <= |s|
  {
    var c := s[0];
    if IsLetter(c) then
      var n := Run(s, IsWordChar);
      var k := Position(KEYWORDS, s[..n]);
      (if k < 8 then k else WORD_RULE, n)
    else if IsDigit(c) then (NUMBER_RULE, Run(s, IsDigit))
    else if IsSpace(c) then (SPACE_RULE, Run(s, IsSpace))
    else if c == '=' then (8, 1)
    else if c == ';' then (9, 1)
    else if c == ',' then (10, 1)
    else (ANY_RULE, 1)
  }

  /** The number a run of digits denotes. */
  function NumberValue(s: string): nat
    requires All(s, IsDigit)
  {
    if s == "" then 0
    else
      assert IsDigit(s[|s| - 1]);
      NumberValue(s[..|s| - 1]) * 10 + (s[|s| - 1] as int - '0' as int)
  }

  function Keyword(rule: nat): Token {
    if rule == 0 then Select else if rule == 1 then From else if rule == 2 then Where else if rule == 3 then Insert
    else if rule == 4 then Into else if rule == 5 then Values else if rule == 6 then Update else if rule == 7 then Set
    else if rule == 8 then Eq else if rule == 9 then Semicolon else Comma
  }

  /** The token a rule's action returns; white space and unknown characters return none. */
  function TokenFor(rule: nat, text: string): seq<Token>
    requires Matches(rule, text)
  {
    if rule <= 10 then [Keyword(rule)]
    else if rule == WORD_RULE then [Identifier(text)]
    else if rule == NUMBER_RULE then [Number(NumberValue(text))]
    else []
  }

  lemma {:induction false} KeywordIsWord(r: nat)
    requires r < 8
    ensures KEYWORDS[r] != "" && All(KEYWORDS[r], IsWordChar) && IsLetter(KEYWORDS[r][0])
  {
  }

  lemma NextMatches(s: string)
    requires s != ""
    ensures Matches(Next(s).0, s[..Next(s).1])
  {
    var (r, n) := Next(s);
    var text := s[..n];
    assert text[0] == s[0];
  }

  function Lex(s: string): seq<Token> {
    if s == "" then []
    else
      var (rule, n) := Next(s);
      NextMatches(s);
      TokenFor(rule, s[..n]) + Lex(s[n..])
  }

  /** A prefix of characters in a class is no longer than the run. */
  lemma PrefixWithinRun(s: string, n: nat, p: char -> bool)
    requires n <= |s| && All(s[..n], p)
    ensures n <= Run(s, p)
  {
    forall i | 0 <= i < n
      ensures p(s[i])
    {
      assert s[..n][i] == s[i];
    }
  }

  /** The lexeme chosen is the longest any rule matches, by the earliest rule that matches it. */
  lemma LongestEarliest(s: string, rule: nat, n: nat)
    requires s != "" && n <= |s| && Matches(rule, s[..n])
    ensures n < Next(s).1 || (n == Next(s).1 && Next(s).0 <= rule)
  {
    var text := s[..n];
    assert n >= 1 by {
      if rule < 8 { KeywordIsWord(rule); }
    }
    assert text[0] == s[0];
    if rule < 8 || rule == WORD_RULE {
      if rule < 8 { KeywordIsWord(rule); }
      PrefixWithinRun(s, n, IsWordChar);
    } else if rule == NUMBER_RULE {
      PrefixWithinRun(s, n, IsDigit);
    } else if rule == SPACE_RULE {
      PrefixWithinRun(s, n, IsSpace);
    }
  }

  // ----- texts cut at white space, symbols and unknown characters

  lemma {:induction false} RunStops(p: string, r: string, inClass: char -> bool)
    requires r != "" && !inClass(r[0])
    ensures Run(p + r, inClass) == Run(p, inClass)
  {
    if p == "" {
      assert p + r == r;
    } else if inClass(p[0]) {
      RunStops(p[1..], r, inClass);
      assert (p + r)[1..] == p[1..] + r;
    }
  }

  /** White space in front is skipped. */
  lemma SpaceSkipped(c: char, q: string)
    requires IsSpace(c)
    ensures Lex([c] + q) == Lex(q)
  {
    var s := [c] + q;
    assert s[1..] == q;
    var n := Run(q, IsSpace);
    assert Next(s) == (SPACE_RULE, n + 1);
    assert s[n + 1..] == q[n..];
    assert Lex(s) == [] + Lex(q[n..]);
    if n == 0 {
      assert q[0..] == q;
    } else {
      assert Next(q) == (SPACE_RULE, n);
    }
  }

  /** The token of a character that is not part of a word; white space and unknown characters have none. */
  function SymbolToken(c: char): seq<Token> {
    if c == '=' then [Eq] else if c == ';' then [Semicolon] else if c == ',' then [Comma] else []
  }

  lemma SymbolRule(c: char, q: string)
    requires !IsWordChar(c) && !IsSpace(c)
    ensures var rule := Next([c] + q).0; Matches(rule, [c]) && TokenFor(rule, [c]) == SymbolToken(c)
  {
    var s := [c] + q;
    assert s[0] == c && s[..1] == [c];
    NextMatches(s);
  }

  lemma SymbolInFront(c: char, q: string)
    requires !IsWordChar(c)
    ensures Lex([c] + q) == SymbolToken(c) + Lex(q)
  {
    if IsSpace(c) {
      SpaceSkipped(c, q);
    } else {
      var s := [c] + q;
      var (rule, n) := Next(s);
      NextMatches(s);
      assert n == 1 && s[..1] == [c] && s[1..] == q;
      SymbolRule(c, q);
    }
  }

  /** The lexeme in front of `p` is the same when a character outside words follows `p`. */
  lemma NextBefore(p: string, c: char, q: string)
    requires p != "" && !IsWordChar(c) && !IsSpace(p[0])
    ensures Next(p + ([c] + q)) == Next(p)
  {
    var r := [c] + q;
    RunStops(p, r, IsWordChar);
    RunStops(p, r, IsDigit);
    assert (p + r)[0] == p[0];
    assert (p + r)[..Run(p, IsWordChar)] == p[..Run(p, IsWordChar)];
  }

  /** Any text may be cut at any character that is not part of a word: the parts are read on their own, with the token of
      that character, if it has one, between them. */
  lemma {:induction false} CutAtSymbol(p: string, c: char, q: string)
    requires !IsWordChar(c)
    ensures Lex(p + ([c] + q)) == Lex(p) + (SymbolToken(c) + Lex(q))
    decreases |p|
  {
    var r := [c] + q;
    if p == "" {
      assert p + r == r;
      SymbolInFront(c, q);
    } else if IsSpace(p[0]) {
      assert p == [p[0]] + p[1..] && p + r == [p[0]] + (p[1..] + r);
      SpaceSkipped(p[0], p[1..]);
      SpaceSkipped(p[0], p[1..] + r);
      CutAtSymbol(p[1..], c, q);
    } else {
      var (rule, n) := Next(p);
      NextBefore(p, c, q);
      NextMatches(p);
      assert (p + r)[..n] == p[..n] && (p + r)[n..] == p[n..] + r;
      CutAtSymbol(p[n..], c, q);
      var t := TokenFor(rule, p[..n]);
      assert t + (Lex(p[n..]) + (SymbolToken(c) + Lex(q))) == (t + Lex(p[n..])) + (SymbolToken(c) + Lex(q));
    }
  }
}
