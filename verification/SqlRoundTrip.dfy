/** Lexing and parsing undo printing. */
module SqlRoundTrip {
  import opened Options
  import opened SqlGrammar
  import opened SqlParser
  import opened SqlCorrectness
  import opened SqlLexer

  function TextOf(t: Token): string {
    match t
    case Identifier(name) => name
    case Number(num) => Decimal(num)
    case Select => "SELECT"
    case From => "FROM"
    case Where => "WHERE"
    case Insert => "INSERT"
    case Into => "INTO"
    case Values => "VALUES"
    case Update => "UPDATE"
    case Set => "SET"
    case Eq => "="
    case Comma => ","
    case Semicolon => ";"
  }

  /** An identifier is a word that is not a keyword. */
  predicate IsName(name: string) {
    Matches(WORD_RULE, name) && Position(KEYWORDS, name) == 8
  }

  predicate Printable(t: Token) {
    t.Identifier? ==> IsName(t.name)
  }

  predicate IsWord(t: Token) {
    !t.Number? && !t.Eq? && !t.Comma? && !t.Semicolon?
  }

  /** Whether text starting with `c` would lengthen the token's text. */
  predicate Extends(t: Token, c: char) {
    (IsWord(t) && IsWordChar(c)) || (t.Number? && IsDigit(c))
  }

  /** The token's text is not lengthened by what follows. */
  predicate Stops(t: Token, rest: string) {
    rest != "" ==> !Extends(t, rest[0])
  }

  // ----- numerals

  lemma {:induction false} DecimalDigits(n: nat)
    ensures All(Decimal(n), IsDigit)
    ensures NumberValue(Decimal(n)) == n
  {
    if n >= 10 {
      DecimalDigits(n / 10);
      var s := Decimal(n);
      assert s[..|s| - 1] == Decimal(n / 10);
    } else {
      assert Decimal(n)[..0] == "";
    }
  }

  // ----- one lexeme

  lemma RunStops(s: string, n: nat, p: char -> bool)
    requires n <= |s| && (n < |s| ==> !p(s[n]))
    ensures Run(s, p) <= n
  {
    var r := Run(s, p);
    assert forall i :: 0 <= i < r ==> s[..r][i] == s[i];
  }

  lemma RunExact(a: string, rest: string, p: char -> bool)
    requires All(a, p) && (rest != "" ==> !p(rest[0]))
    ensures Run(a + rest, p) == |a|
  {
    var s := a + rest;
    assert s[..|a|] == a;
    PrefixWithinRun(s, |a|, p);
    if rest != "" { assert s[|a|] == rest[0]; }
    RunStops(s, |a|, p);
  }

  lemma TextShape(t: Token)
    requires Printable(t)
    ensures TextOf(t) != ""
    ensures IsWord(t) ==> IsLetter(TextOf(t)[0]) && All(TextOf(t), IsWordChar)
    ensures t.Number? ==> IsDigit(TextOf(t)[0]) && All(TextOf(t), IsDigit)
    ensures !IsSpace(TextOf(t)[0])
  {
    if t.Number? { DecimalDigits(t.num); }
  }

  lemma NextIsText(t: Token, rest: string)
    requires Printable(t) && Stops(t, rest)
    ensures TextOf(t) + rest != "" && Next(TextOf(t) + rest).1 == |TextOf(t)|
  {
    TextShape(t);
    var s := TextOf(t) + rest;
    assert s[0] == TextOf(t)[0];
    if IsWord(t) {
      RunExact(TextOf(t), rest, IsWordChar);
    } else if t.Number? {
      RunExact(TextOf(t), rest, IsDigit);
    }
  }

  /** The rule that claims a token's text returns that token. */
  lemma RuleReturnsToken(t: Token, s: string)
    requires Printable(t) && s != "" && s[..Next(s).1] == TextOf(t)
    ensures Matches(Next(s).0, TextOf(t)) && TokenFor(Next(s).0, TextOf(t)) == [t]
  {
    NextMatches(s);
    TextShape(t);
    assert s[0] == TextOf(t)[0];
    if t.Number? {
      DecimalDigits(t.num);
    } else if IsWord(t) {
      KeywordsDiffer(t);
    }
  }

  lemma KeywordsDistinct(i: nat, j: nat)
    requires j < i < 8
    ensures KEYWORDS[j] != KEYWORDS[i]
  {
    if |KEYWORDS[j]| == |KEYWORDS[i]| {
      assert KEYWORDS[j][0] != KEYWORDS[i][0];
    }
  }

  lemma KeywordsDiffer(t: Token)
    requires Printable(t) && IsWord(t)
    ensures var k := Position(KEYWORDS, TextOf(t)); if t.Identifier? then k == 8 else k < 8 && Keyword(k) == t
  {
    if !t.Identifier? {
      var i := t.Kind() - 5;
      assert TextOf(t) == KEYWORDS[i];
      var k := Position(KEYWORDS, KEYWORDS[i]);
      if k < i { KeywordsDistinct(i, k); }
    }
  }

  lemma LexToken(t: Token, rest: string)
    requires Printable(t) && Stops(t, rest)
    ensures Lex(TextOf(t) + rest) == [t] + Lex(rest)
  {
    var s := TextOf(t) + rest;
    NextIsText(t, rest);
    assert s[..|TextOf(t)|] == TextOf(t) && s[|TextOf(t)|..] == rest;
    RuleReturnsToken(t, s);
  }

  lemma LexSpace(gap: string, rest: string)
    requires All(gap, IsSpace) && (rest != "" ==> !IsSpace(rest[0]))
    ensures Lex(gap + rest) == Lex(rest)
  {
    if gap == "" {
      assert gap + rest == rest;
    } else {
      var s := gap + rest;
      assert s[0] == gap[0];
      RunExact(gap, rest, IsSpace);
      assert s[|gap|..] == rest;
    }
  }

  // ----- any layout

  /** Two tokens may stand side by side without white space. */
  predicate MayTouch(t: Token, u: Token) {
    !(IsWord(t) && (IsWord(u) || u.Number?)) && !(t.Number? && u.Number?)
  }

  /** White space after each token, nonempty where the next token would otherwise run on. */
  ghost predicate IsLayout(tokens: seq<Token>, gaps: seq<string>) {
    && |gaps| == |tokens|
    && (forall i :: 0 <= i < |tokens| ==> Printable(tokens[i]) && All(gaps[i], IsSpace))
    && (forall i :: 0 <= i < |tokens| - 1 ==> gaps[i] != "" || MayTouch(tokens[i], tokens[i + 1]))
  }

  function Render(tokens: seq<Token>, gaps: seq<string>): string
    requires |gaps| == |tokens|
  {
    if tokens == [] then "" else TextOf(tokens[0]) + (gaps[0] + Render(tokens[1..], gaps[1..]))
  }

  lemma LayoutStart(tokens: seq<Token>, gaps: seq<string>)
    requires IsLayout(tokens, gaps) && tokens != []
    ensures var r := Render(tokens, gaps); r != "" && r[0] == TextOf(tokens[0])[0] && !IsSpace(r[0])
  {
    TextShape(tokens[0]);
  }

  /** Lexing undoes printing under every layout. */
  lemma {:induction false} LexUndoesPrinting(tokens: seq<Token>, gaps: seq<string>)
    requires IsLayout(tokens, gaps)
    ensures Lex(Render(tokens, gaps)) == tokens
    decreases |tokens|
  {
    if tokens != [] {
      var t, rest := tokens[0], Render(tokens[1..], gaps[1..]);
      assert IsLayout(tokens[1..], gaps[1..]) by {
        assert forall i :: 0 <= i < |tokens| - 2 ==> tokens[1..][i + 1] == tokens[i + 2] && gaps[1..][i] == gaps[i + 1];
      }
      LexUndoesPrinting(tokens[1..], gaps[1..]);
      if |tokens| > 1 {
        LayoutStart(tokens[1..], gaps[1..]);
        TextShape(tokens[1]);
      }
      LexSpace(gaps[0], rest);
      assert Stops(t, gaps[0] + rest) by {
        if gaps[0] != "" {
          assert (gaps[0] + rest)[0] == gaps[0][0];
        } else {
          assert gaps[0] + rest == rest;
          if |tokens| > 1 { TouchingStops(t, tokens[1], rest); }
        }
      }
      LexToken(t, gaps[0] + rest);
      assert tokens == [t] + tokens[1..];
    }
  }

  lemma TouchingStops(t: Token, u: Token, rest: string)
    requires MayTouch(t, u) && Printable(u) && rest != "" && rest[0] == TextOf(u)[0]
    ensures Stops(t, rest)
  {
    TextShape(u);
  }

  // ----- statements

  function ShowTail(table: string, condition: string): string {
    " " + ("FROM" + (" " + (table + (" " + ("WHERE" + (" " + (condition + ";")))))))
  }

  /** A statement written out from what a parse reports: SELECT columns FROM table WHERE condition; */
  function Show(r: Report): string {
    "SELECT" + (" " + (r.columns + ShowTail(r.table, r.condition)))
  }

  lemma {:induction false} LexColumns(first: string, more: seq<string>, rest: string)
    requires IsName(first) && (forall i :: 0 <= i < |more| ==> IsName(more[i]))
    requires rest != "" && !IsWordChar(rest[0])
    ensures Lex(first + Joined(more) + rest) == [Identifier(first)] + Names(more) + Lex(rest)
    decreases more
  {
    if more == [] {
      assert first + Joined(more) + rest == TextOf(Identifier(first)) + rest;
      LexToken(Identifier(first), rest);
    } else {
      var tail := more[0] + Joined(more[1..]) + rest;
      assert first + Joined(more) + rest == first + (TextOf(Comma) + tail) by {
        Regroup(first, ",", more[0], Joined(more[1..]), rest);
      }
      assert forall i :: 0 <= i < |more[1..]| ==> more[1..][i] == more[i + 1];
      LexColumns(more[0], more[1..], rest);
      LexName(first, tail);
      NamesStart(first, more, Lex(rest));
    }
  }

  lemma LexName(name: string, tail: string)
    requires IsName(name)
    ensures Lex(name + (TextOf(Comma) + tail)) == [Identifier(name)] + ([Comma] + Lex(tail))
  {
    StartsSolid(Comma, tail);
    LexToken(Identifier(name), TextOf(Comma) + tail);
    LexToken(Comma, tail);
  }

  lemma Regroup(f: string, c: string, m: string, j: string, r: string)
    ensures f + (c + m + j) + r == f + (c + (m + j + r))
  {
  }

  lemma NamesStart(first: string, more: seq<string>, after: seq<Token>)
    requires more != []
    ensures [Identifier(first)] + ([Comma] + ([Identifier(more[0])] + Names(more[1..]) + after))
            == [Identifier(first)] + Names(more) + after
  {
  }

  lemma LexTight(t: Token, u: Token, rest: string)
    requires Printable(t) && Printable(u) && MayTouch(t, u)
    ensures Lex(TextOf(t) + (TextOf(u) + rest)) == [t] + Lex(TextOf(u) + rest)
  {
    StartsSolid(u, rest);
    TouchingStops(t, u, TextOf(u) + rest);
    LexToken(t, TextOf(u) + rest);
  }

  /** Four tokens that may touch, printed without white space. */
  lemma LexFour(a: Token, b: Token, c: Token, d: Token)
    requires Printable(a) && Printable(b) && Printable(c) && Printable(d)
    requires MayTouch(a, b) && MayTouch(b, c) && MayTouch(c, d)
    ensures Lex(TextOf(a) + (TextOf(b) + (TextOf(c) + (TextOf(d) + "")))) == [a] + ([b] + ([c] + ([d] + Lex(""))))
  {
    LexTight(a, b, TextOf(c) + (TextOf(d) + ""));
    LexTight(b, c, TextOf(d) + "");
    LexTight(c, d, "");
    LexToken(d, "");
  }

  lemma RegroupFour(a: string, b: string, c: string, d: string)
    ensures a + b + c + d == a + (b + (c + (d + "")))
  {
  }

  lemma LexCondition(id: string, num: nat)
    requires IsName(id)
    ensures Lex(id + "=" + Decimal(num) + ";") == [Identifier(id)] + ([Eq] + ([Number(num)] + ([Semicolon] + Lex(""))))
    ensures id + "=" + Decimal(num) + ";" != "" && !IsSpace((id + "=" + Decimal(num) + ";")[0])
  {
    RegroupFour(TextOf(Identifier(id)), TextOf(Eq), TextOf(Number(num)), TextOf(Semicolon));
    LexFour(Identifier(id), Eq, Number(num), Semicolon);
    StartsSolid(Identifier(id), TextOf(Eq) + (TextOf(Number(num)) + (TextOf(Semicolon) + "")));
  }

  /** After a word: a space, then what follows. */
  lemma LexSpaced(t: Token, rest: string)
    requires Printable(t) && rest != "" && !IsSpace(rest[0])
    ensures Lex(TextOf(t) + (" " + rest)) == [t] + Lex(rest)
    ensures TextOf(t) + (" " + rest) != "" && !IsSpace((TextOf(t) + (" " + rest))[0])
  {
    assert (" " + rest)[0] == ' ';
    LexToken(t, " " + rest);
    LexSpace(" ", rest);
    StartsSolid(t, " " + rest);
  }

  /** Text that starts with a token starts with no white space. */
  lemma StartsSolid(t: Token, rest: string)
    requires Printable(t)
    ensures TextOf(t) + rest != "" && (TextOf(t) + rest)[0] == TextOf(t)[0] && !IsSpace((TextOf(t) + rest)[0])
  {
    TextShape(t);
  }

  lemma LexTwo(b: Token, c: Token, rest: string)
    requires Printable(b) && Printable(c) && rest != "" && !IsSpace(rest[0])
    ensures var s := TextOf(b) + (" " + (TextOf(c) + (" " + rest)));
            s != "" && !IsSpace(s[0]) && Lex(s) == [b] + ([c] + Lex(rest))
  {
    LexSpaced(c, rest);
    LexSpaced(b, TextOf(c) + (" " + rest));
  }

  lemma LexLed(a: Token, rest: string)
    requires Printable(a) && rest != "" && !IsSpace(rest[0])
    ensures Lex(" " + (TextOf(a) + (" " + rest))) == [a] + Lex(rest)
  {
    LexSpaced(a, rest);
    LexSpace(" ", TextOf(a) + (" " + rest));
  }

  lemma LexTail(table: string, id: string, num: nat)
    requires IsName(table) && IsName(id)
    ensures Lex(ShowTail(table, id + "=" + Decimal(num))) == Tail(table, id, num) + Lex("")
  {
    LexCondition(id, num);
    var cond := id + "=" + Decimal(num) + ";";
    LexTwo(Identifier(table), Where, cond);
    LexLed(From, TextOf(Identifier(table)) + (" " + (TextOf(Where) + (" " + cond))));
    TailSplit(table, id, num, Lex(""));
  }

  ghost predicate GoodNames(first: string, more: seq<string>, table: string, id: string) {
    IsName(first) && (forall i :: 0 <= i < |more| ==> IsName(more[i])) && IsName(table) && IsName(id)
  }

  lemma ColumnsStart(first: string, more: seq<string>, rest: string)
    requires IsName(first)
    ensures first + Joined(more) + rest != "" && !IsSpace((first + Joined(more) + rest)[0])
  {
    TextShape(Identifier(first));
    assert (first + Joined(more) + rest)[0] == first[0];
  }

  /** Printing a statement and lexing the text gives back its tokens. */
  lemma LexShow(first: string, more: seq<string>, table: string, id: string, num: nat)
    requires GoodNames(first, more, table, id)
    ensures Lex(Show(SentenceReport(first, more, table, id, num))) == Sentence(first, more, table, id, num)
  {
    var tail := ShowTail(table, id + "=" + Decimal(num));
    var cols := first + Joined(more) + tail;
    ColumnsStart(first, more, tail);
    LexSpaced(Select, cols);
    assert tail[0] == ' ';
    LexColumns(first, more, tail);
    LexTail(table, id, num);
    assert Lex("") == [] && Tail(table, id, num) + [] == Tail(table, id, num);
    SentenceGrouped(first, more, Tail(table, id, num));
  }

  lemma SentenceGrouped(first: string, more: seq<string>, tail: seq<Token>)
    ensures [Select] + ([Identifier(first)] + Names(more) + tail) == [Select, Identifier(first)] + Names(more) + tail
  {
  }

  /** Printing any statement, then lexing and parsing the text, reports the comma-joined columns, the
      table and the condition. */
  lemma ShowLexParse(first: string, more: seq<string>, table: string, id: string, num: nat)
    requires GoodNames(first, more, table, id)
    ensures ParseFrom(AtStart, Lex(Show(SentenceReport(first, more, table, id, num))))
            == Outcome(true, Some(SentenceReport(first, more, table, id, num)))
  {
    LexShow(first, more, table, id, num);
    SentenceReported(first, more, table, id, num, []);
    assert Sentence(first, more, table, id, num) + [] == Sentence(first, more, table, id, num);
  }

  // ----- any input at all

  /** Everything the scanner returns could have been printed. */
  lemma {:induction false} LexedIsPrintable(s: string, i: nat)
    requires i < |Lex(s)|
    ensures Printable(Lex(s)[i])
    decreases |s|
  {
    var (rule, n) := Next(s);
    NextMatches(s);
    var head := TokenFor(rule, s[..n]);
    if i >= |head| {
      LexedIsPrintable(s[n..], i - |head|);
    }
  }

  lemma NamesPrintable(names: seq<string>, before: seq<Token>, after: seq<Token>, i: nat)
    requires i < |names| && forall k :: 0 <= k < |before + Names(names) + after| ==> Printable((before + Names(names) + after)[k])
    ensures IsName(names[i])
    decreases names
  {
    var all := before + Names(names) + after;
    assert all[|before| + 1] == Identifier(names[0]);
    if i > 0 {
      var before' := before + [Comma, Identifier(names[0])];
      assert before' + Names(names[1..]) + after == all;
      NamesPrintable(names[1..], before', after, i - 1);
    }
  }

  ghost predicate AllPrintable(tokens: seq<Token>) {
    forall i :: 0 <= i < |tokens| ==> Printable(tokens[i])
  }

  lemma SentenceNames(first: string, more: seq<string>, table: string, id: string, num: nat, tail: seq<Token>)
    requires AllPrintable(Sentence(first, more, table, id, num) + tail)
    ensures GoodNames(first, more, table, id)
  {
    var before, after := [Select, Identifier(first)], Tail(table, id, num) + tail;
    var tokens := Sentence(first, more, table, id, num) + tail;
    assert tokens == before + Names(more) + after;
    assert tokens[1] == Identifier(first);
    forall i | 0 <= i < |more|
      ensures IsName(more[i])
    {
      NamesPrintable(more, before, after, i);
    }
    var b := |before + Names(more)|;
    assert tokens[b + 1] == Identifier(table) && tokens[b + 3] == Identifier(id);
  }

  /** Whatever text was parsed, writing its report out as a SELECT and parsing that gives the same report. */
  lemma RebuildIsStable(s: string, r: Report)
    requires ParseFrom(AtStart, Lex(s)).printed == Some(r)
    ensures ParseFrom(AtStart, Lex(Show(r))) == Outcome(true, Some(r))
  {
    var tokens := Lex(s);
    var first, more, table, id, num, tail := ReportedIsSentence(tokens);
    SentenceReported(first, more, table, id, num, tail);
    forall i | 0 <= i < |tokens|
      ensures Printable(tokens[i])
    {
      LexedIsPrintable(s, i);
    }
    SentenceNames(first, more, table, id, num, tail);
    ShowLexParse(first, more, table, id, num);
  }

  // ----- the joined columns

  function SplitAt(s: string, acc: string): seq<string> {
    if s == "" then [acc]
    else if s[0] == ',' then [acc] + SplitAt(s[1..], "")
    else SplitAt(s[1..], acc + [s[0]])
  }

  lemma {:induction false} SplitName(name: string, acc: string, rest: string)
    requires ',' !in name
    ensures SplitAt(name + rest, acc) == SplitAt(rest, acc + name)
    decreases name
  {
    if name == "" {
      assert name + rest == rest && acc + name == acc;
    } else {
      assert (name + rest)[1..] == name[1..] + rest && (name + rest)[0] == name[0];
      SplitName(name[1..], acc + [name[0]], rest);
      assert acc + [name[0]] + name[1..] == acc + name;
    }
  }

  lemma NameHasNoComma(name: string)
    requires IsName(name)
    ensures ',' !in name
  {
    assert forall i :: 0 <= i < |name| ==> IsWordChar(name[i]);
  }

  /** The reported column string splits back into the columns. */
  lemma {:induction false} ColumnsSplit(first: string, more: seq<string>)
    requires IsName(first) && forall i :: 0 <= i < |more| ==> IsName(more[i])
    ensures SplitAt(first + Joined(more), "") == [first] + more
    decreases more
  {
    NameHasNoComma(first);
    SplitName(first, "", Joined(more));
    assert "" + first == first;
    if more != [] {
      assert Joined(more)[1..] == more[0] + Joined(more[1..]);
      ColumnsSplit(more[0], more[1..]);
      assert more == [more[0]] + more[1..];
    }
  }
}
