/** The SELECT grammar: tokens, productions, derivations and the value each production computes. */
module SqlGrammar {

  datatype Token =
    | Identifier(name: string)
    | Number(num: nat)
    | Select | From | Where | Insert | Into | Values | Update | Set | Eq | Comma | Semicolon
  {
    /** The symbol number the parse tables use. */
    function Kind(): (k: nat)
      ensures 3 <= k <= 15
    {
      match this
      case Identifier(_) => 3
      case Number(_) => 4
      case Select => 5
      case From => 6
      case Where => 7
      case Insert => 8
      case Into => 9
      case Values => 10
      case Update => 11
      case Set => 12
      case Eq => 13
      case Comma => 14
      case Semicolon => 15
    }
  }

  /** What a parsed statement reports. */
  datatype Report = Report(columns: string, table: string, condition: string)

  // ----- decimal numerals

  function Digit(d: nat): char
    requires d < 10
  {
    "0123456789"[d]
  }

  function Decimal(n: nat): (s: string)
    ensures |s| >= 1
  {
    if n < 10 then [Digit(n)] else Decimal(n / 10) + [Digit(n % 10)]
  }

  // ----- productions

  datatype Symbol = Terminal(kind: nat) | StatementSym | ColumnListSym | TableNameSym | ConditionSym

  const RULES: set<nat> := {2, 3, 4, 5, 6}

  function Lhs(rule: nat): Symbol {
    if rule == 2 then StatementSym
    else if rule == 3 || rule == 4 then ColumnListSym
    else if rule == 5 then TableNameSym
    else ConditionSym
  }

  function Rhs(rule: nat): seq<Symbol> {
    if rule == 2 then
      [Terminal(Select.Kind()), ColumnListSym, Terminal(From.Kind()), TableNameSym,
       Terminal(Where.Kind()), ConditionSym, Terminal(Semicolon.Kind())]
    else if rule == 3 then [Terminal(3)]
    else if rule == 4 then [ColumnListSym, Terminal(Comma.Kind()), Terminal(3)]
    else if rule == 5 then [Terminal(3)]
    else [Terminal(3), Terminal(Eq.Kind()), Terminal(4)]
  }

  /** A derivation: a token, or a rule applied to derivations of its right-hand side. */
  datatype Derivation = Shifted(token: Token) | Reduced(rule: nat, parts: seq<Derivation>)

  function SymbolOf(d: Derivation): Symbol {
    match d
    case Shifted(t) => Terminal(t.Kind())
    case Reduced(r, _) => Lhs(r)
  }

  predicate Valid(d: Derivation) {
    match d
    case Shifted(_) => true
    case Reduced(r, parts) =>
      r in RULES && |parts| == |Rhs(r)| &&
      forall i :: 0 <= i < |parts| ==> Valid(parts[i]) && SymbolOf(parts[i]) == Rhs(r)[i]
  }

  function Yield(d: Derivation): seq<Token>
    decreases d, 1
  {
    match d
    case Shifted(t) => [t]
    case Reduced(_, parts) => YieldAll(parts)
  }

  function YieldAll(parts: seq<Derivation>): seq<Token>
    decreases parts, 0
  {
    if parts == [] then [] else Yield(parts[0]) + YieldAll(parts[1..])
  }

  /** The string a column list, table name or condition evaluates to. */
  function Meaning(d: Derivation): string
    requires Valid(d)
  {
    match d
    case Shifted(t) => if t.Identifier? then t.name else ""
    case Reduced(r, parts) =>
      if r == 3 || r == 5 then Meaning(parts[0])
      else if r == 4 then Meaning(parts[0]) + "," + Meaning(parts[2])
      else if r == 6 then Meaning(parts[0]) + "=" +
        (if parts[2].Shifted? && parts[2].token.Number? then Decimal(parts[2].token.num) else "")
      else ""
  }

  function ReportOf(d: Derivation): Report
    requires Valid(d) && SymbolOf(d) == StatementSym
  {
    Report(Meaning(d.parts[1]), Meaning(d.parts[3]), Meaning(d.parts[5]))
  }

  // ----- the same language, written out

  function Names(names: seq<string>): seq<Token> {
    if names == [] then [] else [Comma, Identifier(names[0])] + Names(names[1..])
  }

  function Joined(names: seq<string>): string {
    if names == [] then "" else "," + names[0] + Joined(names[1..])
  }

  /** The rest of a statement after its column list. */
  function Tail(table: string, id: string, num: nat): seq<Token> {
    [From, Identifier(table), Where, Identifier(id), Eq, Number(num), Semicolon]
  }

  /** SELECT first, more... FROM table WHERE id = num; */
  function Sentence(first: string, more: seq<string>, table: string, id: string, num: nat): seq<Token> {
    [Select, Identifier(first)] + Names(more) + Tail(table, id, num)
  }

  function SentenceReport(first: string, more: seq<string>, table: string, id: string, num: nat): Report {
    Report(first + Joined(more), table, id + "=" + Decimal(num))
  }

  lemma {:induction false} NamesAppend(names: seq<string>, last: string)
    ensures Names(names + [last]) == Names(names) + [Comma, Identifier(last)]
  {
    if names == [] {
      assert [] + [last] == [last] && [last][1..] == [];
    } else {
      var rest := names[1..];
      NamesAppend(rest, last);
      assert (names + [last])[1..] == rest + [last];
      Associate([Comma, Identifier(names[0])], Names(rest), [Comma, Identifier(last)]);
    }
  }

  lemma {:induction false} JoinedAppend(names: seq<string>, last: string)
    ensures Joined(names + [last]) == Joined(names) + ("," + last)
  {
    if names == [] {
      assert [] + [last] == [last] && [last][1..] == [];
      assert "," + last + "" == "," + last;
    } else {
      var rest := names[1..];
      JoinedAppend(rest, last);
      assert (names + [last])[1..] == rest + [last];
      Associate("," + names[0], Joined(rest), "," + last);
    }
  }

  lemma Associate<T>(a: seq<T>, b: seq<T>, c: seq<T>)
    ensures a + (b + c) == (a + b) + c
  {
  }

  lemma OneMore<T>(a: seq<T>, b: seq<T>, x: T, y: T)
    ensures a + b + [x] + [y] == a + (b + [x, y])
  {
  }

  /** A derived column list is a nonempty comma-separated list of identifiers. */
  lemma {:induction false} ColumnListYield(d: Derivation) returns (first: string, more: seq<string>)
    requires Valid(d) && SymbolOf(d) == ColumnListSym
    ensures Yield(d) == [Identifier(first)] + Names(more)
    ensures Meaning(d) == first + Joined(more)
  {
    if d.rule == 3 {
      first := IdentifierLeaf(d.parts[0]);
      more := [];
      OneYield(d.parts);
    } else {
      first, more := ColumnListYield(d.parts[0]);
      var last := IdentifierLeaf(d.parts[2]);
      assert SymbolOf(d.parts[1]) == Terminal(Comma.Kind());
      assert Yield(d.parts[1]) == [Comma];
      ThreeYield(d.parts);
      NamesAppend(more, last);
      OneMore([Identifier(first)], Names(more), Comma, Identifier(last));
      JoinedAppend(more, last);
      Associate(first, Joined(more), "," + last);
      more := more + [last];
    }
  }

  lemma IdentifierLeaf(d: Derivation) returns (name: string)
    requires Valid(d) && SymbolOf(d) == Terminal(3)
    ensures d == Shifted(Identifier(name)) && Yield(d) == [Identifier(name)] && Meaning(d) == name
  {
    name := d.token.name;
  }

  lemma OneYield(parts: seq<Derivation>)
    requires |parts| == 1
    ensures YieldAll(parts) == Yield(parts[0])
  {
    assert parts[1..] == [];
    assert YieldAll(parts[1..]) == [];
  }

  lemma ThreeYield(parts: seq<Derivation>)
    requires |parts| == 3
    ensures YieldAll(parts) == Yield(parts[0]) + Yield(parts[1]) + Yield(parts[2])
  {
    OneYield(parts[2..]);
    assert parts[1..][1..] == parts[2..] && parts[1..][0] == parts[1] && parts[2..][0] == parts[2];
    assert YieldAll(parts[1..]) == Yield(parts[1]) + YieldAll(parts[2..]);
  }

  lemma SevenYield(parts: seq<Derivation>)
    requires |parts| == 7
    ensures YieldAll(parts) == Yield(parts[0]) + Yield(parts[1]) + Yield(parts[2]) + Yield(parts[3]) +
            (Yield(parts[4]) + Yield(parts[5]) + Yield(parts[6]))
  {
    ThreeYield(parts[4..]);
    YieldFrom(parts, 3);
    YieldFrom(parts, 2);
    YieldFrom(parts, 1);
    YieldFrom(parts, 0);
    assert parts[0..] == parts;
    LeftNested(Yield(parts[0]), Yield(parts[1]), Yield(parts[2]), Yield(parts[3]), YieldAll(parts[4..]));
  }

  lemma LeftNested<T>(a: seq<T>, b: seq<T>, c: seq<T>, d: seq<T>, e: seq<T>)
    ensures a + (b + (c + (d + e))) == a + b + c + d + e
  {
    Associate(a, b, c + (d + e));
    Associate(a + b, c, d + e);
    Associate(a + b + c, d, e);
  }

  lemma YieldFrom(parts: seq<Derivation>, i: nat)
    requires i < |parts|
    ensures YieldAll(parts[i..]) == Yield(parts[i]) + YieldAll(parts[i + 1..])
  {
    assert parts[i..][1..] == parts[i + 1..];
  }

  lemma KeywordLeaf(d: Derivation, t: Token)
    requires Valid(d) && SymbolOf(d) == Terminal(t.Kind()) && !t.Identifier? && !t.Number?
    ensures Yield(d) == [t]
  {
  }

  lemma StatementParts(d: Derivation)
    requires Valid(d) && SymbolOf(d) == StatementSym
    ensures d.Reduced? && |d.parts| == 7 && forall i :: 0 <= i < 7 ==> Valid(d.parts[i])
    ensures SymbolOf(d.parts[0]) == Terminal(Select.Kind()) && SymbolOf(d.parts[1]) == ColumnListSym
    ensures SymbolOf(d.parts[2]) == Terminal(From.Kind()) && SymbolOf(d.parts[3]) == TableNameSym
    ensures SymbolOf(d.parts[4]) == Terminal(Where.Kind()) && SymbolOf(d.parts[5]) == ConditionSym
    ensures SymbolOf(d.parts[6]) == Terminal(Semicolon.Kind())
    ensures Yield(d) == YieldAll(d.parts)
  {
  }

  /** Every derivation of a statement spells a sentence and reports what the sentence says. */
  lemma DerivedIsSentence(d: Derivation) returns (first: string, more: seq<string>, table: string, id: string, num: nat)
    requires Valid(d) && SymbolOf(d) == StatementSym
    ensures Yield(d) == Sentence(first, more, table, id, num)
    ensures ReportOf(d) == SentenceReport(first, more, table, id, num)
  {
    var p := d.parts;
    StatementParts(d);
    first, more := ColumnListYield(p[1]);
    table := TableYield(p[3]);
    id, num := ConditionYield(p[5]);
    KeywordLeaf(p[0], Select);
    KeywordLeaf(p[2], From);
    KeywordLeaf(p[4], Where);
    KeywordLeaf(p[6], Semicolon);
    SevenYield(p);
    SentencePieces(first, more, table, id, num);
  }

  lemma SentencePieces(first: string, more: seq<string>, table: string, id: string, num: nat)
    ensures Sentence(first, more, table, id, num) ==
            [Select] + ([Identifier(first)] + Names(more)) + [From] + [Identifier(table)] +
            ([Where] + [Identifier(id), Eq, Number(num)] + [Semicolon])
  {
  }

  lemma TableYield(d: Derivation) returns (table: string)
    requires Valid(d) && SymbolOf(d) == TableNameSym
    ensures Yield(d) == [Identifier(table)] && Meaning(d) == table
  {
    table := IdentifierLeaf(d.parts[0]);
    OneYield(d.parts);
  }

  lemma ConditionYield(d: Derivation) returns (id: string, num: nat)
    requires Valid(d) && SymbolOf(d) == ConditionSym
    ensures Yield(d) == [Identifier(id), Eq, Number(num)] && Meaning(d) == id + "=" + Decimal(num)
  {
    id := IdentifierLeaf(d.parts[0]);
    assert SymbolOf(d.parts[1]) == Terminal(Eq.Kind()) && SymbolOf(d.parts[2]) == Terminal(4);
    num := d.parts[2].token.num;
    assert Yield(d.parts[1]) == [Eq] && Yield(d.parts[2]) == [Number(num)];
    ThreeYield(d.parts);
  }

  /** Every sentence is derived. */
  lemma {:induction false} ColumnListDerived(first: string, more: seq<string>) returns (d: Derivation)
    ensures Valid(d) && SymbolOf(d) == ColumnListSym
    ensures Yield(d) == [Identifier(first)] + Names(more)
  {
    if more == [] {
      d := Reduced(3, [Shifted(Identifier(first))]);
      OneYield(d.parts);
    } else {
      var n := |more| - 1;
      var front := ColumnListDerived(first, more[..n]);
      var comma, name := Shifted(Comma), Shifted(Identifier(more[n]));
      d := Reduced(4, [front, comma, name]);
      assert d.parts[0] == front && d.parts[1] == comma && d.parts[2] == name;
      assert Valid(d) by {
        assert Rhs(4) == [SymbolOf(front), SymbolOf(comma), SymbolOf(name)];
      }
      ThreeYield(d.parts);
      assert more == more[..n] + [more[n]];
      NamesAppend(more[..n], more[n]);
      OneMore([Identifier(first)], Names(more[..n]), Comma, Identifier(more[n]));
    }
  }

  lemma SentenceIsDerived(first: string, more: seq<string>, table: string, id: string, num: nat) returns (d: Derivation)
    ensures Valid(d) && SymbolOf(d) == StatementSym && Yield(d) == Sentence(first, more, table, id, num)
  {
    var cols := ColumnListDerived(first, more);
    var tab := Reduced(5, [Shifted(Identifier(table))]);
    var cond := Reduced(6, [Shifted(Identifier(id)), Shifted(Eq), Shifted(Number(num))]);
    OneYield(tab.parts);
    ThreeYield(cond.parts);
    d := Reduced(2, [Shifted(Select), cols, Shifted(From), tab, Shifted(Where), cond, Shifted(Semicolon)]);
    SevenYield(d.parts);
    SentencePieces(first, more, table, id, num);
  }
}
