/** The parser accepts exactly the token streams the grammar derives and reports what they mean. */
module SqlCorrectness {
  import opened Options
  import opened SqlGrammar
  import opened SqlParser

  lemma Shifts(p: Progress, t: Token, rest: seq<Token>)
    requires !Reduces(p) && !p.Finished? && Shiftable(p, t)
    ensures ParseFrom(p, [t] + rest) == ParseFrom(AfterShift(p, t), rest)
  {
    assert ([t] + rest)[1..] == rest;
  }

  lemma TableAccepted(cols: string, table: string, rest: seq<Token>)
    ensures ParseFrom(Columns(cols), [From] + ([Identifier(table)] + rest)) == ParseFrom(AfterTable(cols, table), rest)
  {
    Shifts(Columns(cols), From, [Identifier(table)] + rest);
    Shifts(AfterFrom(cols), Identifier(table), rest);
  }

  lemma ConditionAccepted(cols: string, table: string, id: string, num: nat, rest: seq<Token>)
    ensures ParseFrom(AfterWhere(cols, table), [Identifier(id)] + ([Eq] + ([Number(num)] + rest)))
            == ParseFrom(AfterCondition(cols, table, id + "=" + Decimal(num)), rest)
  {
    Shifts(AfterWhere(cols, table), Identifier(id), [Eq] + ([Number(num)] + rest));
    Shifts(ConditionId(cols, table, id), Eq, [Number(num)] + rest);
    Shifts(ConditionEq(cols, table, id), Number(num), rest);
  }

  lemma TailSplit(table: string, id: string, num: nat, rest: seq<Token>)
    ensures Tail(table, id, num) + rest ==
            [From] + ([Identifier(table)] + ([Where] + ([Identifier(id)] + ([Eq] + ([Number(num)] + ([Semicolon] + rest))))))
  {
  }

  lemma SentenceSplit(first: string, more: seq<string>, table: string, id: string, num: nat, rest: seq<Token>)
    ensures Sentence(first, more, table, id, num) + rest ==
            [Select] + ([Identifier(first)] + (Names(more) + (Tail(table, id, num) + rest)))
  {
  }

  /** From the column list on, the rest of a statement is recognised, whatever follows it. */
  lemma TailAccepted(cols: string, table: string, id: string, num: nat, rest: seq<Token>)
    ensures ParseFrom(Columns(cols), Tail(table, id, num) + rest)
            == ParseFrom(Reported(Report(cols, table, id + "=" + Decimal(num))), rest)
  {
    TailSplit(table, id, num, rest);
    var r5 := [Semicolon] + rest;
    var r4 := [Identifier(id)] + ([Eq] + ([Number(num)] + r5));
    TableAccepted(cols, table, [Where] + r4);
    Shifts(AfterTable(cols, table), Where, r4);
    ConditionAccepted(cols, table, id, num, r5);
    Shifts(AfterCondition(cols, table, id + "=" + Decimal(num)), Semicolon, rest);
  }

  lemma {:induction false} ColumnsAccepted(cols: string, more: seq<string>, after: seq<Token>)
    ensures ParseFrom(Columns(cols), Names(more) + after) == ParseFrom(Columns(cols + Joined(more)), after)
    decreases more
  {
    if more == [] {
      assert Names(more) + after == after && cols + Joined(more) == cols;
    } else {
      var rest := Names(more[1..]) + after;
      assert Names(more) + after == [Comma] + ([Identifier(more[0])] + rest);
      Shifts(Columns(cols), Comma, [Identifier(more[0])] + rest);
      Shifts(AfterComma(cols), Identifier(more[0]), rest);
      ColumnsAccepted(cols + "," + more[0], more[1..], after);
      assert cols + "," + more[0] + Joined(more[1..]) == cols + Joined(more);
    }
  }

  /** A sentence is reported as soon as it is complete; it is accepted exactly if nothing follows. */
  lemma SentenceReported(first: string, more: seq<string>, table: string, id: string, num: nat, rest: seq<Token>)
    ensures ParseFrom(AtStart, Sentence(first, more, table, id, num) + rest)
            == Outcome(rest == [], Some(SentenceReport(first, more, table, id, num)))
  {
    var tail := Tail(table, id, num) + rest;
    var cols := Names(more) + tail;
    SentenceSplit(first, more, table, id, num, rest);
    Shifts(AtStart, Select, [Identifier(first)] + cols);
    Shifts(AfterSelect, Identifier(first), cols);
    ColumnsAccepted(first, more, tail);
    TailAccepted(first + Joined(more), table, id, num, rest);
  }

  /** The first token left, when a report is still to come. */
  lemma NextShifted(p: Progress, rest: seq<Token>)
    requires !Reduces(p) && PrintedAt(p).None? && ParseFrom(p, rest).printed.Some?
    ensures rest != [] && Shiftable(p, rest[0])
    ensures rest == [rest[0]] + rest[1..] && ParseFrom(AfterShift(p, rest[0]), rest[1..]).printed.Some?
  {
  }

  lemma ConditionFound(cols: string, table: string, rest: seq<Token>) returns (id: string, num: nat, tail: seq<Token>)
    requires ParseFrom(AfterWhere(cols, table), rest).printed.Some?
    ensures rest == [Identifier(id)] + ([Eq] + ([Number(num)] + tail))
    ensures ParseFrom(AfterCondition(cols, table, id + "=" + Decimal(num)), tail).printed.Some?
  {
    NextShifted(AfterWhere(cols, table), rest);
    id := rest[0].name;
    var r1 := rest[1..];
    NextShifted(ConditionId(cols, table, id), r1);
    var r2 := r1[1..];
    NextShifted(ConditionEq(cols, table, id), r2);
    num := r2[0].num;
    tail := r2[1..];
  }

  lemma TailFound(cols: string, rest: seq<Token>) returns (table: string, id: string, num: nat, tail: seq<Token>)
    requires ParseFrom(AfterFrom(cols), rest).printed.Some?
    ensures [From] + rest == Tail(table, id, num) + tail
  {
    NextShifted(AfterFrom(cols), rest);
    table := rest[0].name;
    var r1 := rest[1..];
    NextShifted(AfterTable(cols, table), r1);
    var r5;
    id, num, r5 := ConditionFound(cols, table, r1[1..]);
    NextShifted(AfterCondition(cols, table, id + "=" + Decimal(num)), r5);
    tail := r5[1..];
    TailSplit(table, id, num, tail);
  }

  lemma {:induction false} ColumnsFound(cols: string, rest: seq<Token>)
    returns (more: seq<string>, table: string, id: string, num: nat, tail: seq<Token>)
    requires ParseFrom(Columns(cols), rest).printed.Some?
    ensures rest == Names(more) + (Tail(table, id, num) + tail)
    decreases |rest|
  {
    NextShifted(Columns(cols), rest);
    if rest[0].From? {
      more := [];
      table, id, num, tail := TailFound(cols, rest[1..]);
    } else {
      NextShifted(AfterComma(cols), rest[1..]);
      var name := rest[1].name;
      var rest' := rest[1..][1..];
      var more';
      more', table, id, num, tail := ColumnsFound(cols + "," + name, rest');
      more := [name] + more';
      assert more[1..] == more';
      assert rest == [Comma, Identifier(name)] + rest';
      assert Names(more) == [Comma, Identifier(name)] + Names(more');
    }
  }

  /** Whatever is reported is a sentence at the front of the input. */
  lemma ReportedIsSentence(tokens: seq<Token>)
    returns (first: string, more: seq<string>, table: string, id: string, num: nat, tail: seq<Token>)
    requires ParseFrom(AtStart, tokens).printed.Some?
    ensures tokens == Sentence(first, more, table, id, num) + tail
  {
    NextShifted(AtStart, tokens);
    NextShifted(AfterSelect, tokens[1..]);
    first := tokens[1].name;
    var rest := tokens[1..][1..];
    more, table, id, num, tail := ColumnsFound(first, rest);
    assert tokens == [Select] + ([Identifier(first)] + rest);
    SentenceSplit(first, more, table, id, num, tail);
  }

  lemma {:induction false} AcceptedIsReported(p: Progress, rest: seq<Token>)
    requires ParseFrom(p, rest).accepted
    ensures ParseFrom(p, rest).printed.Some?
    decreases |rest|, if Reduces(p) then 1 else 0
  {
    if p.Finished? {
    } else if Reduces(p) {
      AcceptedIsReported(AfterReduce(p), rest);
    } else if rest != [] && Shiftable(p, rest[0]) {
      AcceptedIsReported(AfterShift(p, rest[0]), rest[1..]);
    }
  }

  ghost predicate Derived(tokens: seq<Token>) {
    exists d :: Valid(d) && SymbolOf(d) == StatementSym && Yield(d) == tokens
  }

  /** The tables accept a token stream if and only if the grammar derives it. */
  lemma AcceptsExactlyTheGrammar(tokens: seq<Token>)
    ensures ParseFrom(AtStart, tokens).accepted <==> Derived(tokens)
  {
    if ParseFrom(AtStart, tokens).accepted {
      AcceptedIsReported(AtStart, tokens);
      var first, more, table, id, num, tail := ReportedIsSentence(tokens);
      SentenceReported(first, more, table, id, num, tail);
      assert tokens == Sentence(first, more, table, id, num);
      var d := SentenceIsDerived(first, more, table, id, num);
    }
    if Derived(tokens) {
      var d :| Valid(d) && SymbolOf(d) == StatementSym && Yield(d) == tokens;
      DerivationReported(d);
    }
  }

  /** A derived stream is accepted with the report its derivation evaluates to. */
  lemma DerivationReported(d: Derivation)
    requires Valid(d) && SymbolOf(d) == StatementSym
    ensures ParseFrom(AtStart, Yield(d)) == Outcome(true, Some(ReportOf(d)))
  {
    var first, more, table, id, num := DerivedIsSentence(d);
    SentenceReported(first, more, table, id, num, []);
    assert Yield(d) + [] == Yield(d);
  }

  /** A report is printed, and a stream then rejected, exactly when a derived statement is followed by more tokens. */
  lemma ReportedButRejected(tokens: seq<Token>)
    ensures ParseFrom(AtStart, tokens).printed.Some? && !ParseFrom(AtStart, tokens).accepted <==>
            exists n :: 0 <= n < |tokens| && Derived(tokens[..n])
  {
    if ParseFrom(AtStart, tokens).printed.Some? && !ParseFrom(AtStart, tokens).accepted {
      var first, more, table, id, num, tail := ReportedIsSentence(tokens);
      SentenceReported(first, more, table, id, num, tail);
      var n := |Sentence(first, more, table, id, num)|;
      assert tokens[..n] == Sentence(first, more, table, id, num);
      var d := SentenceIsDerived(first, more, table, id, num);
      assert Derived(tokens[..n]);
    }
    if n :| 0 <= n < |tokens| && Derived(tokens[..n]) {
      var d :| Valid(d) && SymbolOf(d) == StatementSym && Yield(d) == tokens[..n];
      var first, more, table, id, num := DerivedIsSentence(d);
      SentenceReported(first, more, table, id, num, tokens[n..]);
      assert tokens == tokens[..n] + tokens[n..];
    }
  }

  /** The parser as a recogniser: true exactly for the token streams of the grammar. */
  method Recognise(tokens: seq<Token>) returns (accepted: bool)
    ensures accepted <==> Derived(tokens)
  {
    AcceptsExactlyTheGrammar(tokens);
    var printed;
    accepted, printed := Parse(tokens);
  }
}
