/** The table-driven shift/reduce parser, and the shape its stack always has. */
module SqlParser {
  import opened Options
  import opened SqlGrammar

  // ----- the generated tables

  const YYPACT: seq<int> := [-4, -1, 3, -8, -6, -8, 1, 2, -8, 0, -8, 6, -7, -5, 7, -8, -8]
  const YYDEFACT: seq<nat> := [0, 0, 0, 3, 0, 1, 0, 0, 5, 0, 4, 0, 0, 0, 0, 2, 6]
  const YYPGOTO: seq<int> := [-8, -8, -8, -8, -8]
  const YYDEFGOTO: seq<nat> := [0, 2, 4, 9, 13]
  const YYTABLE: seq<nat> := [6, 1, 3, 5, 8, 10, 14, 11, 7, 12, 15, 16]
  const YYCHECK: seq<int> := [6, 5, 3, 0, 3, 3, 13, 7, 14, 3, 15, 4]
  const YYR1: seq<nat> := [0, 16, 17, 18, 18, 19, 20]
  const YYR2: seq<nat> := [0, 2, 7, 1, 3, 1, 3]
  const YYFINAL: nat := 5
  const YYLAST: nat := 11
  const YYNTOKENS: nat := 16
  const YYPACT_NINF: int := -8
  const YYSYMBOL_EOF: nat := 0
  const YYSYMBOL_ERROR: nat := 1

  datatype Action = Shift(state: nat) | Reduce(rule: nat) | Fail

  predicate IsState(s: nat) {
    s < 17
  }

  /** Whether the state decides without looking at the next token. */
  predicate IsDefault(s: nat)
    requires IsState(s)
  {
    YYPACT[s] == YYPACT_NINF
  }

  function DefaultAction(s: nat): Action
    requires IsState(s)
  {
    if YYDEFACT[s] == 0 then Fail else Reduce(YYDEFACT[s])
  }

  /** What to do in state `s` when the next symbol has number `kind`. */
  function ActionFor(s: nat, kind: nat): Action
    requires IsState(s)
  {
    if IsDefault(s) then DefaultAction(s)
    else
      var n := YYPACT[s] + kind;
      if n < 0 || YYLAST < n || YYCHECK[n] != kind then DefaultAction(s)
      else if YYTABLE[n] == 0 then Reduce(0)
      else Shift(YYTABLE[n])
  }

  /** The state to enter after reducing by `rule` on top of state `s`. */
  function Goto(s: nat, rule: nat): nat
    requires 1 <= rule < 7
  {
    var lhs := YYR1[rule] - YYNTOKENS;
    var n := YYPGOTO[lhs] + s;
    if 0 <= n <= YYLAST && YYCHECK[n] == s then YYTABLE[n] else YYDEFGOTO[lhs]
  }

  /** Whether state `s` can shift the error token and so recover. */
  predicate ShiftsError(s: nat)
    requires IsState(s)
  {
    !IsDefault(s) &&
    var n := YYPACT[s] + YYSYMBOL_ERROR;
    0 <= n <= YYLAST && YYCHECK[n] == YYSYMBOL_ERROR && YYTABLE[n] > 0
  }

  /** No state recovers from an error. */
  lemma NoRecovery(s: nat)
    requires IsState(s)
    ensures !ShiftsError(s)
  {
    assert forall n :: 0 <= n <= YYLAST ==> YYCHECK[n] != 1;
  }

  // ----- semantic values and the configurations that occur

  datatype Value = Unset | Text(s: string) | Int(n: nat)

  function ValueOf(t: Token): Value {
    match t
    case Identifier(name) => Text(name)
    case Number(num) => Int(num)
    case _ => Unset
  }

  function Str(v: Value): string {
    if v.Text? then v.s else ""
  }

  function Num(v: Value): nat {
    if v.Int? then v.n else 0
  }

  /** How far a statement has been recognised, with the values collected so far. */
  datatype Progress =
    | AtStart
    | AfterSelect
    | FirstColumn(id: string)
    | Columns(cols: string)
    | AfterComma(cols: string)
    | NextColumn(cols: string, id: string)
    | AfterFrom(cols: string)
    | TableId(cols: string, id: string)
    | AfterTable(cols: string, table: string)
    | AfterWhere(cols: string, table: string)
    | ConditionId(cols: string, table: string, id: string)
    | ConditionEq(cols: string, table: string, id: string)
    | ConditionNum(cols: string, table: string, id: string, num: nat)
    | AfterCondition(cols: string, table: string, cond: string)
    | AfterSemicolon(cols: string, table: string, cond: string)
    | Reported(report: Report)
    | Finished(report: Report)

  /** The state stack of each configuration, bottom first. */
  function StatesOf(p: Progress): seq<nat> {
    match p
    case AtStart => [0]
    case AfterSelect => [0, 1]
    case FirstColumn(_) => [0, 1, 3]
    case Columns(_) => [0, 1, 4]
    case AfterComma(_) => [0, 1, 4, 7]
    case NextColumn(_, _) => [0, 1, 4, 7, 10]
    case AfterFrom(_) => [0, 1, 4, 6]
    case TableId(_, _) => [0, 1, 4, 6, 8]
    case AfterTable(_, _) => [0, 1, 4, 6, 9]
    case AfterWhere(_, _) => [0, 1, 4, 6, 9, 11]
    case ConditionId(_, _, _) => [0, 1, 4, 6, 9, 11, 12]
    case ConditionEq(_, _, _) => [0, 1, 4, 6, 9, 11, 12, 14]
    case ConditionNum(_, _, _, _) => [0, 1, 4, 6, 9, 11, 12, 14, 16]
    case AfterCondition(_, _, _) => [0, 1, 4, 6, 9, 11, 13]
    case AfterSemicolon(_, _, _) => [0, 1, 4, 6, 9, 11, 13, 15]
    case Reported(_) => [0, 2]
    case Finished(_) => [0, 2, 5]
  }

  /** The value stack holds the collected values at the places the actions read. */
  predicate ValuesMatch(p: Progress, v: seq<Value>) {
    |v| == |StatesOf(p)| &&
    match p
    case AtStart => true
    case AfterSelect => true
    case FirstColumn(id) => v[2] == Text(id)
    case Columns(cols) => v[2] == Text(cols)
    case AfterComma(cols) => v[2] == Text(cols)
    case NextColumn(cols, id) => v[2] == Text(cols) && v[4] == Text(id)
    case AfterFrom(cols) => v[2] == Text(cols)
    case TableId(cols, id) => v[2] == Text(cols) && v[4] == Text(id)
    case AfterTable(cols, table) => v[2] == Text(cols) && v[4] == Text(table)
    case AfterWhere(cols, table) => v[2] == Text(cols) && v[4] == Text(table)
    case ConditionId(cols, table, id) => v[2] == Text(cols) && v[4] == Text(table) && v[6] == Text(id)
    case ConditionEq(cols, table, id) => v[2] == Text(cols) && v[4] == Text(table) && v[6] == Text(id)
    case ConditionNum(cols, table, id, num) => v[2] == Text(cols) && v[4] == Text(table) && v[6] == Text(id) && v[8] == Int(num)
    case AfterCondition(cols, table, cond) => v[2] == Text(cols) && v[4] == Text(table) && v[6] == Text(cond)
    case AfterSemicolon(cols, table, cond) => v[2] == Text(cols) && v[4] == Text(table) && v[6] == Text(cond)
    case Reported(_) => true
    case Finished(_) => true
  }

  /** The configurations in which the tables reduce without looking ahead. */
  predicate Reduces(p: Progress) {
    p.FirstColumn? || p.NextColumn? || p.TableId? || p.ConditionNum? || p.AfterSemicolon?
  }

  function AfterReduce(p: Progress): Progress
    requires Reduces(p)
  {
    match p
    case FirstColumn(id) => Columns(id)
    case NextColumn(cols, id) => Columns(cols + "," + id)
    case TableId(cols, id) => AfterTable(cols, id)
    case ConditionNum(cols, table, id, num) => AfterCondition(cols, table, id + "=" + Decimal(num))
    case AfterSemicolon(cols, table, cond) => Reported(Report(cols, table, cond))
  }

  /** The configuration after shifting `t`, if the tables shift it. */
  function AfterShift(p: Progress, t: Token): Progress
    requires !Reduces(p) && !p.Finished?
    requires Shiftable(p, t)
  {
    match p
    case AtStart => AfterSelect
    case AfterSelect => FirstColumn(t.name)
    case Columns(cols) => if t.Comma? then AfterComma(cols) else AfterFrom(cols)
    case AfterComma(cols) => NextColumn(cols, t.name)
    case AfterFrom(cols) => TableId(cols, t.name)
    case AfterTable(cols, table) => AfterWhere(cols, table)
    case AfterWhere(cols, table) => ConditionId(cols, table, t.name)
    case ConditionId(cols, table, id) => ConditionEq(cols, table, id)
    case ConditionEq(cols, table, id) => ConditionNum(cols, table, id, t.num)
    case AfterCondition(cols, table, cond) => AfterSemicolon(cols, table, cond)
  }

  predicate Shiftable(p: Progress, t: Token) {
    match p
    case AtStart => t.Select?
    case AfterSelect => t.Identifier?
    case Columns(_) => t.Comma? || t.From?
    case AfterComma(_) => t.Identifier?
    case AfterFrom(_) => t.Identifier?
    case AfterTable(_, _) => t.Where?
    case AfterWhere(_, _) => t.Identifier?
    case ConditionId(_, _, _) => t.Eq?
    case ConditionEq(_, _, _) => t.Number?
    case AfterCondition(_, _, _) => t.Semicolon?
    case _ => false
  }

  function Top(states: seq<nat>): nat
    requires states != []
  {
    states[|states| - 1]
  }

  /** The tables, read row by row: which symbol each state shifts and where it goes. */
  function Row(s: nat, kind: nat): Action {
    if s == 0 && kind == 5 then Shift(1)
    else if s == 1 && kind == 3 then Shift(3)
    else if s == 2 && kind == 0 then Shift(5)
    else if s == 4 && kind == 6 then Shift(6)
    else if s == 4 && kind == 14 then Shift(7)
    else if s == 6 && kind == 3 then Shift(8)
    else if s == 7 && kind == 3 then Shift(10)
    else if s == 9 && kind == 7 then Shift(11)
    else if s == 11 && kind == 3 then Shift(12)
    else if s == 12 && kind == 13 then Shift(14)
    else if s == 13 && kind == 15 then Shift(15)
    else if s == 14 && kind == 4 then Shift(16)
    else Fail
  }

  lemma TablesAreRows(s: nat, kind: nat)
    requires IsState(s) && !IsDefault(s) && kind < YYNTOKENS
    ensures ActionFor(s, kind) == Row(s, kind)
  {
  }

  lemma RowsAgree(p: Progress, t: Token)
    requires !Reduces(p) && !p.Finished?
    ensures IsState(Top(StatesOf(p))) && !IsDefault(Top(StatesOf(p)))
    ensures Row(Top(StatesOf(p)), t.Kind()) == if Shiftable(p, t) then Shift(Top(StatesOf(AfterShift(p, t)))) else Fail
  {
  }

  /** The tables do, in every configuration and for every token, what the configuration says. */
  lemma TablesAgree(p: Progress, t: Token)
    requires !Reduces(p) && !p.Finished?
    ensures IsState(Top(StatesOf(p))) && !IsDefault(Top(StatesOf(p)))
    ensures ActionFor(Top(StatesOf(p)), t.Kind()) == if Shiftable(p, t) then Shift(Top(StatesOf(AfterShift(p, t)))) else Fail
  {
    RowsAgree(p, t);
    TablesAreRows(Top(StatesOf(p)), t.Kind());
  }

  lemma TablesAtEnd(p: Progress)
    requires !Reduces(p) && !p.Finished?
    ensures IsState(Top(StatesOf(p))) && !IsDefault(Top(StatesOf(p)))
    ensures ActionFor(Top(StatesOf(p)), YYSYMBOL_EOF) == if p.Reported? then Shift(YYFINAL) else Fail
  {
    TablesAreRows(Top(StatesOf(p)), YYSYMBOL_EOF);
  }

  lemma ShiftPushes(p: Progress, t: Token)
    requires !Reduces(p) && !p.Finished? && Shiftable(p, t)
    ensures StatesOf(AfterShift(p, t)) == StatesOf(p) + [Top(StatesOf(AfterShift(p, t)))]
  {
  }

  lemma ReductionsAgree(p: Progress)
    requires Reduces(p)
    ensures var s := StatesOf(p); var r := YYDEFACT[Top(s)];
            && 2 <= r <= 6 && YYR2[r] < |s|
            && StatesOf(AfterReduce(p)) == s[..|s| - YYR2[r]] + [Goto(Top(s[..|s| - YYR2[r]]), r)]
  {
  }

  // ----- what the parser computes

  /** The result of a parse: whether it succeeds, and the report printed on the way, if any. The
      report is printed when the statement is reduced, before the end of input is seen. */
  datatype Outcome = Outcome(accepted: bool, printed: Option<Report>)

  function PrintedAt(p: Progress): Option<Report> {
    if p.Reported? || p.Finished? then Some(p.report) else None
  }

  /** Reference: recognise the rest of the input from a configuration. */
  function ParseFrom(p: Progress, rest: seq<Token>): Outcome
    decreases |rest|, if Reduces(p) then 1 else 0
  {
    if p.Finished? then Outcome(true, Some(p.report))
    else if Reduces(p) then ParseFrom(AfterReduce(p), rest)
    else if rest == [] then Outcome(p.Reported?, PrintedAt(p))
    else if Shiftable(p, rest[0]) then ParseFrom(AfterShift(p, rest[0]), rest[1..])
    else Outcome(false, PrintedAt(p))
  }

  // ----- the parser

  /** Pops states in search of one that shifts the error token; there is none, so the parse aborts. */
  method Recover(states: seq<nat>) returns (aborted: bool)
    requires states != [] && forall s :: s in states ==> IsState(s)
    ensures aborted
  {
    var stack := states;
    while true
      invariant stack != [] && forall s :: s in stack ==> IsState(s)
      decreases |stack|
    {
      NoRecovery(Top(stack));
      if ShiftsError(Top(stack)) {
        return false;
      }
      if |stack| == 1 {
        return true;
      }
      stack := stack[..|stack| - 1];
    }
  }

  /** The value an action leaves for its rule, from the values of the rule's symbols. */
  function Act(rule: nat, v: seq<Value>): Value
    requires 2 <= rule <= 6 && |v| == YYR2[rule]
  {
    if rule == 4 then Text(Str(v[0]) + "," + Str(v[2]))
    else if rule == 6 then Text(Str(v[0]) + "=" + Decimal(Num(v[2])))
    else v[0]
  }

  lemma ReduceValues(p: Progress, v: seq<Value>)
    requires Reduces(p) && ValuesMatch(p, v)
    ensures var s := StatesOf(p); var r := YYDEFACT[Top(s)]; var n := |s| - YYR2[r];
            2 <= r <= 6 && 0 < n && ValuesMatch(AfterReduce(p), v[..n] + [Act(r, v[n..])])
    ensures p.AfterSemicolon? <==> YYDEFACT[Top(StatesOf(p))] == 2
    ensures p.AfterSemicolon? ==> AfterReduce(p) == Reported(Report(Str(v[2]), Str(v[4]), Str(v[6])))
  {
  }

  lemma ShiftValues(p: Progress, v: seq<Value>, t: Token)
    requires !Reduces(p) && !p.Finished? && Shiftable(p, t) && ValuesMatch(p, v)
    ensures ValuesMatch(AfterShift(p, t), v + [ValueOf(t)])
  {
  }

  lemma DefaultStates(p: Progress)
    ensures |StatesOf(p)| <= 9 && forall s :: s in StatesOf(p) ==> IsState(s)
    ensures Top(StatesOf(p)) == YYFINAL <==> p.Finished?
    ensures Reduces(p) ==> IsDefault(Top(StatesOf(p))) && DefaultAction(Top(StatesOf(p))) == Reduce(YYDEFACT[Top(StatesOf(p))])
  {
  }

  /** The next action: the default one, or the one for the lookahead token. */
  method Choose(state: nat, tokens: seq<Token>, pos: nat, ghost p: Progress) returns (action: Action)
    requires state == Top(StatesOf(p)) && pos <= |tokens| && !p.Finished?
    ensures Reduces(p) ==> action == Reduce(YYDEFACT[Top(StatesOf(p))])
    ensures !Reduces(p) && pos < |tokens| ==>
              action == if Shiftable(p, tokens[pos]) then Shift(Top(StatesOf(AfterShift(p, tokens[pos])))) else Fail
    ensures !Reduces(p) && pos == |tokens| ==> action == if p.Reported? then Shift(YYFINAL) else Fail
  {
    DefaultStates(p);
    if IsDefault(state) {
      action := DefaultAction(state);
    } else if pos < |tokens| {
      TablesAgree(p, tokens[pos]);
      action := ActionFor(state, tokens[pos].Kind());
    } else {
      TablesAtEnd(p);
      action := ActionFor(state, YYSYMBOL_EOF);
    }
  }

  /** A reduction: run the action, pop the right-hand side, push the left-hand side. */
  method ReduceBy(rule: nat, states: seq<nat>, values: seq<Value>, printed: Option<Report>, ghost p: Progress)
    returns (states': seq<nat>, values': seq<Value>, printed': Option<Report>)
    requires Reduces(p) && states == StatesOf(p) && ValuesMatch(p, values) && rule == YYDEFACT[Top(states)] && printed == PrintedAt(p)
    ensures states' == StatesOf(AfterReduce(p)) && ValuesMatch(AfterReduce(p), values') && printed' == PrintedAt(AfterReduce(p))
  {
    ReductionsAgree(p);
    ReduceValues(p, values);
    var n := |states| - YYR2[rule];
    printed' := printed;
    if rule == 2 {
      var top := |values| - 1;
      printed' := Some(Report(Str(values[top - 5]), Str(values[top - 3]), Str(values[top - 1])));
    }
    values' := values[..n] + [Act(rule, values[n..])];
    states' := states[..n] + [Goto(Top(states[..n]), rule)];
  }

  // ----- the tables as a machine

  /** The state stack and the number of tokens read. */
  datatype Config = Config(states: seq<nat>, pos: nat)

  /** What the tables say in a configuration. */
  function ActionAt(c: Config, tokens: seq<Token>): Action {
    if c.states == [] || !IsState(Top(c.states)) || Top(c.states) == YYFINAL then Fail
    else if IsDefault(Top(c.states)) then DefaultAction(Top(c.states))
    else ActionFor(Top(c.states), if c.pos < |tokens| then tokens[c.pos].Kind() else YYSYMBOL_EOF)
  }

  /** One turn of the loop on the state stack; none at the final state or on an error. */
  function TableStep(c: Config, tokens: seq<Token>): Option<Config> {
    match ActionAt(c, tokens)
    case Shift(next) => Some(Config(c.states + [next], if c.pos < |tokens| then c.pos + 1 else c.pos))
    case Reduce(rule) =>
      if 1 <= rule < 7 && YYR2[rule] < |c.states| then
        var rest := c.states[..|c.states| - YYR2[rule]];
        Some(Config(rest + [Goto(Top(rest), rule)], c.pos))
      else None
    case Fail => None
  }

  /** The configuration after `n` turns from the start, if the machine gets that far. */
  function TableRun(tokens: seq<Token>, n: nat): Option<Config> {
    if n == 0 then Some(Config([0], 0))
    else match TableRun(tokens, n - 1)
      case None => None
      case Some(c) => TableStep(c, tokens)
  }

  /** From a configuration that occurs, the tables step to another one that occurs, or stop. */
  lemma StepOccurs(p: Progress, pos: nat, tokens: seq<Token>) returns (q: Progress)
    requires pos <= |tokens|
    ensures var next := TableStep(Config(StatesOf(p), pos), tokens);
            next.Some? ==> next.value.states == StatesOf(q) && next.value.pos <= |tokens|
  {
    DefaultStates(p);
    q := p;
    if Reduces(p) {
      ReductionsAgree(p);
      q := AfterReduce(p);
    } else if !p.Finished? {
      if pos < |tokens| {
        TablesAgree(p, tokens[pos]);
        if Shiftable(p, tokens[pos]) {
          ShiftPushes(p, tokens[pos]);
          q := AfterShift(p, tokens[pos]);
        }
      } else {
        TablesAtEnd(p);
        if p.Reported? {
          q := Finished(p.report);
        }
      }
    }
  }

  lemma {:induction false} RunOccurs(tokens: seq<Token>, n: nat) returns (p: Progress)
    ensures TableRun(tokens, n).Some? ==> TableRun(tokens, n).value.states == StatesOf(p) && TableRun(tokens, n).value.pos <= |tokens|
  {
    if n == 0 {
      p := AtStart;
    } else {
      p := RunOccurs(tokens, n - 1);
      if TableRun(tokens, n - 1).Some? {
        p := StepOccurs(p, TableRun(tokens, n - 1).value.pos, tokens);
      }
    }
  }

  /** On every token stream the tables' stack holds at most nine states, after any number of turns. */
  lemma StackNeverDeep(tokens: seq<Token>, n: nat)
    requires TableRun(tokens, n).Some?
    ensures var states := TableRun(tokens, n).value.states; 1 <= |states| <= 9 && forall s :: s in states ==> IsState(s)
  {
    var p := RunOccurs(tokens, n);
    DefaultStates(p);
  }

  /** yyparse: for every token stream the tables compute the reference result; the loop keeps the stack within nine. */
  method Parse(tokens: seq<Token>) returns (accepted: bool, printed: Option<Report>)
    ensures Outcome(accepted, printed) == ParseFrom(AtStart, tokens)
  {
    var states: seq<nat>, values: seq<Value>, pos := [0], [Unset], 0;
    printed := None;
    ghost var p := AtStart;
    assert tokens[0..] == tokens;
    while true
      invariant pos <= |tokens|
      invariant states == StatesOf(p) && ValuesMatch(p, values) && printed == PrintedAt(p)
      invariant ParseFrom(p, tokens[pos..]) == ParseFrom(AtStart, tokens)
      invariant |states| <= 9
      decreases |tokens| - pos, if Reduces(p) then 1 else 0, if p.Finished? then 0 else 1
    {
      DefaultStates(p);
      var state := Top(states);
      if state == YYFINAL {
        return true, printed;
      }
      var action := Choose(state, tokens, pos, p);
      match action
      case Shift(next) =>
        states := states + [next];
        if pos < |tokens| {
          ShiftPushes(p, tokens[pos]);
          ShiftValues(p, values, tokens[pos]);
          values := values + [ValueOf(tokens[pos])];
          assert tokens[pos..][1..] == tokens[pos + 1..];
          p := AfterShift(p, tokens[pos]);
          pos := pos + 1;
        } else {
          values := values + [Unset];
          p := Finished(p.report);
        }
        DefaultStates(p);
      case Reduce(rule) =>
        states, values, printed := ReduceBy(rule, states, values, printed, p);
        p := AfterReduce(p);
        DefaultStates(p);
      case Fail =>
        var aborted := Recover(states);
        return !aborted, printed;
    }
  }
}
