/**
 * What the grammar's precedence declarations and actions give: general
 * consequences of the round trip, and the small inputs that illustrate them.
 */
module ParserExamples {
  import opened Wrappers
  import opened Ast
  import opened Parser
  import opened ParserSteps
  import opened ParserRoundTrip

  function Cmd(w: string): Tree {
    LazyCommand([StringArg(w)])
  }

  lemma RenderCmd(w: string)
    ensures RenderCommands(Cmd(w)) == [Word(w)]
  {
    assert RenderArguments([StringArg(w)]) == [Word(w)] + SpacedArguments([]);
  }

  /** Empty input and a lone SPACE are `Noop`. */
  lemma EmptyInputIsNoop()
    ensures Parse([]) == Ok(Noop)
    ensures Parse([Space]) == Ok(Noop)
  {
  }

  /** Surrounding spaces and one trailing `;` add no node. */
  lemma {:induction false} TrailingSemicolonAddsNoNode(t: Tree)
    requires WellFormedCommands(t)
    ensures Parse([Space] + RenderCommands(t) + [Semicolon, Space]) == Ok(t)
  {
    var r := RenderCommands(t);
    var tail := [Semicolon, Space];
    var all := [Space] + r + tail;
    assert Optional(Space, all) == r + tail by {
      SeqAssociative([Space], r, tail);
      AfterFirst(Space, r + tail);
    }
    assert StartsCommands(r + tail) by {
      Leading(r, tail);
    }
    assert ParseCommands(r + tail, 0) == Some(Parsed(t, tail)) by {
      CommandsRoundTrip(t, 0, tail);
      assert tail[1..] == [Space];
      OperatorsEnd(t, tail, 0);
    }
    ProgramEndStep(all, t, tail);
    assert Optional(Semicolon, tail) == [Space];
  }

  /**
   * A newline joins two complete command lines into `Multi` with no
   * parentheses needed on either side: it binds loosest of all operators.
   */
  lemma {:induction false} NewlineJoinsLines(first: Tree, second: Tree)
    requires WellFormedCommands(first) && WellFormedCommands(second)
    ensures Parse(RenderCommands(first) + [Eol] + RenderCommands(second)) == Ok(Multi(first, second))
  {
    var r1, r2 := RenderCommands(first), RenderCommands(second);
    var more := [Eol] + r2;
    SeqAssociative(r1, [Eol], r2);
    CommandsRoundTrip(first, 0, more);
    AfterFirst(Eol, r2);
    CommandsRoundTrip(second, 2, []);
    assert r2 + [] == r2;
    OperatorsEnd(second, [], 2);
    OperatorStep(first, more, 0, second, []);
    OperatorsEnd(Multi(first, second), [], 0);
    Leading(r1, more);
    ProgramStep(r1 + more, Multi(first, second), []);
  }

  /** A parenthesised group is the inner tree itself, and a SPACE after it is dropped. */
  lemma {:induction false} GroupAddsNoNode(t: Tree)
    requires WellFormedCommands(t)
    ensures Parse([LeftParen] + RenderCommands(t) + [RightParen, Space]) == Ok(t)
  {
    var r := RenderCommands(t);
    var tail := [RightParen, Space];
    var all := [LeftParen] + r + tail;
    SeqAssociative([LeftParen], r, tail);
    AfterFirst(LeftParen, r + tail);
    CommandsRoundTrip(t, 0, tail);
    OperatorsEnd(t, tail, 0);
    assert tail == tail + [];
    GroupSpaceStep(all, t, []);
    CommandsStep(all, 0, t, []);
    OperatorsEnd(t, [], 0);
    ProgramStep(all, t, []);
  }

  /** `;` is left-associative: `a; b; c` is `Multi(Multi(a, b), c)`. */
  lemma SemicolonIsLeftAssociative()
    ensures Parse([Word("a"), Semicolon, Word("b"), Semicolon, Word("c")])
         == Ok(Multi(Multi(Cmd("a"), Cmd("b")), Cmd("c")))
  {
    var left := Multi(Cmd("a"), Cmd("b"));
    var t := Multi(left, Cmd("c"));
    RenderCmd("a"); RenderCmd("b"); RenderCmd("c");
    assert RenderCommands(left) == [Word("a"), Semicolon, Word("b")];
    assert RenderCommands(t) == [Word("a"), Semicolon, Word("b"), Semicolon, Word("c")];
    ParseRender(t);
  }

  /** `&&` binds tighter than `||` when it comes second ... */
  lemma AndBindsTighterThanOr()
    ensures Parse([Word("a"), OrOp, Word("b"), AndOp, Word("c")])
         == Ok(Or(Cmd("a"), And(Cmd("b"), Cmd("c"))))
  {
    var right := And(Cmd("b"), Cmd("c"));
    var t := Or(Cmd("a"), right);
    RenderCmd("a"); RenderCmd("b"); RenderCmd("c");
    assert RenderCommands(right) == [Word("b"), AndOp, Word("c")];
    assert RenderCommands(t) == [Word("a"), OrOp, Word("b"), AndOp, Word("c")];
    ParseRender(t);
  }

  /** ... and when it comes first. */
  lemma AndBeforeOr()
    ensures Parse([Word("a"), AndOp, Word("b"), OrOp, Word("c")])
         == Ok(Or(And(Cmd("a"), Cmd("b")), Cmd("c")))
  {
    var left := And(Cmd("a"), Cmd("b"));
    var t := Or(left, Cmd("c"));
    RenderCmd("a"); RenderCmd("b"); RenderCmd("c");
    assert RenderCommands(left) == [Word("a"), AndOp, Word("b")];
    assert RenderCommands(t) == [Word("a"), AndOp, Word("b"), OrOp, Word("c")];
    ParseRender(t);
  }

  /** `||` binds tighter than `;`. */
  lemma OrBindsTighterThanSemicolon()
    ensures Parse([Word("a"), Semicolon, Word("b"), OrOp, Word("c")])
         == Ok(Multi(Cmd("a"), Or(Cmd("b"), Cmd("c"))))
  {
    var right := Or(Cmd("b"), Cmd("c"));
    var t := Multi(Cmd("a"), right);
    RenderCmd("a"); RenderCmd("b"); RenderCmd("c");
    assert RenderCommands(right) == [Word("b"), OrOp, Word("c")];
    assert RenderCommands(t) == [Word("a"), Semicolon, Word("b"), OrOp, Word("c")];
    ParseRender(t);
  }

  /** `;` binds tighter than a newline, and both build `Multi`. */
  lemma SemicolonBindsTighterThanNewline()
    ensures Parse([Word("a"), Eol, Word("b"), Semicolon, Word("c")])
         == Ok(Multi(Cmd("a"), Multi(Cmd("b"), Cmd("c"))))
  {
    var second := Multi(Cmd("b"), Cmd("c"));
    RenderCmd("a"); RenderCmd("b"); RenderCmd("c");
    assert RenderCommands(second) == [Word("b"), Semicolon, Word("c")];
    NewlineJoinsLines(Cmd("a"), second);
    assert RenderCommands(Cmd("a")) + [Eol] + RenderCommands(second)
        == [Word("a"), Eol, Word("b"), Semicolon, Word("c")];
  }

  /** Parentheses override precedence. */
  lemma GroupOverridesPrecedence()
    ensures Parse([LeftParen, Word("a"), OrOp, Word("b"), RightParen, AndOp, Word("c")])
         == Ok(And(Or(Cmd("a"), Cmd("b")), Cmd("c")))
  {
    var left := Or(Cmd("a"), Cmd("b"));
    var t := And(left, Cmd("c"));
    RenderCmd("a"); RenderCmd("b"); RenderCmd("c");
    assert RenderCommands(left) == [Word("a"), OrOp, Word("b")];
    assert Operand(left, 4) == [LeftParen, Word("a"), OrOp, Word("b"), RightParen];
    assert RenderCommands(t) == [LeftParen, Word("a"), OrOp, Word("b"), RightParen, AndOp, Word("c")];
    ParseRender(t);
  }

  /** Space-separated arguments form one command, in input order. */
  lemma ArgumentsInOrder()
    ensures Parse([Word("a"), Space, Var("b"), Space, Word("c")])
         == Ok(LazyCommand([StringArg("a"), VariableArg("b"), StringArg("c")]))
  {
    var args := [StringArg("a"), VariableArg("b"), StringArg("c")];
    assert args[1..][1..] == [StringArg("c")];
    assert SpacedArguments(args[1..][1..]) == [Space, Word("c")];
    assert SpacedArguments(args[1..]) == [Space, Var("b"), Space, Word("c")];
    assert RenderCommands(LazyCommand(args)) == [Word("a"), Space, Var("b"), Space, Word("c")];
    ParseRender(LazyCommand(args));
  }

  /** A SPACE before an operator is not a separator the grammar accepts. */
  lemma SpaceBeforeOperatorRejected(a: string, b: string)
    ensures Parse([Word(a), Space, AndOp, Word(b)]).Err?
  {
    var ts := [Word(a), Space, AndOp, Word(b)];
    var rest := ts[1..];
    assert ParseWord(ts) == Parsed(a, rest);
    ArgumentEnd(ts, StringArg(a), rest);
    ArgumentListStep(ts, StringArg(a), rest);
    assert rest[1..] == [AndOp, Word(b)];
    MoreArgumentsEnd([StringArg(a)], rest);
    CommandStep(ts, [StringArg(a)], rest);
    CommandsStep(ts, 0, LazyCommand([StringArg(a)]), rest);
    OperatorsEnd(LazyCommand([StringArg(a)]), rest, 0);
    ProgramEndStep(ts, LazyCommand([StringArg(a)]), rest);
    assert Optional(Space, Optional(Semicolon, rest)) == rest[1..];
  }
}
