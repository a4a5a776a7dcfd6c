/**
 * One production step of the parser at a time: each lemma says what one
 * `ParseX` function returns once the results of the calls it makes are known.
 * Proofs about whole token lists chain these steps instead of unfolding the
 * mutually recursive parser all at once.
 */
module ParserSteps {
  import opened Wrappers
  import opened Ast
  import opened Parser

  /** A `program` that is one `commands` with nothing after it but the end or a `)`. */
  lemma ProgramStep(ts: seq<Token>, c: Tree, rest: seq<Token>)
    requires StartsCommands(ts) && ParseCommands(ts, 0) == Some(Parsed(c, rest))
    requires rest == [] || rest[0] == SubshellEnd
    ensures ParseProgram(ts) == Some(Parsed(c, rest))
  {
  }

  /** A `program` in general: an optional SPACE, `commands`, then an optional `;` and an optional SPACE. */
  lemma ProgramEndStep(ts: seq<Token>, c: Tree, rest: seq<Token>)
    requires StartsCommands(Optional(Space, ts)) && ParseCommands(Optional(Space, ts), 0) == Some(Parsed(c, rest))
    ensures ParseProgram(ts) == Some(Parsed(c, Optional(Space, Optional(Semicolon, rest))))
  {
  }

  /** `commands` is a primary followed by the operator loop. */
  lemma CommandsStep(ts: seq<Token>, minPrec: nat, lhs: Tree, rest: seq<Token>)
    requires ParsePrimary(ts) == Some(Parsed(lhs, rest))
    ensures WellFormedCommands(lhs)
    ensures ParseCommands(ts, minPrec) == ParseOperators(lhs, rest, minPrec)
  {
  }

  /** One operator application of the loop. */
  lemma OperatorStep(lhs: Tree, ts: seq<Token>, minPrec: nat, rhs: Tree, rest: seq<Token>)
    requires WellFormedCommands(lhs)
    requires ts != [] && IsOperator(ts[0]) && Precedence(ts[0]) >= minPrec && StartsCommands(ts[1..])
    requires ParseCommands(ts[1..], Precedence(ts[0]) + 1) == Some(Parsed(rhs, rest))
    ensures WellFormedCommands(Node(ts[0], lhs, rhs))
    ensures ParseOperators(lhs, ts, minPrec) == ParseOperators(Node(ts[0], lhs, rhs), rest, minPrec)
  {
  }

  /** The loop stops at anything that is not an operator, and at an operator no command follows. */
  lemma OperatorsEnd(lhs: Tree, ts: seq<Token>, minPrec: nat)
    requires WellFormedCommands(lhs) && (ts == [] || !IsOperator(ts[0]) || !StartsCommands(ts[1..]))
    ensures ParseOperators(lhs, ts, minPrec) == Some(Parsed(lhs, ts))
  {
  }

  /** A parenthesised group not followed by a SPACE. */
  lemma GroupStep(ts: seq<Token>, c: Tree, rest: seq<Token>)
    requires ts != [] && ts[0] == LeftParen
    requires ParseCommands(ts[1..], 0) == Some(Parsed(c, [RightParen] + rest))
    requires rest == [] || rest[0] != Space
    ensures ParsePrimary(ts) == Some(Parsed(c, rest))
  {
    assert ([RightParen] + rest)[1..] == rest;
  }

  /** A parenthesised group followed by a SPACE, which it takes. */
  lemma GroupSpaceStep(ts: seq<Token>, c: Tree, rest: seq<Token>)
    requires ts != [] && ts[0] == LeftParen
    requires ParseCommands(ts[1..], 0) == Some(Parsed(c, [RightParen, Space] + rest))
    ensures ParsePrimary(ts) == Some(Parsed(c, rest))
  {
    var after := [RightParen, Space] + rest;
    assert ParsePrimary(ts) == Some(Parsed(c, Optional(Space, after[1..])));
    assert after[1..] == [Space] + rest;
  }

  /** A command is its argument list. */
  lemma CommandStep(ts: seq<Token>, args: seq<Arg>, rest: seq<Token>)
    requires ts != [] && ts[0] != LeftParen
    requires ParseArgumentList(ts) == Some(Parsed(args, rest))
    ensures ParsePrimary(ts) == Some(Parsed(LazyCommand(args), rest))
  {
  }

  /** An argument list is a first argument followed by the `SPACE argument` steps. */
  lemma ArgumentListStep(ts: seq<Token>, a: Arg, rest: seq<Token>)
    requires ParseArgument(ts) == Some(Parsed(a, rest))
    ensures WellFormedArgs([a])
    ensures ParseArgumentList(ts) == ParseMoreArguments([a], rest)
  {
    assert [a][0] == a;
  }

  /** One `SPACE argument` step. */
  lemma MoreArgumentsStep(acc: seq<Arg>, ts: seq<Token>, a: Arg, rest: seq<Token>)
    requires WellFormedArgs(acc)
    requires ts != [] && ts[0] == Space && StartsPart(ts[1..])
    requires ParseArgument(ts[1..]) == Some(Parsed(a, rest))
    ensures WellFormedArgs(acc + [a])
    ensures ParseMoreArguments(acc, ts) == ParseMoreArguments(acc + [a], rest)
  {
    forall i | 0 <= i < |acc| + 1 ensures WellFormedArg((acc + [a])[i]) {
      if i < |acc| {
        assert (acc + [a])[i] == acc[i];
      }
    }
  }

  /** The list ends where no `SPACE argument` follows. */
  lemma MoreArgumentsEnd(acc: seq<Arg>, ts: seq<Token>)
    requires WellFormedArgs(acc)
    requires ts == [] || ts[0] != Space || !StartsPart(ts[1..])
    ensures ParseMoreArguments(acc, ts) == Some(Parsed(acc, ts))
  {
  }

  /** A part directly followed by another part starts a composite. */
  lemma ArgumentStep(ts: seq<Token>, part: Arg, rest: seq<Token>, tail: Arg, rest': seq<Token>)
    requires ParsePart(ts) == Some(Parsed(part, rest))
    requires StartsPart(rest) && ParseArgument(rest) == Some(Parsed(tail, rest'))
    ensures ParseArgument(ts) == Some(Parsed(Composite(part, tail), rest'))
  {
  }

  /** A part not followed by another part is the whole argument. */
  lemma ArgumentEnd(ts: seq<Token>, part: Arg, rest: seq<Token>)
    requires ParsePart(ts) == Some(Parsed(part, rest)) && !StartsPart(rest)
    ensures ParseArgument(ts) == Some(Parsed(part, rest))
  {
  }

  /** A `$(...)` subshell around a program. */
  lemma SubshellStep(ts: seq<Token>, p: Tree, rest: seq<Token>)
    requires ts != [] && ts[0] == SubshellStart
    requires ParseProgram(ts[1..]) == Some(Parsed(p, [SubshellEnd] + rest))
    ensures ParsePart(ts) == Some(Parsed(Subshell(p), rest))
  {
    assert ([SubshellEnd] + rest)[1..] == rest;
  }

  /** A brace expansion whose fields run up to the closing brace. */
  lemma BraceStep(ts: seq<Token>, fields: seq<Option<Arg>>, rest: seq<Token>)
    requires |ts| >= 2 && ts[0] == LeftBrace && ts[1] != RightBrace
    requires ParseFields(ts[1..]) == Some(Parsed(fields, [RightBrace] + rest)) && HasArgument(fields)
    ensures ParsePart(ts) == Some(Parsed(BraceExpansion(Options(fields)), rest))
  {
    assert ([RightBrace] + rest)[1..] == rest;
  }

  /** A field holding an argument, before a comma. */
  lemma ArgumentFieldStep(ts: seq<Token>, a: Arg, rest: seq<Token>, more: seq<Option<Arg>>, rest': seq<Token>)
    requires StartsPart(ts) && ParseArgument(ts) == Some(Parsed(a, [Comma] + rest))
    requires ParseFields(rest) == Some(Parsed(more, rest'))
    ensures ParseFields(ts) == Some(Parsed([Some(a)] + more, rest'))
  {
    assert ([Comma] + rest)[1..] == rest;
  }

  /** The last field, holding an argument. */
  lemma ArgumentFieldEnd(ts: seq<Token>, a: Arg, rest: seq<Token>)
    requires StartsPart(ts) && ParseArgument(ts) == Some(Parsed(a, rest))
    requires rest == [] || rest[0] != Comma
    ensures ParseFields(ts) == Some(Parsed([Some(a)], rest))
  {
  }

  /** An empty field before a comma. */
  lemma EmptyFieldStep(ts: seq<Token>, more: seq<Option<Arg>>, rest: seq<Token>)
    requires ts != [] && ts[0] == Comma && ParseFields(ts[1..]) == Some(Parsed(more, rest))
    ensures ParseFields(ts) == Some(Parsed([None] + more, rest))
  {
  }

  /** The tokens of `open r close` followed by `ts`, seen from the second token on. */
  lemma Enclosed(open: Token, r: seq<Token>, close: Token, ts: seq<Token>)
    ensures ([open] + r + [close] + ts)[0] == open
    ensures ([open] + r + [close] + ts)[1..] == r + ([close] + ts)
  {
    assert [open] + r + [close] + ts == [open] + (r + ([close] + ts));
  }
}
