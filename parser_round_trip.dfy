/**
 * The inverse of the parser: a rendering of trees back into tokens that uses
 * parentheses only where the precedence declarations require them, and the
 * proof that the parser reads every well-formed tree back from its rendering.
 * Together with the parser's own postconditions this says that the trees the
 * grammar can build are exactly the well-formed ones, and that precedence and
 * associativity are as declared: `a || b && c` needs no parentheses to mean
 * `Or(a, And(b, c))`, nor `a; b; c` to mean `Multi(Multi(a, b), c)`.
 */
module ParserRoundTrip {
  import opened Wrappers
  import opened Ast
  import opened Parser
  import opened ParserSteps

  /** The precedence of a tree's root operator; a single command binds tightest. */
  function TreePrecedence(t: Tree): (p: nat)
    ensures 1 <= p <= 5
  {
    match t
    case Multi(_, _) => 2
    case Or(_, _) => 3
    case And(_, _) => 4
    case _ => 5
  }

  /** The operator token that builds a binary node (`;` for `Multi`). */
  function OperatorToken(t: Tree): (op: Token)
    requires t.Multi? || t.Or? || t.And?
    ensures IsOperator(op) && Precedence(op) == TreePrecedence(t)
    ensures Node(op, t.left, t.right) == t
  {
    if t.Multi? then Semicolon else if t.Or? then OrOp else AndOp
  }

  function RenderArg(a: Arg): (r: seq<Token>)
    ensures StartsPart(r)
    ensures !a.Composite? ==> (r[0].Word? <==> a.StringArg?)
    decreases a, 0
  {
    match a
    case StringArg(s) => [Word(s)]
    case VariableArg(name) => [Var(name)]
    case Subshell(p) => [SubshellStart] + RenderCommands(p) + [SubshellEnd]
    case Composite(h, t) => RenderArg(h) + RenderArg(t)
    case BraceExpansion(opts) =>
      if opts == [] then [LeftBrace, RightBrace]
      else [LeftBrace] + RenderOptions(opts) + [RightBrace]
  }

  /** Brace options separated by commas. */
  function RenderOptions(opts: seq<Arg>): (r: seq<Token>)
    requires opts != []
    ensures StartsPart(r)
    decreases opts, 0
  {
    RenderArg(opts[0]) + if |opts| == 1 then [] else [Comma] + RenderOptions(opts[1..])
  }

  /** The arguments of a command separated by single spaces. */
  function RenderArguments(args: seq<Arg>): (r: seq<Token>)
    requires args != []
    ensures StartsPart(r)
    decreases args, 1
  {
    RenderArg(args[0]) + SpacedArguments(args[1..])
  }

  /** Each argument preceded by a space. */
  function SpacedArguments(xs: seq<Arg>): seq<Token>
    decreases xs, 0
  {
    if xs == [] then [] else [Space] + RenderArg(xs[0]) + SpacedArguments(xs[1..])
  }

  /** A tree as tokens; `Noop` is the empty program. */
  function RenderCommands(t: Tree): (r: seq<Token>)
    ensures WellFormedCommands(t) ==> StartsCommands(r)
    decreases t, 1
  {
    match t
    case Noop => []
    case LazyCommand(args) => if args == [] then [] else RenderArguments(args)
    case _ => Operand(t.left, TreePrecedence(t)) + [OperatorToken(t)] + Operand(t.right, TreePrecedence(t) + 1)
  }

  /** An operand in a position where only operators of precedence `minPrec` or more may appear unparenthesised. */
  function Operand(t: Tree, minPrec: nat): (r: seq<Token>)
    ensures WellFormedCommands(t) ==> StartsCommands(r)
    decreases t, 2
  {
    if TreePrecedence(t) >= minPrec then RenderCommands(t)
    else [LeftParen] + RenderCommands(t) + [RightParen]
  }

  /** Tokens that end a `commands` whose root has precedence `q`: no operator that would take it as its left operand. */
  predicate Closes(ts: seq<Token>, q: nat) {
    ts == [] || ts[0] == RightParen || ts[0] == SubshellEnd || (IsOperator(ts[0]) && Precedence(ts[0]) <= q)
  }

  /** Tokens that end an argument list. */
  predicate EndsArguments(ts: seq<Token>) {
    ts == [] || (ts[0] != Space && !StartsPart(ts))
  }

  function AllPresent(opts: seq<Arg>): (fields: seq<Option<Arg>>)
    ensures |fields| == |opts|
    ensures forall i :: 0 <= i < |opts| ==> fields[i] == Some(opts[i])
  {
    seq(|opts|, i requires 0 <= i < |opts| => Some(opts[i]))
  }

  /** The first token of a well-formed argument is a WORD exactly when its first part is a string. */
  lemma LeadingToken(a: Arg)
    requires WellFormedArg(a)
    ensures RenderArg(a)[0].Word? <==> LeadingPart(a).StringArg?
  {
    if a.Composite? {
      assert RenderArg(a)[0] == RenderArg(a.head)[0];
    }
  }

  /** Operators of lower precedence than `minPrec` are left for an enclosing level. */
  lemma StopsAt(lhs: Tree, ts: seq<Token>, q: nat, minPrec: nat)
    requires WellFormedCommands(lhs) && Closes(ts, q) && q < minPrec
    ensures ParseOperators(lhs, ts, minPrec) == Some(Parsed(lhs, ts))
  {
  }

  lemma {:induction false} PartRoundTrip(a: Arg, ts: seq<Token>)
    requires WellFormedArg(a) && !a.Composite?
    requires a.StringArg? ==> ts == [] || !ts[0].Word?
    ensures ParsePart(RenderArg(a) + ts) == Some(Parsed(a, ts))
    decreases a, 0
  {
    match a
    case StringArg(s) =>
      assert ([Word(s)] + ts)[1..] == ts;
    case VariableArg(name) =>
      assert ([Var(name)] + ts)[1..] == ts;
    case Subshell(p) =>
      SubshellRoundTrip(p, ts);
    case BraceExpansion(opts) =>
      BraceRoundTrip(opts, ts);
  }

  lemma {:induction false} SubshellRoundTrip(p: Tree, ts: seq<Token>)
    requires WellFormedProgram(p)
    ensures ParsePart(RenderArg(Subshell(p)) + ts) == Some(Parsed(Subshell(p), ts))
    decreases p, 4
  {
    Enclosed(SubshellStart, RenderCommands(p), SubshellEnd, ts);
    ProgramRoundTrip(p, [SubshellEnd] + ts);
    SubshellStep(RenderArg(Subshell(p)) + ts, p, ts);
  }

  lemma {:induction false} BraceRoundTrip(opts: seq<Arg>, ts: seq<Token>)
    requires opts != [] && WellFormedArgs(opts)
    ensures ParsePart(RenderArg(BraceExpansion(opts)) + ts) == Some(Parsed(BraceExpansion(opts), ts))
    decreases opts, 2
  {
    var all := RenderArg(BraceExpansion(opts)) + ts;
    var fields := AllPresent(opts);
    Enclosed(LeftBrace, RenderOptions(opts), RightBrace, ts);
    Leading(RenderOptions(opts), [RightBrace] + ts);
    FieldsRoundTrip(opts, [RightBrace] + ts);
    assert HasArgument(fields) by {
      assert fields[0].Some?;
    }
    assert Options(fields) == opts;
    BraceStep(all, fields, ts);
  }

  lemma {:induction false} ArgRoundTrip(a: Arg, ts: seq<Token>)
    requires WellFormedArg(a) && !StartsPart(ts)
    ensures ParseArgument(RenderArg(a) + ts) == Some(Parsed(a, ts))
    decreases a, 1
  {
    if a.Composite? {
      var more := RenderArg(a.tail) + ts;
      assert RenderArg(a) + ts == RenderArg(a.head) + more;
      Leading(RenderArg(a.tail), ts);
      LeadingToken(a.tail);
      PartRoundTrip(a.head, more);
      ArgRoundTrip(a.tail, ts);
      ArgumentStep(RenderArg(a) + ts, a.head, more, a.tail, ts);
    } else {
      PartRoundTrip(a, ts);
      ArgumentEnd(RenderArg(a) + ts, a, ts);
    }
  }

  lemma Snoc(acc: seq<Arg>, xs: seq<Arg>)
    requires xs != []
    ensures acc + [xs[0]] + xs[1..] == acc + xs
  {
    assert xs == [xs[0]] + xs[1..];
  }

  /** The first of well-formed arguments is well formed, and so are the others. */
  lemma Uncons(xs: seq<Arg>)
    requires xs != [] && WellFormedArgs(xs)
    ensures WellFormedArg(xs[0]) && WellFormedArgs(xs[1..])
    ensures [xs[0]] + xs[1..] == xs
  {
    forall i | 0 <= i < |xs| - 1 ensures WellFormedArg(xs[1..][i]) {
      assert xs[1..][i] == xs[i + 1];
    }
  }

  /** Tokens followed by more tokens start as they did. */
  lemma Leading(r: seq<Token>, ts: seq<Token>)
    requires r != []
    ensures (r + ts)[0] == r[0]
  {
  }

  /** The rendering of several options: the first option, a comma, and the others. */
  lemma OptionsTokens(opts: seq<Arg>, ts: seq<Token>)
    requires |opts| > 1
    ensures RenderOptions(opts) + ts == RenderArg(opts[0]) + ([Comma] + (RenderOptions(opts[1..]) + ts))
  {
    var first, others := RenderArg(opts[0]), RenderOptions(opts[1..]);
    assert RenderOptions(opts) == first + ([Comma] + others);
    SeqAssociative(first, [Comma] + others, ts);
    SeqAssociative([Comma], others, ts);
  }

  lemma SeqAssociative(a: seq<Token>, b: seq<Token>, c: seq<Token>)
    ensures (a + b) + c == a + (b + c)
  {
  }

  /** Dropping the first token of `[x] + r` leaves `r`. */
  lemma AfterFirst(x: Token, r: seq<Token>)
    ensures ([x] + r)[1..] == r
  {
  }

  /** Spaced arguments: a space, the first argument, and the others. */
  lemma SpacedTokens(xs: seq<Arg>, ts: seq<Token>)
    requires xs != []
    ensures SpacedArguments(xs) + ts == [Space] + (RenderArg(xs[0]) + (SpacedArguments(xs[1..]) + ts))
  {
    var first, others := RenderArg(xs[0]), SpacedArguments(xs[1..]);
    assert SpacedArguments(xs) == [Space] + first + others;
    SeqAssociative([Space] + first, others, ts);
    SeqAssociative([Space], first, others + ts);
  }

  /** Spaced arguments start with a space, or are empty. */
  lemma SpacedStart(xs: seq<Arg>, ts: seq<Token>)
    ensures SpacedArguments(xs) + ts == ts || (SpacedArguments(xs) + ts)[0] == Space
  {
    if xs != [] {
      SpacedTokens(xs, ts);
    }
  }

  lemma {:induction false} FieldsRoundTrip(opts: seq<Arg>, ts: seq<Token>)
    requires opts != [] && WellFormedArgs(opts)
    requires !StartsPart(ts) && (ts == [] || ts[0] != Comma)
    ensures ParseFields(RenderOptions(opts) + ts) == Some(Parsed(AllPresent(opts), ts))
    decreases opts, 1
  {
    var all := RenderOptions(opts) + ts;
    Uncons(opts);
    Leading(RenderOptions(opts), ts);
    AllPresentCons(opts);
    if |opts| == 1 {
      assert RenderOptions(opts) == RenderArg(opts[0]) + [];
      assert all == RenderArg(opts[0]) + ts;
      ArgRoundTrip(opts[0], ts);
      ArgumentFieldEnd(all, opts[0], ts);
    } else {
      var rest := RenderOptions(opts[1..]) + ts;
      OptionsTokens(opts, ts);
      AfterFirst(Comma, rest);
      ArgRoundTrip(opts[0], [Comma] + rest);
      FieldsRoundTrip(opts[1..], ts);
      ArgumentFieldStep(all, opts[0], rest, AllPresent(opts[1..]), ts);
    }
  }

  lemma AllPresentCons(opts: seq<Arg>)
    requires opts != []
    ensures AllPresent(opts) == [Some(opts[0])] + AllPresent(opts[1..])
    ensures |opts| == 1 ==> AllPresent(opts) == [Some(opts[0])]
  {
  }

  lemma {:induction false} MoreArgumentsRoundTrip(acc: seq<Arg>, xs: seq<Arg>, ts: seq<Token>)
    requires WellFormedArgs(acc) && WellFormedArgs(xs) && EndsArguments(ts)
    ensures ParseMoreArguments(acc, SpacedArguments(xs) + ts) == Some(Parsed(acc + xs, ts))
    decreases xs, 1
  {
    var all := SpacedArguments(xs) + ts;
    if xs == [] {
      assert all == ts;
      MoreArgumentsEnd(acc, ts);
      assert acc + xs == acc;
    } else {
      var more := SpacedArguments(xs[1..]) + ts;
      SpacedTokens(xs, ts);
      AfterFirst(Space, RenderArg(xs[0]) + more);
      SpacedStart(xs[1..], ts);
      Leading(RenderArg(xs[0]), more);
      Uncons(xs);
      ArgRoundTrip(xs[0], more);
      MoreArgumentsStep(acc, all, xs[0], more);
      MoreArgumentsRoundTrip(acc + [xs[0]], xs[1..], ts);
      Snoc(acc, xs);
    }
  }

  lemma {:induction false} ArgumentsRoundTrip(args: seq<Arg>, ts: seq<Token>)
    requires args != [] && WellFormedArgs(args) && EndsArguments(ts)
    ensures ParseArgumentList(RenderArguments(args) + ts) == Some(Parsed(args, ts))
    decreases args, 2
  {
    var more := SpacedArguments(args[1..]) + ts;
    var all := RenderArguments(args) + ts;
    SeqAssociative(RenderArg(args[0]), SpacedArguments(args[1..]), ts);
    SpacedStart(args[1..], ts);
    Uncons(args);
    ArgRoundTrip(args[0], more);
    ArgumentListStep(all, args[0], more);
    MoreArgumentsRoundTrip([args[0]], args[1..], ts);
  }

  /**
   * Precedence climbing reads a rendered tree whole and hands what follows to
   * the operator loop of the level it was called at.
   */
  lemma {:induction false} CommandsRoundTrip(t: Tree, minPrec: nat, ts: seq<Token>)
    requires WellFormedCommands(t) && minPrec <= TreePrecedence(t) && Closes(ts, TreePrecedence(t))
    ensures ParseCommands(RenderCommands(t) + ts, minPrec) == ParseOperators(t, ts, minPrec)
    decreases t, 2
  {
    if t.LazyCommand? {
      var all := RenderCommands(t) + ts;
      assert all == RenderArguments(t.args) + ts;
      ArgumentsRoundTrip(t.args, ts);
      Leading(RenderArguments(t.args), ts);
      CommandStep(all, t.args, ts);
      CommandsStep(all, minPrec, t, ts);
    } else {
      BinaryRoundTrip(t, minPrec, ts);
    }
  }

  /** The rendering of a binary node: left operand, operator token, right operand. */
  lemma BinaryTokens(t: Tree, ts: seq<Token>)
    requires t.Multi? || t.Or? || t.And?
    ensures var q := TreePrecedence(t);
      RenderCommands(t) + ts == Operand(t.left, q) + ([OperatorToken(t)] + (Operand(t.right, q + 1) + ts))
  {
  }

  /** The binary case of `CommandsRoundTrip`. */
  lemma {:induction false} BinaryRoundTrip(t: Tree, minPrec: nat, ts: seq<Token>)
    requires WellFormedCommands(t) && (t.Multi? || t.Or? || t.And?)
    requires minPrec <= TreePrecedence(t) && Closes(ts, TreePrecedence(t))
    ensures ParseCommands(RenderCommands(t) + ts, minPrec) == ParseOperators(t, ts, minPrec)
    decreases t, 1
  {
    var q := TreePrecedence(t);
    var right := Operand(t.right, q + 1) + ts;
    var more := [OperatorToken(t)] + right;
    BinaryTokens(t, ts);
    OperandRoundTrip(t.left, q, minPrec, more);
    assert more[1..] == right;
    Leading(Operand(t.right, q + 1), ts);
    OperandRoundTrip(t.right, q + 1, q + 1, ts);
    StopsAt(t.right, ts, q, q + 1);
    OperatorStep(t.left, more, minPrec, t.right, ts);
  }

  lemma {:induction false} OperandRoundTrip(t: Tree, q: nat, minPrec: nat, ts: seq<Token>)
    requires WellFormedCommands(t) && minPrec <= q && Closes(ts, q)
    ensures ParseCommands(Operand(t, q) + ts, minPrec) == ParseOperators(t, ts, minPrec)
    decreases t, 3
  {
    if TreePrecedence(t) >= q {
      CommandsRoundTrip(t, minPrec, ts);
    } else {
      var all := Operand(t, q) + ts;
      Enclosed(LeftParen, RenderCommands(t), RightParen, ts);
      CommandsRoundTrip(t, 0, [RightParen] + ts);
      OperatorsEnd(t, [RightParen] + ts, 0);
      GroupStep(all, t, ts);
      CommandsStep(all, minPrec, t, ts);
    }
  }

  lemma {:induction false} ProgramRoundTrip(t: Tree, ts: seq<Token>)
    requires WellFormedProgram(t) && (ts == [] || ts[0] == SubshellEnd)
    ensures ParseProgram(RenderCommands(t) + ts) == Some(Parsed(t, ts))
    decreases t, 3
  {
    var all := RenderCommands(t) + ts;
    if t == Noop {
      assert all == ts;
    } else {
      Leading(RenderCommands(t), ts);
      CommandsRoundTrip(t, 0, ts);
      OperatorsEnd(t, ts, 0);
      ProgramStep(all, t, ts);
    }
  }

  /** Every well-formed tree is the parse of its rendering. */
  lemma ParseRender(t: Tree)
    requires WellFormedProgram(t)
    ensures Parse(RenderCommands(t)) == Ok(t)
  {
    ProgramRoundTrip(t, []);
    assert RenderCommands(t) + [] == RenderCommands(t);
  }

  /** The trees the grammar builds are exactly the well-formed ones. */
  lemma ParsedTreesAreWellFormed(t: Tree)
    ensures WellFormedProgram(t) <==> exists ts :: Parse(ts) == Ok(t)
  {
    if WellFormedProgram(t) {
      ParseRender(t);
    }
  }
}
