/**
 * The grammar of lib/gitsh/parser.rb as a recursive-descent parser over the
 * lexer's tokens, with precedence climbing for the four binary operators
 * (EOL < `;` < `||` < `&&`, all left-associative).
 *
 * Each `ParseX` reads one production from the front of a token list and returns
 * the node the production's action builds together with the unread tokens, or
 * `None` when no parse exists.  Where the grammar allows a choice (whether a
 * `;` is the trailing one of `program` or an operator, whether a SPACE
 * separates arguments or ends the command), the parser looks one token further
 * instead of backtracking.  Consecutive WORD
 * tokens are always read as one `word` (`WORD+`).
 */
module Parser {
  import opened Wrappers
  import opened Ast

  /** A parsed value and the tokens after it. */
  datatype Parsed<T> = Parsed(value: T, rest: seq<Token>)

  datatype ParseError = ParseError

  /** The tokens that can begin an `argument_part`. */
  predicate StartsPart(ts: seq<Token>) {
    ts != [] && (ts[0].Word? || ts[0].Var? || ts[0] == SubshellStart || ts[0] == LeftBrace)
  }

  /** The tokens that can begin `commands`. */
  predicate StartsCommands(ts: seq<Token>) {
    StartsPart(ts) || (ts != [] && ts[0] == LeftParen)
  }

  predicate IsOperator(t: Token) {
    t == Eol || t == Semicolon || t == OrOp || t == AndOp
  }

  /** The `left` declarations, lowest first. */
  function Precedence(op: Token): (p: nat)
    requires IsOperator(op)
    ensures 1 <= p <= 4
  {
    if op == Eol then 1 else if op == Semicolon then 2 else if op == OrOp then 3 else 4
  }

  /**
   * The order of the `left` declarations: each later line binds tighter, so a
   * newline is the loosest operator and `&&` the tightest.
   */
  lemma PrecedenceOrder()
    ensures Precedence(Eol) < Precedence(Semicolon) < Precedence(OrOp) < Precedence(AndOp)
  {
  }

  /** The node built by `.commands OP .commands`: EOL and `;` both build `Multi`. */
  function Node(op: Token, left: Tree, right: Tree): (t: Tree)
    requires IsOperator(op)
    ensures t.Multi? || t.Or? || t.And?
    ensures t.left == left && t.right == right
  {
    if op == OrOp then Or(left, right)
    else if op == AndOp then And(left, right)
    else Multi(left, right)
  }

  /** Drops one token of the given kind if it is next: an optional `X?`. */
  function Optional(kind: Token, ts: seq<Token>): (r: seq<Token>)
    ensures r == ts || (ts != [] && ts[0] == kind && r == ts[1..])
    ensures ts != [] && ts[0] == kind ==> r == ts[1..]
  {
    if ts != [] && ts[0] == kind then ts[1..] else ts
  }

  /** `word: WORD+`, concatenated (`words.inject(:+)`). */
  function ParseWord(ts: seq<Token>): (r: Parsed<string>)
    requires ts != [] && ts[0].Word?
    ensures |r.rest| < |ts|
    ensures r.rest == [] || !r.rest[0].Word?
  {
    var more := ts[1..];
    if more != [] && more[0].Word? then
      var w := ParseWord(more);
      Parsed(ts[0].text + w.value, w.rest)
    else
      Parsed(ts[0].text, more)
  }

  /** `program: SPACE? commands SEMICOLON? SPACE? | SPACE?`. */
  function ParseProgram(ts: seq<Token>): (r: Option<Parsed<Tree>>)
    ensures r.Some? ==> |r.value.rest| <= |ts| && WellFormedProgram(r.value.value)
    decreases |ts|, 8
  {
    var start := Optional(Space, ts);
    if StartsCommands(start) then
      match ParseCommands(start, 0)
      case None => None
      case Some(Parsed(c, rest)) => Some(Parsed(c, Optional(Space, Optional(Semicolon, rest))))
    else
      Some(Parsed(Noop, start))
  }

  /**
   * `commands` whose operators all have precedence `minPrec` or more: a
   * primary followed by operator applications.
   */
  function ParseCommands(ts: seq<Token>, minPrec: nat): (r: Option<Parsed<Tree>>)
    ensures r.Some? ==> |r.value.rest| < |ts| && WellFormedCommands(r.value.value)
    decreases |ts|, 7
  {
    match ParsePrimary(ts)
    case None => None
    case Some(Parsed(lhs, rest)) => ParseOperators(lhs, rest, minPrec)
  }

  /**
   * Extends `lhs` with operators of precedence `minPrec` or more.  The right
   * operand of an operator holds only operators that bind tighter, which makes
   * every operator left-associative.  An operator is applied only if a command
   * follows it; otherwise it is left unread (a trailing `;` belongs to
   * `program`, anything else is a parse error).
   */
  function ParseOperators(lhs: Tree, ts: seq<Token>, minPrec: nat): (r: Option<Parsed<Tree>>)
    requires WellFormedCommands(lhs)
    ensures r.Some? ==> |r.value.rest| <= |ts| && WellFormedCommands(r.value.value)
    decreases |ts|, 7
  {
    if ts != [] && IsOperator(ts[0]) && Precedence(ts[0]) >= minPrec && StartsCommands(ts[1..]) then
      match ParseCommands(ts[1..], Precedence(ts[0]) + 1)
      case None => None
      case Some(Parsed(rhs, rest)) => ParseOperators(Node(ts[0], lhs, rhs), rest, minPrec)
    else
      Some(Parsed(lhs, ts))
  }

  /** `command` (a `LazyCommand` over an `argument_list`) or `LEFT_PAREN commands RIGHT_PAREN SPACE?`. */
  function ParsePrimary(ts: seq<Token>): (r: Option<Parsed<Tree>>)
    ensures r.Some? ==> |r.value.rest| < |ts| && WellFormedCommands(r.value.value)
    decreases |ts|, 6
  {
    if ts != [] && ts[0] == LeftParen then
      match ParseCommands(ts[1..], 0)
      case None => None
      case Some(Parsed(c, rest)) =>
        if rest != [] && rest[0] == RightParen then Some(Parsed(c, Optional(Space, rest[1..])))
        else None
    else
      match ParseArgumentList(ts)
      case None => None
      case Some(Parsed(args, rest)) => Some(Parsed(LazyCommand(args), rest))
  }

  /** `argument_list: argument | argument_list SPACE argument`. */
  function ParseArgumentList(ts: seq<Token>): (r: Option<Parsed<seq<Arg>>>)
    ensures r.Some? ==> |r.value.rest| < |ts| && r.value.value != [] && WellFormedArgs(r.value.value)
    decreases |ts|, 5
  {
    match ParseArgument(ts)
    case None => None
    case Some(Parsed(a, rest)) => ParseMoreArguments([a], rest)
  }

  /** The `SPACE argument` steps of `argument_list`, appended to `acc` in input order. */
  function ParseMoreArguments(acc: seq<Arg>, ts: seq<Token>): (r: Option<Parsed<seq<Arg>>>)
    requires WellFormedArgs(acc)
    ensures r.Some? ==> |r.value.rest| <= |ts| && WellFormedArgs(r.value.value)
    ensures r.Some? ==> acc <= r.value.value
    decreases |ts|, 5
  {
    if ts != [] && ts[0] == Space && StartsPart(ts[1..]) then
      match ParseArgument(ts[1..])
      case None => None
      case Some(Parsed(a, rest)) => ParseMoreArguments(acc + [a], rest)
    else
      Some(Parsed(acc, ts))
  }

  /** `argument: argument_part | argument_part argument`: parts with no separator form a right-nested composite. */
  function ParseArgument(ts: seq<Token>): (r: Option<Parsed<Arg>>)
    ensures r.Some? ==> |r.value.rest| < |ts| && WellFormedArg(r.value.value) && !StartsPart(r.value.rest)
    ensures r.Some? ==> (LeadingPart(r.value.value).StringArg? <==> ts[0].Word?)
    decreases |ts|, 4
  {
    match ParsePart(ts)
    case None => None
    case Some(Parsed(part, rest)) =>
      if StartsPart(rest) then
        match ParseArgument(rest)
        case None => None
        case Some(Parsed(tail, rest')) => Some(Parsed(Composite(part, tail), rest'))
      else
        Some(Parsed(part, rest))
  }

  /** `argument_part: word | VAR | subshell | brace_expansion`, with `subshell: SUBSHELL_START program SUBSHELL_END`. */
  function ParsePart(ts: seq<Token>): (r: Option<Parsed<Arg>>)
    ensures r.Some? ==> |r.value.rest| < |ts| && WellFormedArg(r.value.value) && !r.value.value.Composite?
    ensures r.Some? ==> (r.value.value.StringArg? <==> ts[0].Word?)
    ensures r.Some? && r.value.value.StringArg? ==> r.value.rest == [] || !r.value.rest[0].Word?
    decreases |ts|, 3
  {
    if ts == [] then None
    else match ts[0]
      case Word(_) =>
        var w := ParseWord(ts);
        Some(Parsed(StringArg(w.value), w.rest))
      case Var(name) => Some(Parsed(VariableArg(name), ts[1..]))
      case SubshellStart =>
        (match ParseProgram(ts[1..])
         case None => None
         case Some(Parsed(p, rest)) =>
           if rest != [] && rest[0] == SubshellEnd then Some(Parsed(Subshell(p), rest[1..]))
           else None)
      case LeftBrace => ParseBrace(ts)
      case _ => None
  }

  /** `brace_expansion: LEFT_BRACE RIGHT_BRACE | LEFT_BRACE brace_expansion_list RIGHT_BRACE`. */
  function ParseBrace(ts: seq<Token>): (r: Option<Parsed<Arg>>)
    requires ts != [] && ts[0] == LeftBrace
    ensures r.Some? ==> |r.value.rest| < |ts| && WellFormedArg(r.value.value) && r.value.value.BraceExpansion?
    decreases |ts|, 2
  {
    if |ts| >= 2 && ts[1] == RightBrace then
      assert WellFormedArg([EmptyOption][0]);
      Some(Parsed(BraceExpansion([EmptyOption]), ts[2..]))
    else
      match ParseFields(ts[1..])
      case None => None
      case Some(Parsed(fields, rest)) =>
        if HasArgument(fields) && rest != [] && rest[0] == RightBrace then
          var opts := Options(fields);
          assert WellFormedArgs(opts) by {
            forall i | 0 <= i < |opts| ensures WellFormedArg(opts[i]) {
              if fields[i].Some? {
                assert WellFormedArg(fields[i].value);
              }
            }
          }
          Some(Parsed(BraceExpansion(opts), rest[1..]))
        else
          None
  }

  /**
   * The comma-separated fields of a `brace_expansion_list`; an empty field is
   * `None`.  The list's four clauses derive exactly the field lists with at
   * least one argument, each empty field standing for an empty-string option
   * (`ParserFields.BraceFields`).
   */
  function ParseFields(ts: seq<Token>): (r: Option<Parsed<seq<Option<Arg>>>>)
    ensures r.Some? ==> |r.value.rest| <= |ts| && r.value.value != []
    ensures r.Some? ==> forall i :: 0 <= i < |r.value.value| && r.value.value[i].Some? ==> WellFormedArg(r.value.value[i].value)
    decreases |ts|, 5
  {
    var field: Option<Parsed<Option<Arg>>> :=
      if StartsPart(ts) then
        match ParseArgument(ts)
        case None => None
        case Some(Parsed(a, rest)) => Some(Parsed(Some(a), rest))
      else
        Some(Parsed(None, ts));
    match field
    case None => None
    case Some(Parsed(f, rest)) =>
      if rest != [] && rest[0] == Comma then
        match ParseFields(rest[1..])
        case None => None
        case Some(Parsed(more, rest')) => Some(Parsed([f] + more, rest'))
      else
        Some(Parsed([f], rest))
  }

  predicate HasArgument(fields: seq<Option<Arg>>) {
    exists i :: 0 <= i < |fields| && fields[i].Some?
  }

  /** The options of a brace expansion: each empty field becomes `StringArgument.new('')`. */
  function Options(fields: seq<Option<Arg>>): (opts: seq<Arg>)
    ensures |opts| == |fields|
    ensures forall i :: 0 <= i < |fields| ==> opts[i] == if fields[i].Some? then fields[i].value else EmptyOption
  {
    seq(|fields|, i requires 0 <= i < |fields| => if fields[i].Some? then fields[i].value else EmptyOption)
  }

  /** The whole token list must be one `program`. */
  function Parse(ts: seq<Token>): (r: Result<Tree, ParseError>)
    ensures r.Ok? ==> WellFormedProgram(r.value)
  {
    match ParseProgram(ts)
    case Some(Parsed(t, rest)) => if rest == [] then Ok(t) else Err(ParseError)
    case None => Err(ParseError)
  }
}
