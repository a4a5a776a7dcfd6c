/**
 * The parser's input and output (lib/gitsh/parser.rb): the lexer's tokens, the
 * argument AST and the control-flow tree of commands.
 */
module Ast {

  /** The lexer's tokens; the lexer itself is not part of this model. */
  datatype Token =
    | Space
    | Word(text: string)
    | Var(name: string)
    | Eol
    | Semicolon
    | OrOp
    | AndOp
    | LeftParen
    | RightParen
    | LeftBrace
    | RightBrace
    | Comma
    | SubshellStart
    | SubshellEnd

  /** One argument of a command, before evaluation. */
  datatype Arg =
    | StringArg(text: string)
    | VariableArg(name: string)
    | Subshell(program: Tree)
      /** `CompositeArgument.new([part, argument])`: a part directly followed by the rest of the argument. */
    | Composite(head: Arg, tail: Arg)
    | BraceExpansion(options: seq<Arg>)

  /** `Noop`, `LazyCommand` and the nodes of `Commands::Tree`. */
  datatype Tree =
    | Noop
    | LazyCommand(args: seq<Arg>)
    | Multi(left: Tree, right: Tree)
    | Or(left: Tree, right: Tree)
    | And(left: Tree, right: Tree)

  const EmptyOption: Arg := StringArg("")

  /** The first part of an argument. */
  function LeadingPart(a: Arg): Arg {
    if a.Composite? then a.head else a
  }

  /**
   * The shape of every argument the parser builds: a composite is right-nested
   * (its head is a single part), a string part is never directly followed by
   * another string part (adjacent words are merged), and a brace expansion has
   * at least one option.
   */
  predicate WellFormedArg(a: Arg)
    decreases a, 0
  {
    match a
    case StringArg(_) => true
    case VariableArg(_) => true
    case Subshell(p) => WellFormedProgram(p)
    case Composite(h, t) =>
      && !h.Composite?
      && !(h.StringArg? && LeadingPart(t).StringArg?)
      && WellFormedArg(h)
      && WellFormedArg(t)
    case BraceExpansion(opts) =>
      opts != [] && WellFormedArgs(opts)
  }

  predicate WellFormedArgs(xs: seq<Arg>)
    decreases xs, 0
  {
    forall i :: 0 <= i < |xs| ==> WellFormedArg(xs[i])
  }

  /** The shape of a parsed `commands`: every command has at least one argument, and `Noop` never appears. */
  predicate WellFormedCommands(t: Tree)
    decreases t, 0
  {
    match t
    case Noop => false
    case LazyCommand(args) => args != [] && WellFormedArgs(args)
    case Multi(l, r) => WellFormedCommands(l) && WellFormedCommands(r)
    case Or(l, r) => WellFormedCommands(l) && WellFormedCommands(r)
    case And(l, r) => WellFormedCommands(l) && WellFormedCommands(r)
  }

  /** A parsed `program`: `Noop` or a well-formed tree of commands. */
  predicate WellFormedProgram(t: Tree)
    decreases t, 1
  {
    t == Noop || WellFormedCommands(t)
  }
}
