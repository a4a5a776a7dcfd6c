/**
 * The values an argument AST stands for.  Composite and brace-expansion
 * evaluation lives in files that are not part of this model; the behaviour
 * here is the one the integration tests in
 * spec/integration/argument_globbing_spec.rb pin down: a composite is the
 * ordered cross product of its parts with the rightmost part varying fastest,
 * and a brace expansion is the flattened, order-preserving list of its
 * options' values.  A variable stands for its value, a subshell for its
 * captured output; both are given.
 */
module Expansion {
  import opened Wrappers
  import opened Ast

  /** `x` in front of every string of `ys`. */
  function Prefixed(x: string, ys: seq<string>): (r: seq<string>)
    ensures |r| == |ys|
    ensures forall j :: 0 <= j < |ys| ==> r[j] == x + ys[j]
  {
    if ys == [] then [] else [x + ys[0]] + Prefixed(x, ys[1..])
  }

  /** Each string of `xs` followed by each string of `ys`, the right one varying fastest. */
  function Cross(xs: seq<string>, ys: seq<string>): (r: seq<string>)
    ensures |r| == |xs| * |ys|
  {
    if xs == [] then []
    else
      var r := Prefixed(xs[0], ys) + Cross(xs[1..], ys);
      assert |r| == |ys| + (|xs| - 1) * |ys|;
      r
  }

  /** Entry `i * |ys| + j` of the product is `xs[i] + ys[j]`. */
  lemma CrossAt(xs: seq<string>, ys: seq<string>, i: nat, j: nat)
    requires i < |xs| && j < |ys|
    ensures i * |ys| + j < |Cross(xs, ys)|
    ensures Cross(xs, ys)[i * |ys| + j] == xs[i] + ys[j]
  {
    assert xs[..i] + xs[i..] == xs;
    CrossConcat(xs[..i], xs[i..], ys);
    var before, from := Cross(xs[..i], ys), Cross(xs[i..], ys);
    assert |before| == i * |ys|;
    assert xs[i..][0] == xs[i] && xs[i..][1..] == xs[i + 1..];
    assert from == Prefixed(xs[i], ys) + Cross(xs[i + 1..], ys);
    assert (before + from)[|before| + j] == from[j];
  }

  /** The product distributes over concatenation on the left. */
  lemma {:induction false} CrossConcat(u: seq<string>, v: seq<string>, ys: seq<string>)
    ensures Cross(u + v, ys) == Cross(u, ys) + Cross(v, ys)
  {
    if u == [] {
      assert u + v == v;
    } else {
      assert (u + v)[0] == u[0];
      assert (u + v)[1..] == u[1..] + v;
      CrossConcat(u[1..], v, ys);
    }
  }

  lemma {:induction false} CrossPrefixed(x: string, ys: seq<string>, zs: seq<string>)
    ensures Cross(Prefixed(x, ys), zs) == Prefixed(x, Cross(ys, zs))
  {
    if ys != [] {
      var p := Prefixed(x, ys);
      assert p[0] == x + ys[0];
      assert p[1..] == Prefixed(x, ys[1..]);
      CrossPrefixed(x, ys[1..], zs);
      PrefixedTwice(x, ys[0], zs);
      PrefixedConcat(x, Prefixed(ys[0], zs), Cross(ys[1..], zs));
    }
  }

  lemma {:induction false} PrefixedTwice(x: string, y: string, zs: seq<string>)
    ensures Prefixed(x, Prefixed(y, zs)) == Prefixed(x + y, zs)
  {
    if zs != [] {
      var p := Prefixed(y, zs);
      assert p[0] == y + zs[0] && p[1..] == Prefixed(y, zs[1..]);
      PrefixedTwice(x, y, zs[1..]);
      assert x + (y + zs[0]) == (x + y) + zs[0];
    }
  }

  lemma {:induction false} PrefixedConcat(x: string, u: seq<string>, v: seq<string>)
    ensures Prefixed(x, u + v) == Prefixed(x, u) + Prefixed(x, v)
  {
    if u == [] {
      assert u + v == v;
    } else {
      assert (u + v)[0] == u[0];
      assert (u + v)[1..] == u[1..] + v;
      PrefixedConcat(x, u[1..], v);
    }
  }

  /**
   * The product is associative, so the right nesting of composites does not
   * matter: `a(bc)` and `(ab)c` stand for the same words in the same order.
   */
  lemma {:induction false} CrossAssociative(xs: seq<string>, ys: seq<string>, zs: seq<string>)
    ensures Cross(Cross(xs, ys), zs) == Cross(xs, Cross(ys, zs))
  {
    if xs != [] {
      CrossConcat(Prefixed(xs[0], ys), Cross(xs[1..], ys), zs);
      CrossPrefixed(xs[0], ys, zs);
      CrossAssociative(xs[1..], ys, zs);
    }
  }

  /** The names of the variables an argument refers to, outside subshells. */
  function Variables(a: Arg): set<string>
    decreases a, 0
  {
    match a
    case StringArg(_) => {}
    case VariableArg(name) => {name}
    case Subshell(_) => {}
    case Composite(h, t) => Variables(h) + Variables(t)
    case BraceExpansion(opts) => OptionVariables(opts)
  }

  function OptionVariables(opts: seq<Arg>): set<string>
    decreases opts, 0
  {
    if opts == [] then {} else Variables(opts[0]) + OptionVariables(opts[1..])
  }

  /** The words an argument stands for, or `None` if it refers to an unset variable. */
  function Expand(a: Arg, variables: map<string, string>, output: Tree -> string): (r: Option<seq<string>>)
    ensures r.Some? <==> Variables(a) <= variables.Keys
    decreases a, 0
  {
    match a
    case StringArg(s) => Some([s])
    case VariableArg(name) => if name in variables then Some([variables[name]]) else None
    case Subshell(p) => Some([output(p)])
    case Composite(h, t) =>
      (match (Expand(h, variables, output), Expand(t, variables, output))
       case (Some(xs), Some(ys)) => Some(Cross(xs, ys))
       case _ => None)
    case BraceExpansion(opts) => ExpandOptions(opts, variables, output)
  }

  /** The options' words, one option after another. */
  function ExpandOptions(opts: seq<Arg>, variables: map<string, string>, output: Tree -> string): (r: Option<seq<string>>)
    ensures r.Some? <==> OptionVariables(opts) <= variables.Keys
    decreases opts, 0
  {
    if opts == [] then Some([])
    else
      match (Expand(opts[0], variables, output), ExpandOptions(opts[1..], variables, output))
      case (Some(xs), Some(ys)) => Some(xs + ys)
      case _ => None
  }

  /** Brace options flatten in order: the options of `o1 + o2` give the words of `o1`, then those of `o2`. */
  lemma {:induction false} ExpandOptionsConcat(o1: seq<Arg>, o2: seq<Arg>, variables: map<string, string>, output: Tree -> string)
    requires OptionVariables(o1 + o2) <= variables.Keys
    ensures ExpandOptions(o1, variables, output).Some? && ExpandOptions(o2, variables, output).Some?
    ensures ExpandOptions(o1 + o2, variables, output).value
         == ExpandOptions(o1, variables, output).value + ExpandOptions(o2, variables, output).value
  {
    if o1 == [] {
      assert o1 + o2 == o2;
    } else {
      assert (o1 + o2)[0] == o1[0];
      assert (o1 + o2)[1..] == o1[1..] + o2;
      assert OptionVariables(o1 + o2) == Variables(o1[0]) + OptionVariables(o1[1..] + o2);
      ExpandOptionsConcat(o1[1..], o2, variables, output);
      OptionVariablesConcat(o1[1..], o2);
    }
  }

  lemma {:induction false} OptionVariablesConcat(o1: seq<Arg>, o2: seq<Arg>)
    ensures OptionVariables(o1 + o2) == OptionVariables(o1) + OptionVariables(o2)
  {
    if o1 == [] {
      assert o1 + o2 == o2;
    } else {
      assert (o1 + o2)[0] == o1[0];
      assert (o1 + o2)[1..] == o1[1..] + o2;
      OptionVariablesConcat(o1[1..], o2);
    }
  }
}
