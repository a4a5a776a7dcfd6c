/**
 * The brace-expansion cases of spec/integration/argument_globbing_spec.rb:
 * the tokens of each argument, the AST the parser builds from them, and the
 * words that AST stands for.
 */
module GlobbingExamples {
  import opened Wrappers
  import opened Ast
  import opened Parser
  import opened ParserSteps
  import opened ParserRoundTrip
  import opened Expansion

  const NoVariables: map<string, string> := map[]
  const NoOutput: Tree -> string := (p: Tree) => ""

  function S(s: string): Arg {
    StringArg(s)
  }

  /** A command of one rendered argument parses back to that argument. */
  lemma {:induction false} ParsesAsOneArgument(a: Arg, ts: seq<Token>)
    requires WellFormedArg(a) && RenderArg(a) == ts
    ensures Parse(ts) == Ok(LazyCommand([a]))
  {
    assert [a][1..] == [];
    assert RenderArguments([a]) == RenderArg(a) + SpacedArguments([]);
    assert RenderCommands(LazyCommand([a])) == ts;
    ParseRender(LazyCommand([a]));
  }

  /** A command whose tokens are one argument is a `LazyCommand` of that argument. */
  lemma {:induction false} OneArgumentCommand(a: Arg, ts: seq<Token>)
    requires StartsPart(ts) && ParseArgument(ts) == Some(Parsed(a, []))
    ensures Parse(ts) == Ok(LazyCommand([a]))
  {
    assert ParseArgumentList(ts) == Some(Parsed([a], []));
    assert ParsePrimary(ts) == Some(Parsed(LazyCommand([a]), []));
    assert ParseCommands(ts, 0) == Some(Parsed(LazyCommand([a]), []));
  }

  lemma CrossOne(x: string, ys: seq<string>)
    ensures Cross([x], ys) == Prefixed(x, ys)
  {
    assert [x][1..] == [];
  }

  /** Plain-word options. */
  function Plain(ws: seq<string>): (opts: seq<Arg>)
    ensures |opts| == |ws| && forall i :: 0 <= i < |ws| ==> opts[i] == StringArg(ws[i])
  {
    seq(|ws|, i requires 0 <= i < |ws| => StringArg(ws[i]))
  }

  /** Plain-word options stand for their words, in order. */
  lemma {:induction false} PlainOptions(ws: seq<string>)
    ensures ExpandOptions(Plain(ws), NoVariables, NoOutput) == Some(ws)
  {
    if ws != [] {
      assert Plain(ws)[1..] == Plain(ws[1..]);
      PlainOptions(ws[1..]);
      assert ws == [ws[0]] + ws[1..];
    }
  }

  /** A composite of two set parts stands for the product of their words. */
  lemma CompositeWords(h: Arg, t: Arg, xs: seq<string>, ys: seq<string>)
    requires Expand(h, NoVariables, NoOutput) == Some(xs) && Expand(t, NoVariables, NoOutput) == Some(ys)
    ensures Expand(Composite(h, t), NoVariables, NoOutput) == Some(Cross(xs, ys))
  {
  }

  /** A brace expansion of plain words stands for those words. */
  lemma PlainBrace(ws: seq<string>)
    ensures Expand(BraceExpansion(Plain(ws)), NoVariables, NoOutput) == Some(ws)
  {
    PlainOptions(ws);
  }

  /** The tokens of a non-empty brace expansion. */
  lemma BraceTokens(opts: seq<Arg>, r: seq<Token>)
    requires opts != [] && RenderOptions(opts) == r
    ensures RenderArg(BraceExpansion(opts)) == [LeftBrace] + r + [RightBrace]
  {
  }

  /** `h{i,o}p` is one composite argument ... */
  lemma BraceInsideWordParses()
    ensures Parse([Word("h"), LeftBrace, Word("i"), Comma, Word("o"), RightBrace, Word("p")])
         == Ok(LazyCommand([Composite(S("h"), Composite(BraceExpansion([S("i"), S("o")]), S("p")))]))
  {
    var a := Composite(S("h"), Composite(BraceExpansion([S("i"), S("o")]), S("p")));
    assert RenderOptions([S("o")]) == [Word("o")];
    assert RenderOptions([S("i"), S("o")]) == [Word("i"), Comma, Word("o")];
    assert RenderArg(a) == [Word("h"), LeftBrace, Word("i"), Comma, Word("o"), RightBrace, Word("p")];
    ParsesAsOneArgument(a, RenderArg(a));
  }

  /** ... which gives `hip hop`. */
  lemma BraceInsideWordExpands()
    ensures Expand(Composite(S("h"), Composite(BraceExpansion([S("i"), S("o")]), S("p"))), NoVariables, NoOutput)
         == Some(["hip", "hop"])
  {
    var brace := BraceExpansion([S("i"), S("o")]);
    assert Plain(["i", "o"]) == [S("i"), S("o")];
    PlainBrace(["i", "o"]);
    CompositeWords(brace, S("p"), ["i", "o"], ["p"]);
    assert Cross(["i", "o"], ["p"]) == ["ip", "op"] by {
      assert ["i", "o"][1..] == ["o"];
      assert "i" + "p" == "ip" && "o" + "p" == "op";
    }
    CompositeWords(S("h"), Composite(brace, S("p")), ["h"], ["ip", "op"]);
    CrossOne("h", ["ip", "op"]);
    assert Prefixed("h", ["ip", "op"]) == ["hip", "hop"] by {
      assert "h" + "ip" == "hip" && "h" + "op" == "hop";
    }
  }

  lemma CrossTwo(x1: string, x2: string, ys: seq<string>)
    ensures Cross([x1, x2], ys) == Prefixed(x1, ys) + Prefixed(x2, ys)
  {
    assert [x1, x2][1..] == [x2];
    CrossOne(x2, ys);
  }

  lemma ProductsOfTwoBraces(a: string, b: string, x: string, y: string, z: string)
    ensures Cross([a, b], [x, y, z]) == [a + x, a + y, a + z, b + x, b + y, b + z]
  {
    CrossTwo(a, b, [x, y, z]);
  }

  /** A brace of two plain words, as tokens. */
  lemma TwoWordBrace(a: string, b: string)
    ensures WellFormedArg(BraceExpansion(Plain([a, b])))
    ensures RenderArg(BraceExpansion(Plain([a, b]))) == [LeftBrace, Word(a), Comma, Word(b), RightBrace]
  {
    var ab := Plain([a, b]);
    assert ab == [S(a), S(b)] && ab[1..] == [S(b)];
    assert RenderOptions([S(b)]) == [Word(b)];
    BraceTokens(ab, [Word(a), Comma, Word(b)]);
  }

  /** A brace of three plain words, as tokens. */
  lemma ThreeWordBrace(x: string, y: string, z: string)
    ensures WellFormedArg(BraceExpansion(Plain([x, y, z])))
    ensures RenderArg(BraceExpansion(Plain([x, y, z]))) == [LeftBrace, Word(x), Comma, Word(y), Comma, Word(z), RightBrace]
  {
    var xyz := Plain([x, y, z]);
    assert xyz == [S(x), S(y), S(z)] && xyz[1..] == [S(y), S(z)];
    assert WellFormedArgs(xyz);
    assert RenderOptions([S(z)]) == [Word(z)];
    assert RenderOptions([S(y), S(z)]) == [Word(y), Comma, Word(z)];
    BraceTokens(xyz, [Word(x), Comma, Word(y), Comma, Word(z)]);
  }

  /** The tokens of `1{a,b}{x,y,z}`, one part after another. */
  lemma TwoBracesRender(p: string, a: string, b: string, x: string, y: string, z: string)
    ensures var arg := Composite(S(p), Composite(BraceExpansion(Plain([a, b])), BraceExpansion(Plain([x, y, z]))));
      && WellFormedArg(arg)
      && RenderArg(arg) == [Word(p)] + ([LeftBrace, Word(a), Comma, Word(b), RightBrace]
                                        + [LeftBrace, Word(x), Comma, Word(y), Comma, Word(z), RightBrace])
  {
    TwoWordBrace(a, b);
    ThreeWordBrace(x, y, z);
  }

  /** `1{a,b}{x,y,z}` is one composite argument ... */
  lemma TwoBracesParse(p: string, a: string, b: string, x: string, y: string, z: string)
    ensures Parse([Word(p), LeftBrace, Word(a), Comma, Word(b), RightBrace,
                   LeftBrace, Word(x), Comma, Word(y), Comma, Word(z), RightBrace])
         == Ok(LazyCommand([Composite(S(p), Composite(BraceExpansion(Plain([a, b])), BraceExpansion(Plain([x, y, z]))))]))
  {
    var arg := Composite(S(p), Composite(BraceExpansion(Plain([a, b])), BraceExpansion(Plain([x, y, z]))));
    var ts := [Word(p), LeftBrace, Word(a), Comma, Word(b), RightBrace,
               LeftBrace, Word(x), Comma, Word(y), Comma, Word(z), RightBrace];
    TwoBracesRender(p, a, b, x, y, z);
    assert [Word(p)] + ([LeftBrace, Word(a), Comma, Word(b), RightBrace]
                        + [LeftBrace, Word(x), Comma, Word(y), Comma, Word(z), RightBrace]) == ts;
    ParsesAsOneArgument(arg, ts);
  }

  lemma PrefixedProducts(p: string, a: string, b: string, x: string, y: string, z: string)
    ensures Prefixed(p, [a + x, a + y, a + z, b + x, b + y, b + z])
         == [p + a + x, p + a + y, p + a + z, p + b + x, p + b + y, p + b + z]
  {
    var r := Prefixed(p, [a + x, a + y, a + z, b + x, b + y, b + z]);
    assert r[0] == p + a + x && r[1] == p + a + y && r[2] == p + a + z;
    assert r[3] == p + b + x && r[4] == p + b + y && r[5] == p + b + z;
  }

  /** ... which gives `1ax 1ay 1az 1bx 1by 1bz`. */
  lemma TwoBracesExpand(p: string, a: string, b: string, x: string, y: string, z: string)
    ensures Expand(Composite(S(p), Composite(BraceExpansion(Plain([a, b])), BraceExpansion(Plain([x, y, z])))), NoVariables, NoOutput)
         == Some([p + a + x, p + a + y, p + a + z, p + b + x, p + b + y, p + b + z])
  {
    var ab, xyz := BraceExpansion(Plain([a, b])), BraceExpansion(Plain([x, y, z]));
    PlainBrace([a, b]);
    PlainBrace([x, y, z]);
    CompositeWords(ab, xyz, [a, b], [x, y, z]);
    var products := [a + x, a + y, a + z, b + x, b + y, b + z];
    ProductsOfTwoBraces(a, b, x, y, z);
    CompositeWords(S(p), Composite(ab, xyz), [p], products);
    CrossOne(p, products);
    PrefixedProducts(p, a, b, x, y, z);
  }

  /** The fields of `{,,x,,}`: empty fields are `None`. */
  lemma EmptyFields(x: string)
    ensures ParseFields([Comma, Comma, Word(x), Comma, Comma, RightBrace])
         == Some(Parsed([None, None, Some(S(x)), None, None], [RightBrace]))
  {
    var ts := [Comma, Comma, Word(x), Comma, Comma, RightBrace];
    assert ParseFields(ts[5..]) == Some(Parsed([None], [RightBrace]));
    assert ts[4..][1..] == ts[5..];
    EmptyFieldStep(ts[4..], [None], [RightBrace]);
    assert ParseArgument(ts[2..]) == Some(Parsed(S(x), ts[3..])) by {
      assert ParsePart(ts[2..]) == Some(Parsed(S(x), ts[3..]));
    }
    assert ts[3..] == [Comma] + ts[4..];
    ArgumentFieldStep(ts[2..], S(x), ts[4..], [None] + [None], [RightBrace]);
    assert ts[1..][1..] == ts[2..];
    EmptyFieldStep(ts[1..], [Some(S(x))] + ([None] + [None]), [RightBrace]);
    EmptyFieldStep(ts, [None] + ([Some(S(x))] + ([None] + [None])), [RightBrace]);
    assert [None] + ([None] + ([Some(S(x))] + ([None] + [None]))) == [None, None, Some(S(x)), None, None];
  }

  /** A part followed by a closing word. */
  lemma PartThenWord(ts: seq<Token>, p: Arg, w: string)
    requires StartsPart(ts) && ParsePart(ts) == Some(Parsed(p, [Word(w)]))
    ensures ParseArgument(ts) == Some(Parsed(Composite(p, StringArg(w)), []))
  {
    assert ParseWord([Word(w)]) == Parsed(w, []);
    assert ParsePart([Word(w)]) == Some(Parsed(StringArg(w), []));
  }

  /** A word directly followed by one more argument part makes a composite. */
  lemma WordPrefixStep(w: string, ts: seq<Token>, tail: Arg)
    requires StartsPart(ts) && !ts[0].Word? && ParseArgument(ts) == Some(Parsed(tail, []))
    ensures ParseArgument([Word(w)] + ts) == Some(Parsed(Composite(StringArg(w), tail), []))
  {
    var all := [Word(w)] + ts;
    assert all[1..] == ts;
    assert ParseWord(all) == Parsed(w, ts);
  }

  /**
   * `git{,,sh,,}`, and any other word followed by braces around one word and
   * four empty fields, is that word followed by a brace expansion with
   * empty-string options ...
   */
  lemma EmptyOptionsParse(w: string, x: string)
    ensures Parse([Word(w), LeftBrace, Comma, Comma, Word(x), Comma, Comma, RightBrace])
         == Ok(LazyCommand([Composite(S(w), BraceExpansion([EmptyOption, EmptyOption, S(x), EmptyOption, EmptyOption]))]))
  {
    var braceTokens := [LeftBrace, Comma, Comma, Word(x), Comma, Comma, RightBrace];
    var brace := BraceExpansion([EmptyOption, EmptyOption, S(x), EmptyOption, EmptyOption]);
    EmptyOptionsBrace(x);
    WordPrefixStep(w, braceTokens, brace);
    var ts := [Word(w)] + braceTokens;
    OneArgumentCommand(Composite(S(w), brace), ts);
    assert ts == [Word(w), LeftBrace, Comma, Comma, Word(x), Comma, Comma, RightBrace];
  }

  /** The brace part of `git{,,sh,,}` on its own. */
  lemma EmptyOptionsBrace(x: string)
    ensures ParseArgument([LeftBrace, Comma, Comma, Word(x), Comma, Comma, RightBrace])
         == Some(Parsed(BraceExpansion([EmptyOption, EmptyOption, S(x), EmptyOption, EmptyOption]), []))
  {
    var braceTokens := [LeftBrace, Comma, Comma, Word(x), Comma, Comma, RightBrace];
    var fields := [None, None, Some(S(x)), None, None];
    var brace := BraceExpansion([EmptyOption, EmptyOption, S(x), EmptyOption, EmptyOption]);
    EmptyFields(x);
    assert braceTokens[1..] == [Comma, Comma, Word(x), Comma, Comma, RightBrace];
    assert HasArgument(fields) by {
      assert fields[2].Some?;
    }
    assert Options(fields) == brace.options;
    assert [RightBrace] + [] == [RightBrace];
    BraceStep(braceTokens, fields, []);
    ArgumentEnd(braceTokens, brace, []);
  }

  /** ... which stand for the word once per option: `git git gitsh git git`. */
  lemma EmptyOptionsExpand(w: string, x: string)
    ensures Expand(Composite(S(w), BraceExpansion([EmptyOption, EmptyOption, S(x), EmptyOption, EmptyOption])), NoVariables, NoOutput)
         == Some([w, w, w + x, w, w])
  {
    var ws := ["", "", x, "", ""];
    assert Plain(ws) == [EmptyOption, EmptyOption, S(x), EmptyOption, EmptyOption];
    PlainBrace(ws);
    CompositeWords(S(w), BraceExpansion(Plain(ws)), [w], ws);
    CrossOne(w, ws);
    assert Prefixed(w, ws) == [w, w, w + x, w, w] by {
      assert w + "" == w;
    }
  }

  /** Options expand one after another. */
  lemma OptionsStep(a: Arg, more: seq<Arg>, xs: seq<string>, ys: seq<string>)
    requires Expand(a, NoVariables, NoOutput) == Some(xs) && ExpandOptions(more, NoVariables, NoOutput) == Some(ys)
    ensures ExpandOptions([a] + more, NoVariables, NoOutput) == Some(xs + ys)
  {
    assert ([a] + more)[0] == a && ([a] + more)[1..] == more;
  }

  /** `{e,i,o}e`, the first option of `f{{e,i,o}e,um}`. */
  lemma InnerOptionRenders(e: string, i: string, o: string, t: string)
    ensures var inner := Composite(BraceExpansion(Plain([e, i, o])), S(t));
      && WellFormedArg(inner)
      && RenderArg(inner) == [LeftBrace, Word(e), Comma, Word(i), Comma, Word(o), RightBrace, Word(t)]
  {
    ThreeWordBrace(e, i, o);
  }

  /** `f{{e,i,o}e,um}`: a brace expansion nested inside an option ... */
  lemma NestedBraceParses(f: string, e: string, i: string, o: string, t: string, u: string)
    ensures Parse([Word(f), LeftBrace, LeftBrace, Word(e), Comma, Word(i), Comma, Word(o), RightBrace,
                   Word(t), Comma, Word(u), RightBrace])
         == Ok(LazyCommand([Composite(S(f), BraceExpansion([Composite(BraceExpansion(Plain([e, i, o])), S(t)), S(u)]))]))
  {
    var inner := Composite(BraceExpansion(Plain([e, i, o])), S(t));
    var arg := Composite(S(f), BraceExpansion([inner, S(u)]));
    InnerOptionRenders(e, i, o, t);
    assert WellFormedArgs([inner, S(u)]) by {
      assert [inner, S(u)][1..] == [S(u)];
    }
    assert RenderOptions([S(u)]) == [Word(u)];
    assert RenderOptions([inner, S(u)]) == RenderArg(inner) + [Comma, Word(u)];
    assert RenderArg(arg) == [Word(f), LeftBrace, LeftBrace, Word(e), Comma, Word(i), Comma, Word(o), RightBrace,
                              Word(t), Comma, Word(u), RightBrace];
    ParsesAsOneArgument(arg, RenderArg(arg));
  }

  /** ... gives `fee fie foe fum`. */
  lemma NestedBraceExpands(f: string, e: string, i: string, o: string, t: string, u: string)
    ensures Expand(Composite(S(f), BraceExpansion([Composite(BraceExpansion(Plain([e, i, o])), S(t)), S(u)])), NoVariables, NoOutput)
         == Some([f + e + t, f + i + t, f + o + t, f + u])
  {
    var eio := BraceExpansion(Plain([e, i, o]));
    var inner := Composite(eio, S(t));
    PlainBrace([e, i, o]);
    CompositeWords(eio, S(t), [e, i, o], [t]);
    assert Cross([e, i, o], [t]) == [e + t, i + t, o + t] by {
      assert [e, i, o][1..] == [i, o];
      CrossTwo(i, o, [t]);
    }
    PlainOptions([u]);
    assert Plain([u]) == [S(u)];
    OptionsStep(inner, [S(u)], [e + t, i + t, o + t], [u]);
    assert [inner] + [S(u)] == [inner, S(u)];
    var words := [e + t, i + t, o + t, u];
    assert [e + t, i + t, o + t] + [u] == words;
    CompositeWords(S(f), BraceExpansion([inner, S(u)]), [f], words);
    CrossOne(f, words);
    var r := Prefixed(f, words);
    assert r[0] == f + e + t && r[1] == f + i + t && r[2] == f + o + t && r[3] == f + u;
    assert r == [f + e + t, f + i + t, f + o + t, f + u];
  }

  /**
   * The fields of `{x,y\,z}2`.  The escaped comma is read as part of a word,
   * so `y` and `,z` are two WORD tokens that `WORD+` joins into one word.
   */
  lemma EscapedCommaFields(b: string, c: string, d: string, e: string)
    ensures ParseFields([Word(b), Comma, Word(c), Word(d), RightBrace, Word(e)])
         == Some(Parsed([Some(S(b)), Some(S(c + d))], [RightBrace, Word(e)]))
  {
    var ts := [Word(b), Comma, Word(c), Word(d), RightBrace, Word(e)];
    assert ParseWord(ts[3..]) == Parsed(d, ts[4..]);
    assert ParseWord(ts[2..]) == Parsed(c + d, ts[4..]);
    assert ParseArgument(ts[2..]) == Some(Parsed(S(c + d), ts[4..])) by {
      assert ParsePart(ts[2..]) == Some(Parsed(S(c + d), ts[4..]));
    }
    assert ParseFields(ts[2..]) == Some(Parsed([Some(S(c + d))], ts[4..]));
    assert ParseArgument(ts) == Some(Parsed(S(b), ts[1..])) by {
      assert ParsePart(ts) == Some(Parsed(S(b), ts[1..]));
    }
    assert ts[1..] == [Comma] + ts[2..];
    ArgumentFieldStep(ts, S(b), ts[2..], [Some(S(c + d))], ts[4..]);
    assert ts[4..] == [RightBrace, Word(e)];
    assert [Some(S(b))] + [Some(S(c + d))] == [Some(S(b)), Some(S(c + d))];
  }

  /** `{x,y\,z}2`, everything after the leading word. */
  lemma EscapedCommaTail(b: string, c: string, d: string, e: string)
    ensures ParseArgument([LeftBrace, Word(b), Comma, Word(c), Word(d), RightBrace, Word(e)])
         == Some(Parsed(Composite(BraceExpansion([S(b), S(c + d)]), S(e)), []))
  {
    var braceTokens := [LeftBrace, Word(b), Comma, Word(c), Word(d), RightBrace, Word(e)];
    var fields := [Some(S(b)), Some(S(c + d))];
    var brace := BraceExpansion([S(b), S(c + d)]);
    EscapedCommaFields(b, c, d, e);
    assert braceTokens[1..] == [Word(b), Comma, Word(c), Word(d), RightBrace, Word(e)];
    assert [RightBrace] + [Word(e)] == [RightBrace, Word(e)];
    assert HasArgument(fields) by {
      assert fields[0].Some?;
    }
    assert Options(fields) == brace.options;
    BraceStep(braceTokens, fields, [Word(e)]);
    PartThenWord(braceTokens, brace, e);
  }

  /**
   * `1{x,y\,z}2`: an escaped comma does not separate options, for these and
   * any other words ...
   */
  lemma EscapedCommaParses(a: string, b: string, c: string, d: string, e: string)
    ensures Parse([Word(a), LeftBrace, Word(b), Comma, Word(c), Word(d), RightBrace, Word(e)])
         == Ok(LazyCommand([Composite(S(a), Composite(BraceExpansion([S(b), S(c + d)]), S(e)))]))
  {
    var braceTokens := [LeftBrace, Word(b), Comma, Word(c), Word(d), RightBrace, Word(e)];
    var tail := Composite(BraceExpansion([S(b), S(c + d)]), S(e));
    EscapedCommaTail(b, c, d, e);
    WordPrefixStep(a, braceTokens, tail);
    var ts := [Word(a)] + braceTokens;
    OneArgumentCommand(Composite(S(a), tail), ts);
    assert ts == [Word(a), LeftBrace, Word(b), Comma, Word(c), Word(d), RightBrace, Word(e)];
  }

  /** A word, a brace of plain words, and a word: the brace's words, each between the two. */
  lemma SurroundedBrace(before: string, ws: seq<string>, after: string)
    ensures Expand(Composite(S(before), Composite(BraceExpansion(Plain(ws)), S(after))), NoVariables, NoOutput)
         == Some(Prefixed(before, Cross(ws, [after])))
  {
    PlainBrace(ws);
    CompositeWords(BraceExpansion(Plain(ws)), S(after), ws, [after]);
    CompositeWords(S(before), Composite(BraceExpansion(Plain(ws)), S(after)), [before], Cross(ws, [after]));
    CrossOne(before, Cross(ws, [after]));
  }

  /** ... and two options between two words give two words: `1x2 1y,z2`. */
  lemma EscapedCommaExpands(a: string, x: string, y: string, e: string)
    ensures Expand(Composite(S(a), Composite(BraceExpansion([S(x), S(y)]), S(e))), NoVariables, NoOutput)
         == Some([a + x + e, a + y + e])
  {
    assert Plain([x, y]) == [S(x), S(y)];
    SurroundedBrace(a, [x, y], e);
    CrossTwo(x, y, [e]);
    assert Prefixed(x, [e]) + Prefixed(y, [e]) == [x + e, y + e];
    assert a + (x + e) == a + x + e && a + (y + e) == a + y + e;
    assert Prefixed(a, [x + e, y + e]) == [a + x + e, a + y + e];
  }

  /** `1{x,\{,\}}2`: escaped braces are words, not brace tokens ... */
  lemma EscapedBracesParse(a: string, x: string, y: string, z: string, e: string)
    ensures Parse([Word(a), LeftBrace, Word(x), Comma, Word(y), Comma, Word(z), RightBrace, Word(e)])
         == Ok(LazyCommand([Composite(S(a), Composite(BraceExpansion(Plain([x, y, z])), S(e)))]))
  {
    var arg := Composite(S(a), Composite(BraceExpansion(Plain([x, y, z])), S(e)));
    ThreeWordBrace(x, y, z);
    assert RenderArg(Composite(BraceExpansion(Plain([x, y, z])), S(e)))
        == [LeftBrace, Word(x), Comma, Word(y), Comma, Word(z), RightBrace] + [Word(e)];
    assert RenderArg(arg) == [Word(a), LeftBrace, Word(x), Comma, Word(y), Comma, Word(z), RightBrace, Word(e)];
    ParsesAsOneArgument(arg, RenderArg(arg));
  }

  /** ... and gives `1x2 1{2 1}2`. */
  lemma EscapedBracesExpand(a: string, x: string, y: string, z: string, e: string)
    ensures Expand(Composite(S(a), Composite(BraceExpansion(Plain([x, y, z])), S(e))), NoVariables, NoOutput)
         == Some([a + x + e, a + y + e, a + z + e])
  {
    SurroundedBrace(a, [x, y, z], e);
    assert [x, y, z][1..] == [y, z];
    CrossTwo(y, z, [e]);
    assert Cross([x, y, z], [e]) == [x + e, y + e, z + e];
    var r := Prefixed(a, [x + e, y + e, z + e]);
    assert r[0] == a + x + e && r[1] == a + y + e && r[2] == a + z + e;
    assert r == [a + x + e, a + y + e, a + z + e];
  }

  /** `{}` is one empty-string option. */
  lemma EmptyBraces()
    ensures Parse([LeftBrace, RightBrace]) == Ok(LazyCommand([BraceExpansion([EmptyOption])]))
    ensures Expand(BraceExpansion([EmptyOption]), NoVariables, NoOutput) == Some([""])
  {
    var ts := [LeftBrace, RightBrace];
    assert ParsePart(ts) == Some(Parsed(BraceExpansion([EmptyOption]), []));
    ArgumentEnd(ts, BraceExpansion([EmptyOption]), []);
    OneArgumentCommand(BraceExpansion([EmptyOption]), ts);
    PlainBrace([""]);
    assert Plain([""]) == [EmptyOption];
  }
}
