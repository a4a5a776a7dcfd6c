/**
 * The two rules of lib/gitsh/parser.rb that build values out of runs of
 * tokens: `word: WORD+` joins consecutive WORD tokens into one string, and
 * `brace_expansion_list` reads comma-separated fields, where an empty field
 * (before, between or after commas) is an empty-string option and at least one
 * field must hold an argument.
 */
module ParserFields {
  import opened Wrappers
  import opened Ast
  import opened Parser
  import opened ParserSteps
  import opened ParserRoundTrip

  /** One WORD token per string. */
  function Words(ws: seq<string>): (r: seq<Token>)
    ensures |r| == |ws|
    ensures forall i :: 0 <= i < |ws| ==> r[i] == Word(ws[i])
  {
    if ws == [] then [] else [Word(ws[0])] + Words(ws[1..])
  }

  /** `words.inject(:+)`: the strings joined end to end. */
  function Concat(ws: seq<string>): string {
    if ws == [] then "" else ws[0] + Concat(ws[1..])
  }

  /** A run of WORD tokens is read whole, as the concatenation of their texts. */
  lemma {:induction false} ParseWordRun(ws: seq<string>, ts: seq<Token>)
    requires ws != [] && (ts == [] || !ts[0].Word?)
    ensures ParseWord(Words(ws) + ts) == Parsed(Concat(ws), ts)
  {
    var all := Words(ws) + ts;
    assert all[0] == Word(ws[0]);
    assert all[1..] == Words(ws[1..]) + ts;
    if |ws| == 1 {
      assert all[1..] == ts && ws[1..] == [];
      assert Concat(ws) == ws[0] + Concat([]) == ws[0];
    } else {
      ParseWordRun(ws[1..], ts);
      assert all[1..][0] == Word(ws[1]);
    }
  }

  /** So a run of WORD tokens is one string part, never a composite of several. */
  lemma WordRunIsOneString(ws: seq<string>, ts: seq<Token>)
    requires ws != [] && (ts == [] || !ts[0].Word?)
    ensures ParsePart(Words(ws) + ts) == Some(Parsed(StringArg(Concat(ws)), ts))
  {
    ParseWordRun(ws, ts);
    assert (Words(ws) + ts)[0] == Word(ws[0]);
  }

  /** The fields of a brace list: `None` for an empty field. */
  predicate WellFormedFields(fs: seq<Option<Arg>>) {
    forall i :: 0 <= i < |fs| && fs[i].Some? ==> WellFormedArg(fs[i].value)
  }

  function RenderField(f: Option<Arg>): (r: seq<Token>)
    ensures f.Some? ==> StartsPart(r)
  {
    if f.Some? then RenderArg(f.value) else []
  }

  /** Fields separated by commas; an empty field contributes no tokens. */
  function RenderFields(fs: seq<Option<Arg>>): (r: seq<Token>)
    requires fs != []
    ensures fs != [None] ==> r != [] && (r[0] == Comma || StartsPart(r))
  {
    var head := RenderField(fs[0]);
    var r := head + if |fs| == 1 then [] else [Comma] + RenderFields(fs[1..]);
    assert fs[0].Some? ==> r[0] == head[0];
    assert |fs| == 1 && fs[0] == None ==> fs == [None];
    r
  }

  lemma WellFormedFieldsTail(fs: seq<Option<Arg>>)
    requires fs != [] && WellFormedFields(fs)
    ensures WellFormedFields(fs[1..])
    ensures fs[0].Some? ==> WellFormedArg(fs[0].value)
  {
    forall i | 0 <= i < |fs| - 1 && fs[1..][i].Some? ensures WellFormedArg(fs[1..][i].value) {
      assert fs[1..][i] == fs[i + 1];
    }
  }

  lemma FieldsTokens(fs: seq<Option<Arg>>, ts: seq<Token>)
    requires |fs| > 1
    ensures RenderFields(fs) + ts == RenderField(fs[0]) + ([Comma] + (RenderFields(fs[1..]) + ts))
  {
    var first, others := RenderField(fs[0]), RenderFields(fs[1..]);
    assert RenderFields(fs) == first + ([Comma] + others);
    SeqAssociative(first, [Comma] + others, ts);
    SeqAssociative([Comma], others, ts);
  }

  /** The last field, before a token that neither starts a part nor is a comma. */
  lemma LastField(f: Option<Arg>, ts: seq<Token>)
    requires f.Some? ==> WellFormedArg(f.value)
    requires !StartsPart(ts) && (ts == [] || ts[0] != Comma)
    ensures ParseFields(RenderFields([f]) + ts) == Some(Parsed([f], ts))
  {
    var all := RenderFields([f]) + ts;
    assert all == RenderField(f) + ts;
    match f
    case Some(a) =>
      ArgRoundTrip(a, ts);
      Leading(RenderArg(a), ts);
      ArgumentFieldEnd(all, a, ts);
    case None =>
      assert all == ts;
  }

  /**
   * Every list of fields, empty ones included, is read back from its
   * rendering: an empty field at the start, between two commas or at the end
   * is a `None`.
   */
  lemma {:induction false} FieldsWithEmptiesRoundTrip(fs: seq<Option<Arg>>, ts: seq<Token>)
    requires fs != [] && WellFormedFields(fs)
    requires !StartsPart(ts) && (ts == [] || ts[0] != Comma)
    ensures ParseFields(RenderFields(fs) + ts) == Some(Parsed(fs, ts))
  {
    var all := RenderFields(fs) + ts;
    WellFormedFieldsTail(fs);
    if |fs| == 1 {
      LastField(fs[0], ts);
      assert fs == [fs[0]];
    } else {
      var rest := RenderFields(fs[1..]) + ts;
      FieldsTokens(fs, ts);
      FieldsWithEmptiesRoundTrip(fs[1..], ts);
      assert fs == [fs[0]] + fs[1..];
      if fs[0].Some? {
        AfterFirst(Comma, rest);
        ArgRoundTrip(fs[0].value, [Comma] + rest);
        Leading(RenderArg(fs[0].value), [Comma] + rest);
        ArgumentFieldStep(all, fs[0].value, rest, fs[1..], ts);
      } else {
        assert all == [Comma] + rest;
        AfterFirst(Comma, rest);
        EmptyFieldStep(all, fs[1..], ts);
      }
    }
  }

  /**
   * Braces around fields: accepted exactly when some field holds an argument
   * (then each empty field is an empty-string option) or when there is nothing
   * between the braces (`{}`, one empty-string option).  Fields that are all
   * empty, as in `{,}`, are rejected.
   */
  lemma BraceFields(fs: seq<Option<Arg>>, ts: seq<Token>)
    requires fs != [] && WellFormedFields(fs)
    ensures ParseBrace([LeftBrace] + RenderFields(fs) + [RightBrace] + ts) ==
      if HasArgument(fs) || fs == [None] then Some(Parsed(BraceExpansion(Options(fs)), ts)) else None
  {
    var all := [LeftBrace] + RenderFields(fs) + [RightBrace] + ts;
    Enclosed(LeftBrace, RenderFields(fs), RightBrace, ts);
    if fs == [None] {
      assert RenderFields(fs) == [];
      assert all == [LeftBrace, RightBrace] + ts;
      assert all[2..] == ts;
      assert Options(fs) == [EmptyOption];
    } else {
      FieldsWithEmptiesRoundTrip(fs, [RightBrace] + ts);
      assert all[1] == RenderFields(fs)[0];
      AfterFirst(RightBrace, ts);
    }
  }
}
