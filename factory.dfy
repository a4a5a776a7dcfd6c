/**
 * The command factory (lib/gitsh/commands/factory.rb): splits the command word
 * with `/^([:!])?(.+)$/`, picks the command variant by the prefix, drops nil
 * arguments and wraps the command in an ErrorHandler.
 *
 * In Ruby `^` and `$` are line anchors and `.` does not match a newline, so the
 * regex matches the first non-empty line of the word; `Match` models exactly
 * that.  The command variants and the ErrorHandler are opaque here: they are
 * constructors holding what the factory passes them.
 */
module Factory {
  import opened Wrappers

  datatype Command =
    | GitCommand(name: string, args: seq<string>)
    | InternalCommand(name: string, args: seq<string>)
    | ShellCommand(name: string, args: seq<string>)

  /** `build` returns every command wrapped in this decorator. */
  datatype Handled = ErrorHandler(command: Command)

  /** Ruby's `args.compact`: the non-nil arguments, in their order. */
  function Compact(xs: seq<Option<string>>): (r: seq<string>)
    ensures |r| <= |xs|
    ensures forall y :: y in r <==> Some(y) in xs
  {
    if xs == [] then []
    else
      assert xs == [xs[0]] + xs[1..];
      match xs[0]
      case None => Compact(xs[1..])
      case Some(y) => [y] + Compact(xs[1..])
  }

  /** Compacting distributes over concatenation, so the kept arguments keep their order. */
  lemma {:induction false} CompactConcat(a: seq<Option<string>>, b: seq<Option<string>>)
    ensures Compact(a + b) == Compact(a) + Compact(b)
  {
    if a == [] {
      assert a + b == b;
    } else {
      assert (a + b)[0] == a[0];
      assert (a + b)[1..] == a[1..] + b;
      CompactConcat(a[1..], b);
    }
  }

  /** Without nils, compacting changes nothing. */
  lemma {:induction false} CompactAllPresent(ys: seq<string>)
    ensures Compact(seq(|ys|, i requires 0 <= i < |ys| => Some(ys[i]))) == ys
  {
    var xs := seq(|ys|, i requires 0 <= i < |ys| => Some(ys[i]));
    if ys != [] {
      CompactAllPresent(ys[1..]);
      assert xs[1..] == seq(|ys[1..]|, i requires 0 <= i < |ys[1..]| => Some(ys[1..][i]));
      assert ys == [ys[0]] + ys[1..];
    }
  }

  /** The text up to (not including) the first newline. */
  function FirstLine(w: string): (line: string)
    ensures |line| <= |w| && line == w[..|line|]
    ensures forall i :: 0 <= i < |line| ==> line[i] != '\n'
    ensures |line| < |w| ==> w[|line|] == '\n'
  {
    if w == [] || w[0] == '\n' then [] else [w[0]] + FirstLine(w[1..])
  }

  /** The two groups of the regex on one non-empty line: the optional prefix and the rest. */
  function SplitLine(line: string): (r: (Option<char>, string))
    requires line != []
    ensures r.1 != []
    ensures r.0.None? ==> r.1 == line
    ensures r.0.Some? ==> (r.0.value == ':' || r.0.value == '!') && r.0.value == line[0] && r.1 == line[1..]
  {
    if |line| >= 2 && (line[0] == ':' || line[0] == '!') then (Some(line[0]), line[1..])
    else (None, line)
  }

  /**
   * `COMMAND_PREFIX_MATCHER.match(command).values_at(1, 2)`: tried at the start
   * of each line in turn; an empty line cannot match `(.+)`.
   */
  function Match(w: string): (r: Option<(Option<char>, string)>)
    ensures r.Some? ==> r.value.1 != [] && forall i :: 0 <= i < |r.value.1| ==> r.value.1[i] != '\n'
    ensures r.Some? ==> r.value.0 == None || r.value.0 == Some(':') || r.value.0 == Some('!')
  {
    if w == [] then None
    else if w[0] == '\n' then Match(w[1..])
    else Some(SplitLine(FirstLine(w)))
  }

  /** The regex matches exactly when the word has a character other than a newline. */
  lemma {:induction false} MatchIffNonNewline(w: string)
    ensures Match(w).Some? <==> exists i :: 0 <= i < |w| && w[i] != '\n'
  {
    if w != [] && w[0] == '\n' {
      MatchIffNonNewline(w[1..]);
      if exists i :: 0 <= i < |w| && w[i] != '\n' {
        var i :| 0 <= i < |w| && w[i] != '\n';
        assert w[1..][i - 1] == w[i];
      }
      if exists i :: 0 <= i < |w[1..]| && w[1..][i] != '\n' {
        var i :| 0 <= i < |w[1..]| && w[1..][i] != '\n';
        assert w[i + 1] == w[1..][i];
      }
    } else if w != [] {
      assert w[0] != '\n';
    }
  }

  /**
   * `COMMAND_CLASS_BY_PREFIX.fetch(prefix)` followed by
   * `command_class.new(command, argument_list)`.  The table has keys nil, `:`
   * and `!` only (`fetch` raises for any other), and those are the only
   * prefixes the regex can capture.
   */
  function Instantiate(prefix: Option<char>, name: string, args: seq<string>): (r: Command)
    requires prefix == None || prefix == Some(':') || prefix == Some('!')
    ensures r.name == name && r.args == args
    ensures r.GitCommand? <==> prefix == None
    ensures r.InternalCommand? <==> prefix == Some(':')
    ensures r.ShellCommand? <==> prefix == Some('!')
  {
    match prefix
    case None => GitCommand(name, args)
    case Some(c) => if c == ':' then InternalCommand(name, args) else ShellCommand(name, args)
  }

  /**
   * `Factory.build(command:, args:)`.  A word with no non-newline character does
   * not match, and the source then fails calling `values_at` on nil.  For a
   * one-line word the variant is chosen by its first character, which is
   * removed; a lone `:` or `!` has nothing left for `(.+)` and is a git
   * command named by itself.
   */
  function Build(command: string, args: seq<Option<string>>): (r: Handled)
    requires Match(command).Some?
    ensures r.command.args == Compact(args)
    ensures (forall i :: 0 <= i < |command| ==> command[i] != '\n') ==>
      r.command == (
        if |command| >= 2 && command[0] == ':' then InternalCommand(command[1..], Compact(args))
        else if |command| >= 2 && command[0] == '!' then ShellCommand(command[1..], Compact(args))
        else GitCommand(command, Compact(args)))
  {
    var (prefix, name) := Match(command).value;
    ErrorHandler(Instantiate(prefix, name, Compact(args)))
  }

  /** `::x` keeps its second colon: an internal command named `:x`. */
  lemma DoubleColon()
    ensures Build("::x", []).command == InternalCommand(":x", [])
  {
    assert "::x"[1..] == ":x";
  }

  /** A lone `!` is the git command `!`. */
  lemma BareBang()
    ensures Build("!", []).command == GitCommand("!", [])
  {
  }

  /** Nil arguments are dropped and the others keep their order. */
  lemma NilArgumentsDropped()
    ensures Build("!ls", [Some("-l"), None, Some("a b")]).command == ShellCommand("ls", ["-l", "a b"])
  {
    CompactExample();
    assert FirstLine("!ls") == "!ls" by {
      assert FirstLine("s") == "s";
      assert "!ls"[1..] == "ls" && "ls"[1..] == "s";
    }
    assert "!ls"[1..] == "ls";
  }

  lemma CompactExample()
    ensures Compact([Some("-l"), None, Some("a b")]) == ["-l", "a b"]
  {
    var args := [Some("-l"), None, Some("a b")];
    assert args == [Some("-l")] + ([None] + [Some("a b")]);
    CompactConcat([Some("-l")], [None] + [Some("a b")]);
    CompactConcat([None], [Some("a b")]);
  }

  /** `k` newlines. */
  function Newlines(k: nat): (r: string)
    ensures |r| == k && forall i :: 0 <= i < k ==> r[i] == '\n'
  {
    if k == 0 then "" else "\n" + Newlines(k - 1)
  }

  /**
   * `^` is tried after each newline in turn: any number of leading newlines is
   * skipped, and the match is taken from the first line of what follows.
   */
  lemma {:induction false} MatchSkipsNewlines(k: nat, v: string)
    requires v != [] && v[0] != '\n'
    ensures Match(Newlines(k) + v) == Some(SplitLine(FirstLine(v)))
  {
    var w := Newlines(k) + v;
    if k == 0 {
      assert w == v;
    } else {
      assert w[0] == '\n';
      assert w[1..] == Newlines(k - 1) + v;
      MatchSkipsNewlines(k - 1, v);
    }
  }

  /**
   * So a word of several lines builds the same command as its first non-empty
   * line alone, which is newline-free and so falls under `Build`'s contract.
   */
  lemma BuildUsesFirstLine(k: nat, v: string, args: seq<Option<string>>)
    requires v != [] && v[0] != '\n'
    ensures Match(Newlines(k) + v).Some? && Match(FirstLine(v)).Some?
    ensures forall i :: 0 <= i < |FirstLine(v)| ==> FirstLine(v)[i] != '\n'
    ensures Build(Newlines(k) + v, args) == Build(FirstLine(v), args)
  {
    MatchSkipsNewlines(k, v);
    var line := FirstLine(v);
    assert line != [] && line[0] == v[0];
    assert '\n' !in line;
    WholeWordIsFirstLine(line);
    MatchSkipsNewlines(0, line);
    assert Newlines(0) + line == line;
  }

  /** A word with no newline is its own first line. */
  lemma {:induction false} WholeWordIsFirstLine(w: string)
    requires '\n' !in w
    ensures FirstLine(w) == w
  {
    if w != [] {
      assert '\n' !in w[1..] by {
        assert forall k :: 0 <= k < |w[1..]| ==> w[1..][k] == w[k + 1];
      }
      WholeWordIsFirstLine(w[1..]);
      assert w == [w[0]] + w[1..];
    }
  }

  /**
   * Only the first non-empty line takes part: a word that starts with a
   * newline followed by `!reboot` builds the shell command `reboot` ...
   */
  lemma LeadingNewlineSkipped()
    ensures Build("\n!reboot", []).command == ShellCommand("reboot", [])
  {
    assert "\n!reboot"[1..] == "!reboot";
    WholeWordIsFirstLine("!reboot");
    assert Match("\n!reboot") == Some((Some('!'), "reboot"));
    assert "!reboot"[1..] == "reboot";
  }

  /** ... and the text after the first line is dropped. */
  lemma LaterLinesDropped()
    ensures Build(":set\nx", []).command == InternalCommand("set", [])
  {
    assert FirstLine(":set\nx") == ":set" by {
      assert ":set\nx"[1..] == "set\nx" && "set\nx"[1..] == "et\nx" && "et\nx"[1..] == "t\nx" && "t\nx"[1..] == "\nx";
    }
    assert ":set"[1..] == "set";
  }
}
