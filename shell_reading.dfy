/**
 * How `/bin/sh -c` reads the command line that ShellCommand builds, reduced
 * to what matters for the escaping: a backslash quotes the next character
 * (POSIX.1-2017, XCU section 2.2.1), unquoted spaces separate fields, and
 * whitelisted characters stand for themselves (glob characters are kept for
 * pathname expansion, which is not modelled).  Any other unquoted character
 * could be shell syntax (an operator, a quote, an expansion, a newline that
 * ends the command), so reading reports `None` for it.
 */
module ShellReading {
  import opened Wrappers
  import opened ShellCommand

  /** A character that stands for itself when it appears unquoted. */
  predicate IsLiteral(c: char) {
    IsSafe(c) && c != '\\' && c != '\n'
  }

  /**
   * Reads one field from the start of `s`, up to the first unquoted space;
   * returns the field and the unread rest.
   */
  function ReadField(s: string): (r: Option<(string, string)>)
    ensures r.Some? ==> |r.value.1| <= |s| && (r.value.1 == [] || r.value.1[0] == ' ')
    ensures r.Some? && s != [] && s[0] != ' ' ==> |r.value.1| < |s|
  {
    if s == [] || s[0] == ' ' then Some(([], s))
    else if s[0] == '\\' then
      if |s| == 1 || s[1] == '\n' then None
      else match ReadField(s[2..])
        case None => None
        case Some((w, rest)) => Some(([s[1]] + w, rest))
    else if IsLiteral(s[0]) then
      match ReadField(s[1..])
      case None => None
      case Some((w, rest)) => Some(([s[0]] + w, rest))
    else None
  }

  /** The fields of a whole line, or `None` if the shell could give some character a meaning. */
  function Fields(s: string): Option<seq<string>>
    decreases |s|
  {
    if s == [] then Some([])
    else if s[0] == ' ' then Fields(s[1..])
    else match ReadField(s)
      case None => None
      case Some((w, rest)) =>
        match Fields(rest)
        case None => None
        case Some(ws) => Some([w] + ws)
  }

  predicate PlainArgument(a: string) {
    a != [] && forall i :: 0 <= i < |a| ==> a[i] != '\\' && a[i] != '\n'
  }

  predicate PlainCommand(c: string) {
    c != [] && forall i :: 0 <= i < |c| ==> IsLiteral(c[i])
  }

  /** An unquoted literal character joins the field being read. */
  lemma ReadLiteralStep(c: char, tail: string, w: string, rest: string)
    requires IsLiteral(c) && ReadField(tail) == Some((w, rest))
    ensures ReadField([c] + tail) == Some(([c] + w, rest))
  {
    assert ([c] + tail)[1..] == tail;
  }

  /** A backslash quotes the character after it, unless that is a newline. */
  lemma ReadQuotedStep(c: char, tail: string, w: string, rest: string)
    requires c != '\n' && ReadField(tail) == Some((w, rest))
    ensures ReadField(['\\', c] + tail) == Some(([c] + w, rest))
  {
    assert (['\\', c] + tail)[2..] == tail;
  }

  /** An escaped argument is read back as exactly one field holding the argument. */
  lemma {:induction false} ReadEscaped(a: string, rest: string)
    requires forall i :: 0 <= i < |a| ==> a[i] != '\\' && a[i] != '\n'
    requires rest == [] || rest[0] == ' '
    ensures ReadField(Escape(a) + rest) == Some((a, rest))
  {
    if a == [] {
      assert Escape(a) + rest == rest;
    } else {
      var tail := Escape(a[1..]) + rest;
      assert Escape(a) + rest == EscapeChar(a[0]) + tail by {
        assert a == [a[0]] + a[1..];
        EscapeConcat([a[0]], a[1..]);
      }
      ReadEscaped(a[1..], rest);
      if IsSafe(a[0]) {
        ReadLiteralStep(a[0], tail, a[1..], rest);
      } else {
        ReadQuotedStep(a[0], tail, a[1..], rest);
      }
      assert [a[0]] + a[1..] == a;
    }
  }

  lemma {:induction false} FieldsOfJoined(words: seq<string>, escaped: seq<string>)
    requires words != [] && |words| == |escaped|
    requires forall i :: 0 <= i < |words| ==> PlainArgument(words[i]) && escaped[i] == Escape(words[i])
    ensures Fields(JoinSpaced(escaped)) == Some(words)
  {
    var w := words[0];
    var line := JoinSpaced(escaped);
    EscapeStartsSafe(w);
    if |words| == 1 {
      assert words == [w] + [];
      assert line == escaped[0] == Escape(w);
      ReadEscaped(w, []);
      assert Escape(w) + [] == line;
      assert ReadField(line) == Some((w, []));
      assert Fields([]) == Some([]);
    } else {
      var more := JoinSpaced(escaped[1..]);
      assert line == Escape(w) + (" " + more);
      ReadEscaped(w, " " + more);
      FieldsOfJoined(words[1..], escaped[1..]);
      assert (" " + more)[1..] == more;
      assert [w] + words[1..] == words;
    }
  }

  /**
   * With a plain command name and non-empty arguments free of backslashes and
   * newlines, the shell reads back exactly the command followed by each
   * argument, in order: every other character has been made inert.
   */
  lemma ShellReadsArguments(command: string, args: seq<string>)
    requires PlainCommand(command)
    requires forall i :: 0 <= i < |args| ==> PlainArgument(args[i])
    ensures Fields(CommandLine(command, args)) == Some([command] + args)
  {
    var words := [command] + args;
    var escaped := [command] + EscapeAll(args);
    EscapeSafeIsIdentity(command);
    forall i | 0 <= i < |words|
      ensures PlainArgument(words[i]) && escaped[i] == Escape(words[i])
    {
      if i > 0 {
        assert words[i] == args[i - 1];
      }
    }
    FieldsOfJoined(words, escaped);
  }

  /** The line for one argument. */
  lemma CommandLineOfOne(command: string, a: string)
    ensures CommandLine(command, [a]) == command + " " + Escape(a)
  {
    var e := EscapeAll([a]);
    assert e == [Escape(a)];
    var ws := [command] + e;
    assert ws[1..] == e;
    assert JoinSpaced(e) == Escape(a);
  }

  /** The line for two arguments. */
  lemma CommandLineOfTwo(command: string, a: string, b: string)
    ensures CommandLine(command, [a, b]) == command + " " + Escape(a) + " " + Escape(b)
  {
    var e := EscapeAll([a, b]);
    assert e == [Escape(a), Escape(b)];
    var ws := [command] + e;
    assert ws[1..] == e;
    assert e[1..] == [Escape(b)];
    assert JoinSpaced(e[1..]) == Escape(b);
    assert JoinSpaced(e) == Escape(a) + " " + Escape(b);
  }

  /** A plain leading word is read as one field, and reading goes on after the space. */
  lemma FieldsAfterWord(w: string, rest: string)
    requires PlainCommand(w)
    ensures Fields(w + " " + rest) == match Fields(rest)
                                       case None => None
                                       case Some(ws) => Some([w] + ws)
  {
    EscapeSafeIsIdentity(w);
    ReadEscaped(w, " " + rest);
    assert w + " " + rest == w + (" " + rest);
    assert (" " + rest)[1..] == rest;
  }

  /**
   * The backslash is whitelisted: an argument's own backslash is kept, and the
   * `$` after it gets a second one.
   */
  lemma BackslashBeforeDollarIsDoubled(w: string)
    requires forall i :: 0 <= i < |w| ==> IsSafe(w[i])
    ensures Escape(['\\', '$'] + w) == ['\\', '\\', '$'] + w
  {
    EscapedDollar(w);
    LeadingBackslashKept(w);
  }

  /** A whitelisted backslash in front is copied as it is. */
  lemma LeadingBackslashKept(w: string)
    requires Escape(['$'] + w) == ['\\', '$'] + w
    ensures Escape(['\\', '$'] + w) == ['\\', '\\', '$'] + w
  {
    var dollar := ['$'] + w;
    EscapeCons('\\', dollar);
    assert ['\\'] + dollar == ['\\', '$'] + w;
  }

  lemma EscapedDollar(w: string)
    requires forall i :: 0 <= i < |w| ==> IsSafe(w[i])
    ensures Escape(['$'] + w) == ['\\', '$'] + w
  {
    EscapeSafeIsIdentity(w);
    EscapeCons('$', w);
  }

  lemma EscapeCons(c: char, t: string)
    ensures Escape([c] + t) == EscapeChar(c) + Escape(t)
  {
    assert ([c] + t)[0] == c && ([c] + t)[1..] == t;
  }

  /** ... so the shell reads a quoted backslash followed by an active `$` (as in `!echo \$HOME`). */
  lemma BackslashLeavesDollarActive(command: string, w: string)
    requires PlainCommand(command)
    requires forall i :: 0 <= i < |w| ==> IsSafe(w[i])
    ensures Fields(CommandLine(command, [['\\', '$'] + w])) == None
  {
    var tail := ['\\', '\\', '$'] + w;
    BackslashBeforeDollarIsDoubled(w);
    CommandLineOfOne(command, ['\\', '$'] + w);
    assert tail[2..] == ['$'] + w;
    assert ReadField(tail[2..]) == None;
    assert ReadField(tail) == None;
    FieldsAfterWord(command, tail);
  }

  /** A newline in an argument without backslashes is left unquoted, and reading stops there. */
  lemma {:induction false} NewlineStopsReading(a: string, rest: string)
    requires forall i :: 0 <= i < |a| ==> a[i] != '\\'
    requires exists i :: 0 <= i < |a| && a[i] == '\n'
    ensures ReadField(Escape(a) + rest) == None
  {
    var tail := Escape(a[1..]) + rest;
    assert Escape(a) + rest == EscapeChar(a[0]) + tail;
    if a[0] == '\n' {
      assert (EscapeChar(a[0]) + tail)[0] == '\n';
    } else {
      var i :| 0 <= i < |a| && a[i] == '\n';
      assert a[1..][i - 1] == '\n';
      NewlineStopsReading(a[1..], rest);
      if IsSafe(a[0]) {
        assert ([a[0]] + tail)[1..] == tail;
      } else {
        assert (['\\', a[0]] + tail)[2..] == tail;
      }
    }
  }

  /**
   * The newline is whitelisted, so in an argument it reaches the shell
   * unquoted and ends the command there (as in `!echo x<newline>reboot`).
   */
  lemma NewlineEndsCommand(command: string, a: string)
    requires PlainCommand(command)
    requires forall i :: 0 <= i < |a| ==> a[i] != '\\'
    requires exists i :: 0 <= i < |a| && a[i] == '\n'
    ensures Fields(CommandLine(command, [a])) == None
  {
    var e := Escape(a);
    CommandLineOfOne(command, a);
    NewlineStopsReading(a, []);
    assert e + [] == e;
    EscapeStartsSafe(a);
    assert Fields(e) == None;
    FieldsAfterWord(command, e);
  }

  /** An empty argument leaves two adjacent spaces, and the shell reads no field for it. */
  lemma EmptyArgumentIsLost(command: string, a: string)
    requires PlainCommand(command) && PlainCommand(a)
    ensures Fields(CommandLine(command, ["", a])) == Some([command, a])
  {
    assert CommandLine(command, ["", a]) == command + " " + (" " + a) by {
      EscapeSafeIsIdentity(a);
      CommandLineOfTwo(command, "", a);
      assert Escape("") == "";
    }
    assert Fields(" " + a) == Some([a]) by {
      var noArgs: seq<string> := [];
      ShellReadsArguments(a, noArgs);
      assert [a] + noArgs == [a];
      assert CommandLine(a, noArgs) == a;
      assert (" " + a)[1..] == a;
    }
    FieldsAfterWord(command, " " + a);
    assert [command] + [a] == [command, a];
  }

  /**
   * `!cat foo?.txt`: an argument of whitelisted characters, the glob
   * characters `*`, `?`, `[` and `]` among them, reaches the process runner's
   * argv unescaped ...
   */
  lemma GlobArgv(command: string, a: string)
    requires forall i :: 0 <= i < |a| ==> IsSafe(a[i])
    ensures ShellArgv(command, [a]) == ["/bin/sh", "-c", command + " " + a]
  {
    EscapeSafeIsIdentity(a);
    CommandLineOfOne(command, a);
  }

  /** ... and the shell sees it unquoted, so it can glob it. */
  lemma GlobReachesShell(command: string, a: string)
    requires PlainCommand(command) && PlainCommand(a)
    ensures Fields(CommandLine(command, [a])) == Some([command, a])
  {
    ShellReadsArguments(command, [a]);
    assert [command] + [a] == [command, a];
  }
}
