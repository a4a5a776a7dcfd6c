/**
 * Escaping of the arguments of a `!` (shell) command and assembly of the
 * argv handed to the process runner (lib/gitsh/commands/shell_command.rb).
 *
 * Every character outside a fixed whitelist is preceded by one backslash,
 * the escape character of the POSIX Shell Command Language (POSIX.1-2017,
 * XCU section 2.2.1).  The whitelist is Ruby's Shellwords whitelist plus the
 * glob characters and the backslash, so that globs reach the shell intact.
 */
module ShellCommand {

  /** SHELLWORDS_WHITELIST and GLOB_WHITELIST: the characters that are never escaped. */
  predicate IsSafe(c: char) {
    || ('A' <= c <= 'Z')
    || ('a' <= c <= 'z')
    || ('0' <= c <= '9')
    || c == '_' || c == '-' || c == '.' || c == ',' || c == ':' || c == '/' || c == '@' || c == '\n'
    || c == '*' || c == '[' || c == ']' || c == '!' || c == '?' || c == '\\'
  }

  /** Number of characters of `s` that the filter matches. */
  function CountUnsafe(s: string): nat {
    if s == [] then 0 else (if IsSafe(s[0]) then 0 else 1) + CountUnsafe(s[1..])
  }

  /** The replacement made for one character by `gsub(SHELL_CHARACTER_FILTER, '\\\1')`. */
  function EscapeChar(c: char): string {
    if IsSafe(c) then [c] else ['\\', c]
  }

  /** One argument after escaping: the output grows by one backslash per unsafe character. */
  function Escape(s: string): (r: string)
    ensures |r| == |s| + CountUnsafe(s)
    ensures r == [] <==> s == []
  {
    if s == [] then [] else EscapeChar(s[0]) + Escape(s[1..])
  }

  /** `arg_values`: every resolved argument escaped, in order. */
  function EscapeAll(args: seq<string>): (r: seq<string>)
    ensures |r| == |args|
    ensures forall i :: 0 <= i < |args| ==> r[i] == Escape(args[i])
  {
    if args == [] then [] else [Escape(args[0])] + EscapeAll(args[1..])
  }

  /** Ruby's `Array#join(' ')` on a non-empty list of words. */
  function JoinSpaced(words: seq<string>): string
    requires words != []
  {
    if |words| == 1 then words[0] else words[0] + " " + JoinSpaced(words[1..])
  }

  /** `[command, arg_values].flatten.join(' ')`: the command name is not escaped. */
  function CommandLine(command: string, args: seq<string>): string {
    JoinSpaced([command] + EscapeAll(args))
  }

  /** `command_with_arguments`: the argv given to the process runner. */
  function ShellArgv(command: string, args: seq<string>): (argv: seq<string>)
    ensures |argv| == 3
    ensures argv[0] == "/bin/sh" && argv[1] == "-c"
    ensures argv[2] == CommandLine(command, args)
  {
    ["/bin/sh", "-c", CommandLine(command, args)]
  }

  /**
   * Inverse of Escape: a backslash is dropped when the character after it is
   * one that Escape would have escaped.
   */
  function Unescape(t: string): string {
    if t == [] then []
    else if |t| >= 2 && t[0] == '\\' && !IsSafe(t[1]) then [t[1]] + Unescape(t[2..])
    else [t[0]] + Unescape(t[1..])
  }

  lemma {:induction false} EscapeConcat(a: string, b: string)
    ensures Escape(a + b) == Escape(a) + Escape(b)
  {
    if a == [] {
      assert a + b == b;
    } else {
      assert (a + b)[0] == a[0];
      assert (a + b)[1..] == a[1..] + b;
      EscapeConcat(a[1..], b);
    }
  }

  lemma {:induction false} CountUnsafeConcat(a: string, b: string)
    ensures CountUnsafe(a + b) == CountUnsafe(a) + CountUnsafe(b)
  {
    if a == [] {
      assert a + b == b;
    } else {
      assert (a + b)[0] == a[0];
      assert (a + b)[1..] == a[1..] + b;
      CountUnsafeConcat(a[1..], b);
    }
  }

  /** Whitelisted characters pass through unchanged. */
  lemma {:induction false} EscapeSafeIsIdentity(s: string)
    requires forall i :: 0 <= i < |s| ==> IsSafe(s[i])
    ensures Escape(s) == s
  {
    if s != [] {
      EscapeSafeIsIdentity(s[1..]);
    }
  }

  /** Where the image of `s[i]` starts in `Escape(s)`. */
  function Offset(s: string, i: nat): nat
    requires i <= |s|
  {
    i + CountUnsafe(s[..i])
  }

  /**
   * Escaping is per character: the i-th character of the argument becomes
   * exactly `EscapeChar(s[i])` (itself if whitelisted, otherwise a single
   * backslash followed by it) at its own offset in the output.
   */
  lemma EscapeAt(s: string, i: nat)
    requires i < |s|
    ensures Offset(s, i) <= Offset(s, i + 1) <= |Escape(s)|
    ensures Escape(s)[Offset(s, i)..Offset(s, i + 1)] == EscapeChar(s[i])
  {
    var pre, c, post := s[..i], [s[i]], s[i + 1..];
    assert s == pre + c + post;
    assert s[..i + 1] == pre + c;
    EscapeConcat(pre + c, post);
    EscapeConcat(pre, c);
    CountUnsafeConcat(pre, c);
    CountUnsafeConcat(pre + c, post);
    assert Escape(c) == EscapeChar(s[i]);
  }

  /** An escaped argument never starts with a character that Unescape would drop before. */
  lemma EscapeStartsSafe(s: string)
    requires s != []
    ensures IsSafe(Escape(s)[0])
  {
  }

  /** Round trip: deleting each backslash that precedes an unsafe character recovers the argument. */
  lemma {:induction false} UnescapeEscape(s: string)
    ensures Unescape(Escape(s)) == s
  {
    if s != [] {
      var rest := Escape(s[1..]);
      UnescapeEscape(s[1..]);
      if IsSafe(s[0]) {
        assert Escape(s) == [s[0]] + rest;
        if s[0] == '\\' && |rest| >= 1 {
          EscapeStartsSafe(s[1..]);
        }
        assert Escape(s)[1..] == rest;
      } else {
        assert Escape(s) == ['\\', s[0]] + rest;
        assert Escape(s)[2..] == rest;
      }
    }
  }

  /** Escaping is injective, since it has a left inverse. */
  lemma EscapeInjective(a: string, b: string)
    requires Escape(a) == Escape(b)
    ensures a == b
  {
    UnescapeEscape(a);
    UnescapeEscape(b);
  }

  /** Every character outside the whitelist in the output directly follows a backslash. */
  lemma {:induction false} EscapedUnsafeFollowsBackslash(s: string, k: nat)
    requires k < |Escape(s)| && !IsSafe(Escape(s)[k])
    ensures k > 0 && Escape(s)[k - 1] == '\\'
  {
    if s != [] {
      var head := EscapeChar(s[0]);
      assert Escape(s) == head + Escape(s[1..]);
      if k >= |head| {
        assert Escape(s)[k] == Escape(s[1..])[k - |head|];
        EscapedUnsafeFollowsBackslash(s[1..], k - |head|);
        assert Escape(s)[k - 1] == Escape(s[1..])[k - |head| - 1];
      }
    }
  }
}
