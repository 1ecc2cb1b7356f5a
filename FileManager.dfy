/**
 * The console file manager's command line: the quote-aware tokenizer, the
 * split of a line into a command and its arguments, the case-insensitive
 * lookup of the seven commands, and the resolution of a path argument
 * against the current directory (Windows path rules).
 */
module FileManager {
  import opened Wrappers
  import opened Text
  import opened WindowsPath

  // ----- Tokenize -----

  /**
   * The tokens still to come from `s` when the tokenizer is in quoted state
   * `quoted` and has collected `current` for the token under way.
   */
  function TokensFrom(s: string, quoted: bool, current: string): seq<string>
    decreases |s|
  {
    if s == [] then (if current != [] then [current] else [])
    else if s[0] == '"' then TokensFrom(s[1..], !quoted, current)
    else if IsWhiteSpace(s[0]) && !quoted then
      (if current != [] then [current] else []) + TokensFrom(s[1..], quoted, [])
    else TokensFrom(s[1..], quoted, current + [s[0]])
  }

  /** The tokens of a whole line, read from the start outside quotes. */
  function Tokens(input: string): seq<string> {
    TokensFrom(input, false, [])
  }

  /** Tokenize: one pass that toggles the quoted state and collects tokens. */
  method Tokenize(input: string) returns (tokens: seq<string>)
    ensures tokens == Tokens(input)
  {
    tokens := [];
    var sb := "";
    var inQuotes := false;
    for i := 0 to |input|
      invariant Tokens(input) == tokens + TokensFrom(input[i..], inQuotes, sb)
    {
      var c := input[i];
      assert input[i..][1..] == input[i + 1..];
      if c == '"' {
        inQuotes := !inQuotes;
        continue;
      }
      if IsWhiteSpace(c) && !inQuotes {
        if |sb| > 0 {
          tokens := tokens + [sb];
          sb := "";
        }
      } else {
        sb := sb + [c];
      }
    }
    assert input[|input|..] == [];
    if |sb| > 0 {
      tokens := tokens + [sb];
    }
  }

  /** The characters that survive tokenizing: every '"' and every whitespace character outside quotes removed. */
  function Kept(s: string, quoted: bool): string
    decreases |s|
  {
    if s == [] then []
    else if s[0] == '"' then Kept(s[1..], !quoted)
    else if IsWhiteSpace(s[0]) && !quoted then Kept(s[1..], quoted)
    else [s[0]] + Kept(s[1..], quoted)
  }

  /** The tokens written one after another. */
  function Concat(ts: seq<string>): string {
    if ts == [] then [] else ts[0] + Concat(ts[1..])
  }

  lemma {:induction false} ConcatAppend(a: seq<string>, b: seq<string>)
    ensures Concat(a + b) == Concat(a) + Concat(b)
    decreases |a|
  {
    if a != [] {
      ConcatAppend(a[1..], b);
      assert (a + b)[0] == a[0] && (a + b)[1..] == a[1..] + b;
      calc {
        Concat(a + b);
        a[0] + Concat(a[1..] + b);
        a[0] + (Concat(a[1..]) + Concat(b));
        (a[0] + Concat(a[1..])) + Concat(b);
      }
    } else {
      assert a + b == b;
    }
  }

  predicate NoQuote(t: string) {
    forall k :: 0 <= k < |t| ==> t[k] != '"'
  }

  /** The tokenizer never produces an empty token. */
  lemma {:induction false} TokensNonEmpty(s: string, quoted: bool, current: string)
    ensures forall t <- TokensFrom(s, quoted, current) :: t != []
    decreases |s|
  {
    if s != [] {
      if s[0] == '"' {
        TokensNonEmpty(s[1..], !quoted, current);
      } else if IsWhiteSpace(s[0]) && !quoted {
        TokensNonEmpty(s[1..], quoted, []);
      } else {
        TokensNonEmpty(s[1..], quoted, current + [s[0]]);
      }
    }
  }

  /** Quotes only toggle the quoted state: no token holds a '"'. */
  lemma {:induction false} TokensNoQuote(s: string, quoted: bool, current: string)
    requires NoQuote(current)
    ensures forall t <- TokensFrom(s, quoted, current) :: NoQuote(t)
    decreases |s|
  {
    if s != [] {
      if s[0] == '"' {
        TokensNoQuote(s[1..], !quoted, current);
      } else if IsWhiteSpace(s[0]) && !quoted {
        TokensNoQuote(s[1..], quoted, []);
      } else {
        TokensNoQuote(s[1..], quoted, current + [s[0]]);
      }
    }
  }

  /** Written one after another, the tokens are the input with quotes and unquoted whitespace removed. */
  lemma {:induction false} TokensConcat(s: string, quoted: bool, current: string)
    ensures Concat(TokensFrom(s, quoted, current)) == current + Kept(s, quoted)
    decreases |s|
  {
    if s == [] {
      if current != [] {
        assert Concat([current]) == current + Concat([]);
      }
    } else if s[0] == '"' {
      TokensConcat(s[1..], !quoted, current);
    } else if IsWhiteSpace(s[0]) && !quoted {
      TokensConcat(s[1..], quoted, []);
      var first: seq<string> := if current != [] then [current] else [];
      ConcatAppend(first, TokensFrom(s[1..], quoted, []));
      assert Concat(first) == current by {
        if current != [] {
          assert Concat([current]) == current + Concat([]);
        }
      }
    } else {
      TokensConcat(s[1..], quoted, current + [s[0]]);
    }
  }

  /** The three facts about Tokenize's result, for a whole line. */
  lemma TokensMeaning(input: string)
    ensures forall t <- Tokens(input) :: t != [] && NoQuote(t)
    ensures Concat(Tokens(input)) == Kept(input, false)
  {
    TokensNonEmpty(input, false, []);
    TokensNoQuote(input, false, []);
    TokensConcat(input, false, []);
  }

  /** A line yields no tokens exactly when nothing survives tokenizing; a whitespace-only line is one of those. */
  lemma NoTokensIff(input: string)
    ensures Tokens(input) == [] <==> Kept(input, false) == []
    ensures IsBlank(input) ==> Tokens(input) == []
  {
    TokensMeaning(input);
    if Tokens(input) != [] {
      var ts := Tokens(input);
      assert ts[0] in ts;
      assert ts[0] != [] && Concat(ts) == ts[0] + Concat(ts[1..]);
    }
    if IsBlank(input) {
      BlankKept(input, false);
    }
  }

  lemma {:induction false} BlankKept(s: string, quoted: bool)
    requires IsBlank(s) && !quoted
    ensures Kept(s, quoted) == []
    decreases |s|
  {
    if s != [] {
      assert s[0] != '"';
      BlankKept(s[1..], quoted);
    }
  }

  // ----- round trips -----

  /** A token with its quotes around it. */
  function Quote(w: string): string {
    "\"" + w + "\""
  }

  /** Characters that neither toggle the quoted state nor, where `quoted` is false, end the token are collected. */
  lemma {:induction false} Collects(w: string, t: string, quoted: bool, current: string)
    requires NoQuote(w) && (quoted || forall k :: 0 <= k < |w| ==> !IsWhiteSpace(w[k]))
    ensures TokensFrom(w + t, quoted, current) == TokensFrom(t, quoted, current + w)
    decreases |w|
  {
    if w != [] {
      assert (w + t)[0] == w[0] && w[0] != '"';
      assert (w + t)[1..] == w[1..] + t;
      Collects(w[1..], t, quoted, current + [w[0]]);
      assert current + [w[0]] + w[1..] == current + w;
    } else {
      assert w + t == t && current + w == current;
    }
  }

  /** A quoted token is collected whole; the quotes end nothing by themselves. */
  lemma QuotedCollected(w: string, rest: string)
    requires NoQuote(w)
    ensures TokensFrom(Quote(w) + rest, false, []) == TokensFrom(rest, false, w)
  {
    assert (Quote(w) + rest)[0] == '"';
    assert (Quote(w) + rest)[1..] == w + ("\"" + rest);
    Collects(w, "\"" + rest, true, []);
    assert [] + w == w;
    assert ("\"" + rest)[0] == '"' && ("\"" + rest)[1..] == rest;
  }

  /** A quoted non-empty token followed by a space. */
  lemma QuotedThenSpace(w: string, rest: string)
    requires w != [] && NoQuote(w)
    ensures TokensFrom(Quote(w) + " " + rest, false, []) == [w] + TokensFrom(rest, false, [])
  {
    assert Quote(w) + " " + rest == Quote(w) + (" " + rest);
    QuotedCollected(w, " " + rest);
    assert (" " + rest)[0] == ' ' && (" " + rest)[1..] == rest;
  }

  /** A quoted non-empty token at the end of the line. */
  lemma QuotedAlone(w: string)
    requires w != [] && NoQuote(w)
    ensures TokensFrom(Quote(w), false, []) == [w]
  {
    assert Quote(w) + "" == Quote(w);
    QuotedCollected(w, "");
  }

  /** The quoted tokens joined by single spaces. */
  function QuotedLine(ws: seq<string>): string {
    Join(seq(|ws|, i requires 0 <= i < |ws| => Quote(ws[i])), " ")
  }

  /**
   * Round trip: quoting each non-empty, quote-free token and joining them
   * with spaces tokenizes back to the same tokens, whitespace inside the
   * tokens included.
   */
  lemma {:induction false} QuotedRoundTrip(ws: seq<string>)
    requires forall w <- ws :: w != [] && NoQuote(w)
    ensures Tokens(QuotedLine(ws)) == ws
    decreases |ws|
  {
    var qs := seq(|ws|, i requires 0 <= i < |ws| => Quote(ws[i]));
    if |ws| == 1 {
      assert ws[0] in ws;
      QuotedAlone(ws[0]);
    } else if |ws| > 1 {
      assert ws[0] in ws;
      assert forall w <- ws[1..] :: w in ws;
      QuotedRoundTrip(ws[1..]);
      var qt := seq(|ws[1..]|, i requires 0 <= i < |ws[1..]| => Quote(ws[1..][i]));
      assert qs[1..] == qt;
      assert QuotedLine(ws) == Quote(ws[0]) + " " + Join(qt, " ");
      QuotedThenSpace(ws[0], Join(qt, " "));
    }
  }

  // ----- the command line -----

  datatype Command = Help | Exit | Pwd | Ls | Cd | MkDir | Touch

  /** The name each command is registered under. */
  function Name(c: Command): string {
    match c
    case Help => "help"
    case Exit => "exit"
    case Pwd => "pwd"
    case Ls => "ls"
    case Cd => "cd"
    case MkDir => "mkdir"
    case Touch => "touch"
  }

  /** The registered name in upper case. */
  function UpperName(c: Command): string {
    match c
    case Help => "HELP"
    case Exit => "EXIT"
    case Pwd => "PWD"
    case Ls => "LS"
    case Cd => "CD"
    case MkDir => "MKDIR"
    case Touch => "TOUCH"
  }

  /** Every registered name is made of lower-case ASCII letters, and upper-casing it gives UpperName. */
  lemma NameUpper(c: Command)
    ensures forall k :: 0 <= k < |Name(c)| ==> IsAsciiLower(Name(c)[k])
    ensures AsciiUpperString(Name(c)) == UpperName(c)
  {
  }

  /** The command table's TryGetValue: the command whose name equals `cmd` ignoring case. */
  function Lookup(cmd: string): Option<Command> {
    var u := AsciiUpperString(cmd);
    if u == "HELP" then Some(Help)
    else if u == "EXIT" then Some(Exit)
    else if u == "PWD" then Some(Pwd)
    else if u == "LS" then Some(Ls)
    else if u == "CD" then Some(Cd)
    else if u == "MKDIR" then Some(MkDir)
    else if u == "TOUCH" then Some(Touch)
    else None
  }

  /** The lookup finds a command exactly when `cmd` is its name in any capitalisation; no other string finds anything. */
  lemma LookupMeaning(cmd: string, c: Command)
    ensures Lookup(cmd) == Some(c) <==> EqualsIgnoreCase(cmd, Name(c))
    ensures Lookup(cmd) == None <==> forall d: Command :: !EqualsIgnoreCase(cmd, Name(d))
  {
    forall d: Command
      ensures Lookup(cmd) == Some(d) <==> EqualsIgnoreCase(cmd, Name(d))
    {
      NameUpper(d);
    }
  }

  /** What the read loop does with one line. */
  datatype Step =
    | Skip
    | Run(command: Command, arguments: seq<string>)
    | Unknown(name: string)

  /** One pass of the read loop: tokenize, skip an empty line, split off the command, look it up. */
  function Interpret(line: string): Step {
    var tokens := Tokens(line);
    if |tokens| == 0 then Skip
    else
      var argsList := if |tokens| > 1 then tokens[1..] else [];
      match Lookup(tokens[0])
      case Some(c) => Run(c, argsList)
      case None => Unknown(tokens[0])
  }

  /**
   * A line is skipped exactly when it has no tokens; otherwise the first
   * token names the command, found ignoring case, and the arguments are the
   * remaining tokens in order.
   */
  lemma InterpretMeaning(line: string)
    ensures Interpret(line) == Skip <==> Tokens(line) == []
    ensures Interpret(line).Run? ==>
      EqualsIgnoreCase(Tokens(line)[0], Name(Interpret(line).command)) && Interpret(line).arguments == Tokens(line)[1..]
    ensures Interpret(line).Unknown? ==>
      Interpret(line).name == Tokens(line)[0] && forall c: Command :: !EqualsIgnoreCase(Tokens(line)[0], Name(c))
  {
    var ts := Tokens(line);
    if ts != [] {
      forall c: Command {
        LookupMeaning(ts[0], c);
      }
    }
  }

  /** A bare word, a space and a quoted word make two tokens. */
  lemma WordThenQuoted(w: string, arg: string)
    requires w != [] && NoQuote(w) && forall k :: 0 <= k < |w| ==> !IsWhiteSpace(w[k])
    requires arg != [] && NoQuote(arg)
    ensures Tokens(w + " " + Quote(arg)) == [w, arg]
  {
    assert w + " " + Quote(arg) == w + (" " + Quote(arg));
    Collects(w, " " + Quote(arg), false, []);
    assert [] + w == w;
    assert (" " + Quote(arg))[0] == ' ' && (" " + Quote(arg))[1..] == Quote(arg);
    QuotedAlone(arg);
  }

  /** A quoted argument keeps its spaces: `cd "My Documents"` runs cd with one argument. */
  lemma QuotedArgument(c: Command, arg: string)
    requires arg != [] && NoQuote(arg)
    ensures Interpret(Name(c) + " " + Quote(arg)) == Run(c, [arg])
  {
    var w := Name(c);
    NameUpper(c);
    assert forall k :: 0 <= k < |w| ==> w[k] != '"' && !IsWhiteSpace(w[k]);
    WordThenQuoted(w, arg);
    LookupMeaning(w, c);
    assert [w, arg][1..] == [arg];
  }

  // ----- ResolvePath -----

  /** ResolvePath against the current directory `current`. */
  function ResolvePath(current: string, path: string): (r: string)
    ensures IsPathRooted(path) ==> r == path
    ensures !IsPathRooted(path) ==>
      && |current| + |path| <= |r| <= |current| + |path| + 1
      && r[..|current|] == current && r[|r| - |path|..] == path
      && (|r| == |current| + |path| + 1 <==>
            current != [] && path != [] && !IsDirectorySeparator(current[|current| - 1]) && !IsDirectorySeparator(path[0]))
      && (|r| == |current| + |path| + 1 ==> r[|current|] == '\\')
  {
    if IsPathRooted(path) then path else Combine(current, path)
  }

  /** Against a rooted current directory, every resolved path is rooted, so resolving it again changes nothing. */
  lemma ResolveIdempotent(current: string, path: string)
    requires IsPathRooted(current)
    ensures IsPathRooted(ResolvePath(current, path))
    ensures ResolvePath(current, ResolvePath(current, path)) == ResolvePath(current, path)
  {
    var r := ResolvePath(current, path);
    if !IsPathRooted(path) {
      assert r[..|current|] == current;
      assert r[0] == current[0];
      if |current| >= 2 {
        assert r[1] == current[1];
      }
    }
  }
}
