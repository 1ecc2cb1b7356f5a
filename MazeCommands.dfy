/**
 * The textual form of a route: the formatter that writes moves as Russian
 * words separated by ", ", and the parser that reads a list of commands,
 * Russian or English, separated by commas, semicolons or line breaks.
 */
module MazeCommands {
  import opened Wrappers
  import opened Text
  import MazeText
  import opened MazePaths

  // ----- the formatter -----

  /** DirectionToRussian. */
  function RussianWord(d: Direction): string {
    match d
    case Up => "вверх"
    case Down => "вниз"
    case Left => "влево"
    case Right => "вправо"
  }

  function EnglishWord(d: Direction): string {
    match d
    case Up => "up"
    case Down => "down"
    case Left => "left"
    case Right => "right"
  }

  /** What FormatDirections writes for an empty route. */
  const NotFound: string := "Путь не найден."

  function Words(ds: seq<Direction>): (ws: seq<string>)
    ensures |ws| == |ds| && forall i :: 0 <= i < |ds| ==> ws[i] == RussianWord(ds[i])
  {
    seq(|ds|, i requires 0 <= i < |ds| => RussianWord(ds[i]))
  }

  /** The text of a route: the Russian words joined with ", ", or the not-found message. */
  function Formatted(ds: seq<Direction>): string {
    if ds == [] then NotFound else Join(Words(ds), ", ")
  }

  /** FormatDirections: a builder receives each word, and ", " after every word but the last. */
  method FormatDirections(ds: seq<Direction>) returns (r: string)
    ensures r == Formatted(ds)
  {
    if |ds| == 0 {
      return NotFound;
    }
    var builder := "";
    ghost var words := Words(ds);
    for i := 0 to |ds|
      invariant builder == JoinPrefix(words, i, ", ")
    {
      JoinPrefixStep(words, i, ", ");
      builder := builder + RussianWord(ds[i]);
      if i < |ds| - 1 {
        builder := builder + ", ";
      }
    }
    JoinPrefixAll(words, ", ");
    r := builder;
  }

  // ----- the parser -----

  predicate IsCommandSeparator(c: char) {
    c == ',' || c == ';' || c == '\n' || c == '\r'
  }

  /**
   * ToLower under the ru-RU culture, for the characters whose lower case is a
   * letter of a command word: the Latin capitals, the Cyrillic capitals
   * (Ѐ to Џ and А to Я), the dotted capital I and the Kelvin sign.
   */
  function LowerRu(c: char): (l: char)
    ensures 'a' <= l <= 'z' ==> ('A' <= c <= 'Z' || c == l || c == '\U{130}' || c == '\U{212A}')
  {
    if 'A' <= c <= 'Z' then (c as int + 32) as char
    else if '\U{410}' <= c <= '\U{42F}' then (c as int + 32) as char
    else if '\U{400}' <= c <= '\U{40F}' then (c as int + 80) as char
    else if c == '\U{130}' then 'i'
    else if c == '\U{212A}' then 'k'
    else c
  }

  function LowerRuString(s: string): (r: string)
    ensures |r| == |s| && forall i :: 0 <= i < |s| ==> r[i] == LowerRu(s[i])
  {
    seq(|s|, i requires 0 <= i < |s| => LowerRu(s[i]))
  }

  /** ParseSingleDirection on a trimmed token: its lower case is one of the eight words, or it is unknown. */
  function ParseDirection(token: string): Option<Direction>
  {
    var lower := LowerRuString(token);
    if lower == "вверх" || lower == "up" then Some(Up)
    else if lower == "вниз" || lower == "down" then Some(Down)
    else if lower == "влево" || lower == "left" then Some(Left)
    else if lower == "вправо" || lower == "right" then Some(Right)
    else None
  }

  /** A token parses to a direction exactly when its lower case is that direction's Russian or English word. */
  lemma ParseDirectionMeaning(token: string)
    ensures ParseDirection(token).Some? ==>
      var d := ParseDirection(token).value;
      LowerRuString(token) == RussianWord(d) || LowerRuString(token) == EnglishWord(d)
    ensures ParseDirection(token).None? ==>
      forall d :: LowerRuString(token) != RussianWord(d) && LowerRuString(token) != EnglishWord(d)
  {
  }

  /** The exceptions of ParseCommands: ArgumentException, FormatException for a token, FormatException for no commands. */
  datatype CommandError = EmptyCommands | UnknownCommand(token: string, position: int) | NoCommands

  /** The pieces between separators once line breaks are normalised, empty pieces removed. */
  function CommandParts(text: string): seq<string> {
    NonEmpty(Split(MazeText.Normalize(text), IsCommandSeparator))
  }

  /** The directions parsed so far in front of what the rest of the parse gives. */
  function Prepend(done: seq<Direction>, r: Result<seq<Direction>, CommandError>): Result<seq<Direction>, CommandError> {
    if r.Success? then Success(done + r.value) else r
  }

  /** Each part trimmed. */
  function TrimAll(parts: seq<string>): (tokens: seq<string>)
    ensures |tokens| == |parts| && forall k :: 0 <= k < |parts| ==> tokens[k] == Trim(parts[k])
  {
    seq(|parts|, k requires 0 <= k < |parts| => Trim(parts[k]))
  }

  /**
   * The loop over the trimmed parts from `start` on: a blank token is
   * skipped, and an unknown one stops the parse with its 1-based part number.
   */
  function ParseTokens(tokens: seq<string>, start: nat): Result<seq<Direction>, CommandError>
    decreases |tokens|
  {
    if tokens == [] then Success([])
    else if tokens[0] == [] then ParseTokens(tokens[1..], start + 1)
    else if ParseDirection(tokens[0]).None? then Failure(UnknownCommand(tokens[0], start + 1))
    else Prepend([ParseDirection(tokens[0]).value], ParseTokens(tokens[1..], start + 1))
  }

  function Commands(text: string): Result<seq<Direction>, CommandError> {
    if IsBlank(text) then Failure(EmptyCommands)
    else RequireSome(ParseTokens(TrimAll(CommandParts(text)), 0))
  }

  /** After the loop: an error passes through, and an empty list of directions is refused. */
  function RequireSome(r: Result<seq<Direction>, CommandError>): Result<seq<Direction>, CommandError> {
    var ds :- r;
    if ds == [] then Failure(NoCommands) else Success(ds)
  }

  lemma PrependTwice(a: seq<Direction>, b: seq<Direction>, r: Result<seq<Direction>, CommandError>)
    ensures Prepend(a, Prepend(b, r)) == Prepend(a + b, r)
  {
    if r.Success? {
      assert a + (b + r.value) == a + b + r.value;
    }
  }

  lemma PrependNothing(r: Result<seq<Direction>, CommandError>)
    ensures Prepend([], r) == r
  {
    if r.Success? {
      assert [] + r.value == r.value;
    }
  }

  /** One pass of ParseCommands' loop, read off ParseTokens. */
  lemma ParseTokensAt(tokens: seq<string>, i: nat)
    requires i < |tokens|
    ensures ParseTokens(tokens[i..], i) ==
        if tokens[i] == [] then ParseTokens(tokens[i + 1..], i + 1)
        else if ParseDirection(tokens[i]).None? then Failure(UnknownCommand(tokens[i], i + 1))
        else Prepend([ParseDirection(tokens[i]).value], ParseTokens(tokens[i + 1..], i + 1))
  {
    assert tokens[i..][0] == tokens[i] && tokens[i..][1..] == tokens[i + 1..];
  }

  method ParseCommands(text: string) returns (r: Result<seq<Direction>, CommandError>)
    ensures r == Commands(text)
  {
    if IsBlank(text) {
      return Failure(EmptyCommands);
    }
    var normalized := MazeText.Normalize(text);
    var parts := NonEmpty(Split(normalized, IsCommandSeparator));
    ghost var tokens := TrimAll(parts);
    var directions := [];
    assert tokens[0..] == tokens;
    PrependNothing(ParseTokens(tokens, 0));
    for i := 0 to |parts|
      invariant ParseTokens(tokens, 0) == Prepend(directions, ParseTokens(tokens[i..], i))
    {
      ParseTokensAt(tokens, i);
      var token := Trim(parts[i]);
      if |token| == 0 {
        continue;
      }
      var direction := ParseDirection(token);
      if direction.None? {
        return Failure(UnknownCommand(token, i + 1));
      }
      PrependTwice(directions, [direction.value], ParseTokens(tokens[i + 1..], i + 1));
      directions := directions + [direction.value];
    }
    assert tokens[|tokens|..] == [];
    assert directions + [] == directions;
    assert ParseTokens(tokens, 0) == Success(directions);
    if |directions| == 0 {
      return Failure(NoCommands);
    }
    r := Success(directions);
  }

  // ----- what the parse accepts -----

  /** A token the loop gets past: blank, or a known command. */
  predicate Accepted(token: string) {
    token == [] || ParseDirection(token).Some?
  }

  /**
   * The parse of the tokens succeeds exactly when every token is accepted, and
   * reads at most one direction per token; it can only fail on an unknown
   * command, and then names the first token that is not accepted, with its
   * 1-based number.
   */
  lemma {:induction false} ParseTokensMeaning(tokens: seq<string>, start: nat)
    ensures ParseTokens(tokens, start).Success? <==> forall k :: 0 <= k < |tokens| ==> Accepted(tokens[k])
    ensures ParseTokens(tokens, start).Success? ==> |ParseTokens(tokens, start).value| <= |tokens|
    decreases |tokens|
  {
    if tokens != [] {
      ParseTokensMeaning(tokens[1..], start + 1);
      assert forall k :: 1 <= k < |tokens| ==> tokens[1..][k - 1] == tokens[k];
    }
  }

  /** `e` reports the first token that is not accepted, with its 1-based number counted from `start`. */
  predicate NamesFirstRejected(tokens: seq<string>, start: nat, e: CommandError) {
    && e.UnknownCommand? && start < e.position <= start + |tokens|
    && e.token == tokens[e.position - start - 1] && !Accepted(e.token)
    && forall k :: 0 <= k < e.position - start - 1 ==> Accepted(tokens[k])
  }

  lemma NamesFirstRejectedStep(tokens: seq<string>, start: nat, e: CommandError)
    requires tokens != [] && Accepted(tokens[0])
    requires NamesFirstRejected(tokens[1..], start + 1, e)
    ensures NamesFirstRejected(tokens, start, e)
  {
    var tail := tokens[1..];
    assert tail[e.position - start - 2] == tokens[e.position - start - 1];
    forall k | 0 <= k < e.position - start - 1
      ensures Accepted(tokens[k])
    {
      if k > 0 {
        assert tail[k - 1] == tokens[k];
      }
    }
  }

  lemma {:induction false} ParseTokensFailure(tokens: seq<string>, start: nat)
    ensures ParseTokens(tokens, start).Failure? ==> NamesFirstRejected(tokens, start, ParseTokens(tokens, start).error)
    decreases |tokens|
  {
    if tokens != [] && ParseTokens(tokens, start).Failure? {
      var tail := tokens[1..];
      if Accepted(tokens[0]) {
        ParseTokensFailure(tail, start + 1);
        assert ParseTokens(tokens, start).error == ParseTokens(tail, start + 1).error;
        NamesFirstRejectedStep(tokens, start, ParseTokens(tail, start + 1).error);
      } else {
        assert ParseTokens(tokens, start) == Failure(UnknownCommand(tokens[0], start + 1));
      }
    }
  }

  /** When no token is blank, the parse reads one direction per token, in order. */
  lemma {:induction false} ParseTokensOnePerToken(tokens: seq<string>, start: nat)
    requires forall k :: 0 <= k < |tokens| ==> tokens[k] != []
    requires ParseTokens(tokens, start).Success?
    ensures |ParseTokens(tokens, start).value| == |tokens|
    ensures forall k :: 0 <= k < |tokens| ==> Some(ParseTokens(tokens, start).value[k]) == ParseDirection(tokens[k])
    decreases |tokens|
  {
    if tokens != [] {
      ParseTokensOnePerToken(tokens[1..], start + 1);
      assert forall k :: 1 <= k < |tokens| ==> tokens[1..][k - 1] == tokens[k];
    }
  }

  /** No commands is reported exactly for a non-blank text all of whose parts are blank once trimmed. */
  lemma NoCommandsIff(text: string)
    ensures Commands(text) == Failure(NoCommands) <==>
      !IsBlank(text) && forall k :: 0 <= k < |CommandParts(text)| ==> IsBlank(CommandParts(text)[k])
  {
    var parts := CommandParts(text);
    var tokens := TrimAll(parts);
    assert forall k :: 0 <= k < |parts| ==> (tokens[k] == [] <==> IsBlank(parts[k]));
    ParseTokensNothing(tokens, 0);
    ParseTokensFailure(tokens, 0);
    RequireSomeNothing(ParseTokens(tokens, 0));
  }

  lemma RequireSomeNothing(r: Result<seq<Direction>, CommandError>)
    ensures RequireSome(r) == Failure(NoCommands) <==> r == Success([]) || r == Failure(NoCommands)
  {
  }

  /** The parse reads no direction and succeeds exactly when every token is blank. */
  lemma {:induction false} ParseTokensNothing(tokens: seq<string>, start: nat)
    ensures ParseTokens(tokens, start) == Success([]) <==> forall k :: 0 <= k < |tokens| ==> tokens[k] == []
    decreases |tokens|
  {
    if tokens != [] {
      var tail := tokens[1..];
      ParseTokensNothing(tail, start + 1);
      assert forall k :: 1 <= k < |tokens| ==> tail[k - 1] == tokens[k];
    }
  }

  // ----- case -----

  lemma LowerRuTwice(s: string)
    ensures LowerRuString(LowerRuString(s)) == LowerRuString(s)
  {
  }

  /** Commands are recognised whatever their case: a token parses as its lower case does. */
  lemma ParseDirectionIgnoresCase(token: string)
    ensures ParseDirection(LowerRuString(token)) == ParseDirection(token)
  {
    LowerRuTwice(token);
  }

  /** The English commands in capitals, as a user may type them, parse. */
  lemma CapitalsParse(d: Direction)
    ensures ParseDirection(AsciiUpperString(EnglishWord(d))) == Some(d)
  {
    var w := EnglishWord(d);
    assert LowerRuString(AsciiUpperString(w)) == w;
  }

  // ----- the round trip -----

  /** The formatter's words are lower case, contain no separator or white space, and parse back. */
  lemma WordParses(d: Direction)
    ensures var w := RussianWord(d);
      && w != [] && !IsWhiteSpace(w[0]) && !IsWhiteSpace(w[|w| - 1])
      && NoSeparator(w, IsCommandSeparator)
      && (forall i :: 0 <= i < |w| ==> w[i] != '\r')
      && ParseDirection(w) == Some(d)
  {
    var w := RussianWord(d);
    assert LowerRuString(w) == w;
  }

  /** ", "-joined words are ","-joined with a space in front of every word but the first. */
  function Spaced(ws: seq<string>): (r: seq<string>)
    requires |ws| >= 1
    ensures |r| == |ws| && r[0] == ws[0] && forall i :: 1 <= i < |ws| ==> r[i] == " " + ws[i]
  {
    [ws[0]] + seq(|ws| - 1, i requires 0 <= i < |ws| - 1 => " " + ws[i + 1])
  }

  lemma JoinLeadingSpace(x: string, rest: seq<string>)
    ensures Join([" " + x] + rest, ",") == " " + Join([x] + rest, ",")
  {
    if rest != [] {
      assert ([" " + x] + rest)[1..] == rest == ([x] + rest)[1..];
    }
  }

  lemma {:induction false} JoinSpaced(ws: seq<string>)
    requires |ws| >= 1
    ensures Join(ws, ", ") == Join(Spaced(ws), ",")
    decreases |ws|
  {
    if |ws| > 1 {
      JoinSpaced(ws[1..]);
      var tail := Spaced(ws)[2..];
      assert Spaced(ws)[1..] == [" " + ws[1]] + tail;
      assert Spaced(ws[1..]) == [ws[1]] + tail;
      JoinLeadingSpace(ws[1], tail);
    }
  }

  lemma TrimSpaced(w: string)
    requires w != [] && !IsWhiteSpace(w[0]) && !IsWhiteSpace(w[|w| - 1])
    ensures Trim(" " + w) == w
  {
    assert (" " + w)[1..] == w;
    TrimOfTrimmed(w);
  }

  lemma {:induction false} ParseWords(ds: seq<Direction>, start: nat)
    ensures ParseTokens(Words(ds), start) == Success(ds)
    decreases |ds|
  {
    if ds != [] {
      WordParses(ds[0]);
      ParseWords(ds[1..], start + 1);
      assert Words(ds)[1..] == Words(ds[1..]);
      assert [ds[0]] + ds[1..] == ds;
    }
  }

  /** A text without a carriage return is left alone by the line-break normalisation. */
  lemma NormalizePlain(s: string)
    requires forall i :: 0 <= i < |s| ==> s[i] != '\r'
    ensures MazeText.Normalize(s) == s
  {
    MazeText.ReplaceCrLfPlain(s, "");
    assert s + "" == s;
  }

  /** The words of a route, each a clean token. */
  lemma WordsClean(ds: seq<Direction>)
    ensures forall k :: 0 <= k < |ds| ==>
      var w := Words(ds)[k];
      && w != [] && !IsWhiteSpace(w[0]) && !IsWhiteSpace(w[|w| - 1])
      && NoSeparator(w, IsCommandSeparator) && forall i :: 0 <= i < |w| ==> w[i] != '\r'
  {
    forall k | 0 <= k < |ds| {
      WordParses(ds[k]);
    }
  }

  /** The formatted route is not blank, and line-break normalisation leaves it alone. */
  lemma FormattedPlain(ds: seq<Direction>)
    requires ds != []
    ensures !IsBlank(Formatted(ds)) && MazeText.Normalize(Formatted(ds)) == Formatted(ds)
  {
    var ws := Words(ds);
    WordsClean(ds);
    JoinStart(ws, ", ");
    assert Formatted(ds)[0] == ws[0][0];
    JoinChars(ws, ", ", c => c != '\r');
    NormalizePlain(Formatted(ds));
  }

  /** Split at the separators, the formatted route gives its words, all but the first behind a space. */
  lemma FormattedParts(ds: seq<Direction>)
    requires ds != []
    ensures CommandParts(Formatted(ds)) == Spaced(Words(ds))
  {
    var ws := Words(ds);
    var parts := Spaced(ws);
    WordsClean(ds);
    forall k | 0 <= k < |parts|
      ensures NoSeparator(parts[k], IsCommandSeparator) && parts[k] != []
    {
      if k > 0 {
        SpaceNoSeparator(ws[k]);
      }
    }
    FormattedPlain(ds);
    JoinSpaced(ws);
    SplitJoin(parts, ',', IsCommandSeparator);
    NonEmptyOfNonEmpty(parts);
  }

  lemma SpaceNoSeparator(w: string)
    requires NoSeparator(w, IsCommandSeparator)
    ensures NoSeparator(" " + w, IsCommandSeparator)
  {
    assert forall i :: 1 <= i < |w| + 1 ==> (" " + w)[i] == w[i - 1];
  }

  lemma TrimSpacedWords(ds: seq<Direction>)
    requires ds != []
    ensures TrimAll(Spaced(Words(ds))) == Words(ds)
  {
    var ws := Words(ds);
    WordsClean(ds);
    forall k | 0 <= k < |ws|
      ensures Trim(Spaced(ws)[k]) == ws[k]
    {
      if k == 0 {
        TrimOfTrimmed(ws[0]);
      } else {
        TrimSpaced(ws[k]);
      }
    }
  }

  /** Parsing a formatted non-empty route gives the route back. */
  lemma RoundTrip(ds: seq<Direction>)
    requires ds != []
    ensures Commands(Formatted(ds)) == Success(ds)
  {
    var text := Formatted(ds);
    FormattedPlain(ds);
    FormattedParts(ds);
    TrimSpacedWords(ds);
    assert TrimAll(CommandParts(text)) == Words(ds);
    ParseWords(ds, 0);
  }

  lemma NotFoundPlain()
    ensures forall i :: 0 <= i < |NotFound| ==> NotFound[i] != '\r' && !IsCommandSeparator(NotFound[i])
    ensures !IsWhiteSpace(NotFound[0]) && !IsWhiteSpace(NotFound[|NotFound| - 1])
    ensures ParseDirection(NotFound).None?
  {
    assert LowerRuString(NotFound)[0] != LowerRuString(NotFound)[1];
  }

  /** A text with no separator, no carriage return and no white space at its ends is one token, itself. */
  lemma PlainTokens(s: string)
    requires s != [] && !IsWhiteSpace(s[0]) && !IsWhiteSpace(s[|s| - 1])
    requires forall i :: 0 <= i < |s| ==> s[i] != '\r' && !IsCommandSeparator(s[i])
    ensures TrimAll(CommandParts(s)) == [s]
  {
    NormalizePlain(s);
    SplitNoSeparator(s, IsCommandSeparator);
    NonEmptyOfNonEmpty([s]);
    assert CommandParts(s) == [s];
    TrimOfTrimmed(s);
  }

  /** The not-found message does not parse: it is reported as an unknown command at position 1. */
  lemma NotFoundRejected()
    ensures Commands(Formatted([])) == Failure(UnknownCommand(NotFound, 1))
  {
    NotFoundPlain();
    PlainTokens(NotFound);
    assert !IsBlank(NotFound);
    assert ParseTokens([NotFound], 0) == Failure(UnknownCommand(NotFound, 1));
  }
}
