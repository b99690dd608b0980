/**
 When splitting the printed command line gives back the token vector.

 `SplittingUndoesPrinting` is the exact answer: it does if and only if every token is clean. One
 direction follows the scanner token by token. The other counts characters: every structural
 quote and every escaping backslash costs the splitter one character that no token gets back.
 */
module TokenRoundTrip {
  import opened Wrappers
  import opened Quoting
  import opened CommandLineModel

  // ----- Clean tokens -----

  predicate CleanSwitch(token: string, sw: Switch) {
    IsPlain(sw.name) && (if sw.value == "" then '=' !in token else SurvivesQuoting(sw.value))
  }

  predicate CleanToken(token: string, parse: bool) {
    if PrintsAsSwitch(token, parse) then CleanSwitch(token, ParseSwitch(token).value)
    else SurvivesQuoting(token)
  }

  predicate CleanTokens(tokens: seq<string>, parse: bool) {
    tokens != [] ==>
      CleanToken(tokens[0], parse) && CleanTokens(tokens[1..], parse && tokens[0] != TERMINATOR)
  }

  /** The program's own rules: no escapes exist, and a blank ends an unquoted name. */
  predicate CleanVerbatim(program: string) {
    '"' !in program && (program != "" ==> program[|program| - 1] != '\\')
  }

  predicate CleanProgram(program: string) {
    && CleanVerbatim(program)
    && ('\t' in program ==> NeedsQuotes(program))
  }

  lemma ParseSwitchShape(token: string)
    requires ParseSwitch(token).Some?
    ensures var sw := ParseSwitch(token).value;
            && sw.name != "" && (sw.name[0] == '-' || sw.name[0] == '/')
            && '=' !in sw.name
            && (if '=' in token then token == sw.name + "=" + sw.value
                else token == sw.name && sw.value == "")
  {
    var eq := FindEquals(token);
    if eq < |token| {
      assert token == token[..eq] + "=" + token[eq + 1..];
      assert eq != 0;
    } else {
      assert token[..eq] == token;
    }
  }

  // ----- Forwards -----

  lemma ScanUndoesSwitch(token: string, rest: string, mode: DoubledQuote)
    requires ParseSwitch(token).Some? && CleanSwitch(token, ParseSwitch(token).value)
    requires AtBoundary(rest)
    ensures Scan(SwitchText(ParseSwitch(token).value) + rest, false, mode) == Scanned(token, rest)
  {
    hide Scan, Quote, ParseSwitch;
    ParseSwitchShape(token);
    var sw := ParseSwitch(token).value;
    if sw.value == "" {
      assert SwitchText(sw) == token by {
        assert sw.name + "" == sw.name;
      }
      ScanPlain(token, rest, mode);
      ScanEnds(rest, mode);
      assert token + "" == token;
    } else {
      ScanUndoesQuote(sw.name + "=", sw.value, rest, mode);
      assert SwitchText(sw) == sw.name + "=" + Quote(sw.value);
    }
  }

  lemma ScanUndoesToken(token: string, parse: bool, rest: string, mode: DoubledQuote)
    requires CleanToken(token, parse)
    requires AtBoundary(rest)
    ensures Scan(PrintToken(token, parse) + rest, false, mode) == Scanned(token, rest)
    ensures PrintToken(token, parse) != "" && !IsBlank(PrintToken(token, parse)[0])
  {
    hide Scan, Quote, ParseSwitch, SurvivesQuoting;
    if PrintsAsSwitch(token, parse) {
      ParseSwitchShape(token);
      ScanUndoesSwitch(token, rest, mode);
    } else {
      ScanUndoesQuote("", token, rest, mode);
      assert "" + Quote(token) + rest == Quote(token) + rest && "" + token == token;
      SurvivorStartsSolid(token);
    }
  }

  lemma SplitStep(text: string, token: string, rest: string, mode: DoubledQuote)
    requires text != "" && !IsBlank(text[0])
    requires Scan(text, false, mode) == Scanned(token, rest)
    ensures SplitArguments(text, mode) == [token] + SplitArguments(rest, mode)
  {
  }

  lemma SplitSkips(c: char, rest: string, mode: DoubledQuote)
    requires IsBlank(c)
    ensures SplitArguments([c] + rest, mode) == SplitArguments(rest, mode)
  {
    assert ([c] + rest)[1..] == rest;
  }

  /** What follows the head of a printed vector. */
  function PrintRest(tokens: seq<string>, parse: bool): string
    requires tokens != []
    ensures AtBoundary(PrintRest(tokens, parse))
    ensures PrintTokens(tokens, parse) == PrintToken(tokens[0], parse) + PrintRest(tokens, parse)
  {
    if |tokens| == 1 then "" else " " + PrintTokens(tokens[1..], parse && tokens[0] != TERMINATOR)
  }

  lemma SplitRest(tokens: seq<string>, parse: bool, mode: DoubledQuote)
    requires tokens != []
    ensures SplitArguments(PrintRest(tokens, parse), mode)
            == SplitArguments(PrintTokens(tokens[1..], parse && tokens[0] != TERMINATOR), mode)
  {
    if |tokens| > 1 {
      SplitSkips(' ', PrintTokens(tokens[1..], parse && tokens[0] != TERMINATOR), mode);
    }
  }

  lemma {:induction false} SplitOfCleanHead(tokens: seq<string>, parse: bool, mode: DoubledQuote)
    requires tokens != [] && CleanToken(tokens[0], parse)
    ensures SplitArguments(PrintTokens(tokens, parse), mode)
            == [tokens[0]] + SplitArguments(PrintTokens(tokens[1..], parse && tokens[0] != TERMINATOR), mode)
  {
    hide SplitArguments, PrintTokens, PrintToken, CleanToken, Scan;
    var rest := PrintRest(tokens, parse);
    ScanUndoesToken(tokens[0], parse, rest, mode);
    SplitStep(PrintToken(tokens[0], parse) + rest, tokens[0], rest, mode);
    SplitRest(tokens, parse, mode);
  }

  lemma NothingToSplit(parse: bool, mode: DoubledQuote)
    ensures SplitArguments(PrintTokens([], parse), mode) == []
  {
  }

  lemma {:induction false} CleanTokensSplit(tokens: seq<string>, parse: bool, mode: DoubledQuote)
    requires CleanTokens(tokens, parse)
    ensures SplitArguments(PrintTokens(tokens, parse), mode) == tokens
  {
    hide SplitArguments, PrintTokens, CleanToken;
    if tokens == [] {
      NothingToSplit(parse, mode);
    } else {
      SplitOfCleanHead(tokens, parse, mode);
      CleanTokensSplit(tokens[1..], parse && tokens[0] != TERMINATOR, mode);
    }
  }

  // ----- Backwards: counting -----

  /** Characters of `s` that no token can get back, whatever the state of the quotes. */
  function Lost(s: string): nat {
    if s == "" then 0
    else if s[0] == '\\' && RunMeetsQuote(s[1..]) then 1 + Lost(s[2..])
    else if s[0] == '"' && (|s| == 1 || s[1] != '"') then 1 + Lost(s[1..])
    else Lost(s[1..])
  }

  lemma {:induction false} ScanLoses(s: string, inside: bool, mode: DoubledQuote)
    ensures var r := Scan(s, inside, mode);
            |r.token| + |r.rest| + Lost(s) <= |s| + Lost(r.rest)
    decreases |s|
  {
    if s == "" || (!inside && IsBlank(s[0])) {
    } else if s[0] == '\\' && RunMeetsQuote(s[1..]) {
      ScanLoses(s[2..], inside, mode);
    } else if s[0] != '"' {
      ScanLoses(s[1..], inside, mode);
    } else if inside && |s| > 1 && s[1] == '"' && !mode.Reopens? {
      ScanLoses(s[2..], mode.LiteralStaysInside?, mode);
      assert s[1..][1..] == s[2..];
    } else {
      ScanLoses(s[1..], !inside, mode);
    }
  }

  lemma LostSkipsBlanks(s: string)
    ensures Lost(SkipBlanks(s)) == Lost(s)
    ensures s != "" && IsBlank(s[0]) ==> |SkipBlanks(s)| < |s|
  {
  }

  /** The characters of the tokens, and one separator for each. */
  function Weight(tokens: seq<string>): nat {
    if tokens == [] then 0 else |tokens[0]| + 1 + Weight(tokens[1..])
  }

  lemma {:induction false} SplitLoses(s: string, mode: DoubledQuote)
    ensures Weight(SplitArguments(s, mode)) + Lost(s) <= |s| + 1
    ensures s != "" && IsBlank(s[0]) ==> Weight(SplitArguments(s, mode)) + Lost(s) <= |s|
    decreases |s|
  {
    var text := SkipBlanks(s);
    LostSkipsBlanks(s);
    if text != "" {
      var first := Scan(text, false, mode);
      ScanLoses(text, false, mode);
      SplitLoses(first.rest, mode);
      var more := SplitArguments(first.rest, mode);
      assert ([first.token] + more)[1..] == more;
      assert first.rest == "" ==> more == [];
    } else {
      assert Lost(text) == 0;
    }
  }

  lemma {:induction false} LostAdds(a: string, b: string)
    requires b == "" || (b[0] != '"' && b[0] != '\\')
    ensures Lost(a + b) == Lost(a) + Lost(b)
    decreases |a|
  {
    if a == "" {
      assert a + b == b;
    } else {
      var s := a + b;
      assert s[1..] == a[1..] + b;
      MeetsQuoteAdds(a[1..], b);
      LostAdds(a[1..], b);
      if a[0] == '\\' && RunMeetsQuote(a[1..]) {
        assert s[2..] == a[2..] + b;
        LostAdds(a[2..], b);
      }
    }
  }

  lemma {:induction false} MeetsQuoteAdds(a: string, b: string)
    requires b == "" || (b[0] != '"' && b[0] != '\\')
    ensures RunMeetsQuote(a + b) <==> RunMeetsQuote(a)
  {
    if a == "" {
      assert a + b == b;
    } else {
      assert (a + b)[1..] == a[1..] + b;
      MeetsQuoteAdds(a[1..], b);
    }
  }

  lemma {:induction false} LostOfClosed(arg: string)
    ensures Lost(Closed(arg, "")) == |QuoteBody(arg)| - |arg| + 1
    ensures arg != "" ==> Closed(arg, "")[0] != '"'
  {
    if arg == "" {
      assert Closed(arg, "") == "\"";
      assert Lost("\"") == 1;
    } else {
      var tail := Closed(arg[1..], "");
      ClosedStep(arg, "");
      LostOfClosed(arg[1..]);
      ClosedMeetsQuote(arg[1..], "");
      if arg[0] == '"' || (arg[0] == '\\' && RunMeetsQuoteOrEnd(arg)) {
        assert "\\" + ([arg[0]] + tail) == ['\\', arg[0]] + tail;
      } else {
        assert "" + ([arg[0]] + tail) == [arg[0]] + tail;
      }
    }
  }

  lemma LostOfQuote(arg: string)
    ensures Lost(Quote(arg)) == |Quote(arg)| - |arg|
  {
    if NeedsQuotes(arg) {
      var body := Closed(arg, "");
      assert Quote(arg) == "\"" + body by {
        assert QuoteBody(arg) + ("\"" + "") == QuoteBody(arg) + "\"";
      }
      LostOfClosed(arg);
      assert ("\"" + body)[1..] == body && body[0] == ("\"" + body)[1];
    } else {
      UnquotedIsPlain(arg);
      NothingLost(arg);
    }
  }

  lemma {:induction false} NothingLost(s: string)
    requires '"' !in s && '\\' !in s
    ensures Lost(s) == 0
  {
    if s != "" {
      assert s[0] in s;
      NothingLost(s[1..]);
    }
  }

  lemma {:induction false} QuotesAreLost(s: string)
    requires '"' in s
    ensures Lost(s) >= 1
  {
    if s[0] == '\\' && RunMeetsQuote(s[1..]) {
    } else if s[0] == '"' && (|s| == 1 || s[1] != '"') {
    } else {
      if s[0] == '"' {
        assert s[1] == s[1..][0];
      }
      QuotesAreLost(s[1..]);
    }
  }

  /** A token that costs more characters than it prints: a raw quote, or an `=` that is dropped. */
  predicate Overdrawn(token: string, parse: bool) {
    PrintsAsSwitch(token, parse) &&
    var sw := ParseSwitch(token).value;
    '"' in sw.name || (sw.value == "" && '=' in token)
  }

  lemma TokenBalance(token: string, parse: bool)
    ensures |PrintToken(token, parse)| + (if Overdrawn(token, parse) then 1 else 0)
            <= Lost(PrintToken(token, parse)) + |token|
  {
    if PrintsAsSwitch(token, parse) {
      ParseSwitchShape(token);
      var sw := ParseSwitch(token).value;
      if '"' in sw.name {
        QuotesAreLost(sw.name);
      }
      if sw.value == "" {
        assert PrintToken(token, parse) == sw.name;
      } else {
        LostOfQuote(sw.value);
        LostAdds(sw.name, "=" + Quote(sw.value));
      }
    } else {
      LostOfQuote(token);
    }
  }

  predicate AnyOverdrawn(tokens: seq<string>, parse: bool) {
    tokens != [] &&
    (Overdrawn(tokens[0], parse) || AnyOverdrawn(tokens[1..], parse && tokens[0] != TERMINATOR))
  }

  lemma {:induction false} LineBalance(tokens: seq<string>, parse: bool)
    requires tokens != []
    ensures |PrintTokens(tokens, parse)| + 1 + (if AnyOverdrawn(tokens, parse) then 1 else 0)
            <= Lost(PrintTokens(tokens, parse)) + Weight(tokens)
  {
    hide PrintToken, Overdrawn;
    TokenBalance(tokens[0], parse);
    var head, rest := PrintToken(tokens[0], parse), PrintRest(tokens, parse);
    LostAdds(head, rest);
    if |tokens| > 1 {
      var parse' := parse && tokens[0] != TERMINATOR;
      LineBalance(tokens[1..], parse');
    }
  }

  /** A vector that comes back holds no overdrawn token, and its text starts with no blank. */
  lemma RoundTripBalances(tokens: seq<string>, parse: bool, mode: DoubledQuote)
    requires tokens != []
    requires SplitArguments(PrintTokens(tokens, parse), mode) == tokens
    ensures !AnyOverdrawn(tokens, parse)
    ensures PrintTokens(tokens, parse) != "" && !IsBlank(PrintTokens(tokens, parse)[0])
  {
    var s := PrintTokens(tokens, parse);
    SplitLoses(s, mode);
    LineBalance(tokens, parse);
  }

  // ----- Backwards: the first token that is not clean -----

  /** An unprotected blank ends the token early. */
  lemma TornHead(text: string, k: nat, rest: string, mode: DoubledQuote)
    requires 0 < k < |text|
    requires IsPlain(text[..k]) && IsBlank(text[k])
    ensures SplitArguments(text + rest, mode) != [] && |SplitArguments(text + rest, mode)[0]| == k
  {
    var head, tail := text[..k], text[k..] + rest;
    assert text + rest == head + tail;
    ScanPlain(head, tail, mode);
    ScanEnds(tail, mode);
    assert head + "" == head;
    SplitStep(text + rest, head, tail, mode);
  }

  function FirstBlank(s: string): (k: nat)
    ensures k <= |s|
    ensures k < |s| ==> IsBlank(s[k])
    ensures forall i :: 0 <= i < k ==> !IsBlank(s[i])
  {
    FirstStop(s, c => IsBlank(c))
  }

  /** The first blank of a printed token that is neither clean nor overdrawn stands unprotected. */
  lemma DirtySwitch(token: string)
    requires ParseSwitch(token).Some? && !CleanSwitch(token, ParseSwitch(token).value)
    requires '"' !in ParseSwitch(token).value.name
    requires ParseSwitch(token).value.value == "" ==> '=' !in token
    ensures var text := SwitchText(ParseSwitch(token).value);
            var k := FirstBlank(text);
            k < |text| && k < |token| && IsPlain(text[..k])
  {
    hide ParseSwitch, NeedsQuotes, QuoteBody, FirstStop;
    ParseSwitchShape(token);
    var sw := ParseSwitch(token).value;
    var text := SwitchText(sw);
    if IsPlain(sw.name) {
      UnquotedIsPlain(sw.value);
      assert text == sw.name + "=" + sw.value;
      BlankFound(text, '\t');
    } else {
      var j :| 0 <= j < |sw.name| && IsBlank(sw.name[j]);
      FirstBlankAtMost(text, j);
      assert forall i :: 0 <= i < FirstBlank(text) ==> text[i] == sw.name[i] && sw.name[i] in sw.name;
    }
  }

  lemma DirtyArgument(token: string)
    requires token != "" && !SurvivesQuoting(token)
    ensures Quote(token) == token
    ensures var k := FirstBlank(token); k < |token| && IsPlain(token[..k])
  {
    UnquotedIsPlain(token);
    BlankFound(token, '\t');
    assert forall i :: 0 <= i < FirstBlank(token) ==> token[i] in token;
  }

  lemma DirtyHeadIsTorn(token: string, parse: bool, rest: string, mode: DoubledQuote)
    requires !CleanToken(token, parse) && !Overdrawn(token, parse)
    requires AtBoundary(rest)
    requires PrintToken(token, parse) + rest != "" && !IsBlank((PrintToken(token, parse) + rest)[0])
    ensures var split := SplitArguments(PrintToken(token, parse) + rest, mode);
            split != [] && |split[0]| < |token|
  {
    hide SplitArguments, Scan, ParseSwitch, Quote, SurvivesQuoting, FirstBlank, CleanSwitch;
    var text := PrintToken(token, parse);
    if PrintsAsSwitch(token, parse) {
      DirtySwitch(token);
    } else {
      if token == "" {
        EmptyPrintsNothing(rest);
        assert false;
      }
      DirtyArgument(token);
    }
    assert (text + rest)[0] == text[0];
    TornHead(text, FirstBlank(text), rest, mode);
  }

  lemma EmptyPrintsNothing(rest: string)
    ensures Quote("") + rest == rest
  {
  }

  lemma FirstBlankAtMost(s: string, j: nat)
    requires j < |s| && IsBlank(s[j])
    ensures FirstBlank(s) <= j
  {
  }

  lemma BlankFound(s: string, c: char)
    requires c in s && IsBlank(c)
    ensures FirstBlank(s) < |s|
  {
  }

  lemma {:induction false} SplitTokensClean(tokens: seq<string>, parse: bool, mode: DoubledQuote)
    requires SplitArguments(PrintTokens(tokens, parse), mode) == tokens
    ensures CleanTokens(tokens, parse)
  {
    if tokens != [] {
      hide SplitArguments, PrintTokens, CleanToken, Overdrawn, PrintToken;
      RoundTripBalances(tokens, parse, mode);
      if CleanToken(tokens[0], parse) {
        SplitOfCleanHead(tokens, parse, mode);
        SplitTokensClean(tokens[1..], parse && tokens[0] != TERMINATOR, mode);
      } else {
        DirtyHeadIsTorn(tokens[0], parse, PrintRest(tokens, parse), mode);
      }
    }
  }

  // ----- The program, and the whole line -----

  lemma {:induction false} BodyOfProgram(program: string)
    ensures |QuoteBody(program)| >= |program|
    ensures program != "" && program[|program| - 1] == '\\' ==> |QuoteBody(program)| > |program|
    ensures '"' !in program ==> '"' !in QuoteBody(program)
    ensures '"' !in program && (program != "" ==> program[|program| - 1] != '\\') ==> QuoteBody(program) == program
  {
    if program != "" {
      BodyOfProgram(program[1..]);
      if |program| == 1 {
        assert RunMeetsQuoteOrEnd(program[1..]);
      }
      if '"' !in program && RunMeetsQuoteOrEnd(program) {
        RunReachesEnd(program);
      }
      assert program == [program[0]] + program[1..];
    }
  }

  lemma {:induction false} RunReachesEnd(s: string)
    requires '"' !in s && s != "" && RunMeetsQuoteOrEnd(s)
    ensures s[|s| - 1] == '\\'
  {
    if |s| > 1 {
      assert s[1] in s;
      RunReachesEnd(s[1..]);
    }
  }

  lemma TakeUntilStops(a: string, b: string, stop: char -> bool)
    requires forall i :: 0 <= i < |a| ==> !stop(a[i])
    requires b == "" || stop(b[0])
    ensures TakeUntil(a + b, stop) == Scanned(a, b)
  {
    hide FirstStop;
    var s := a + b;
    assert forall i :: 0 <= i < |a| ==> s[i] == a[i];
    assert b != "" ==> s[|a|] == b[0];
    assert FirstStop(s, stop) == |a|;
  }

  lemma QuotedProgram(program: string, rest: string)
    ensures var r := ScanProgram("\"" + Closed(program, rest));
            if CleanVerbatim(program) then r == Scanned(program, rest) else r.token != program
  {
    hide QuoteBody;
    var s := "\"" + Closed(program, rest);
    var body := Closed(program, rest);
    assert s[1..] == body;
    BodyOfProgram(program);
    var t := TakeUntil(body, c => c == '"');
    if '"' !in program {
      TakeUntilStops(QuoteBody(program), "\"" + rest, c => c == '"');
      assert ("\"" + rest)[1..] == rest;
    } else {
      assert '"' !in t.token;
    }
  }

  lemma UnquotedProgram(program: string, rest: string)
    requires AtBoundary(rest) && !NeedsQuotes(program)
    ensures var r := ScanProgram(program + rest);
            if '\t' !in program then r == Scanned(program, rest) else r.token != program
  {
    UnquotedIsPlain(program);
    var s := program + rest;
    assert s != "" ==> s[0] != '"' by {
      assert program != "" ==> s[0] == program[0] && program[0] in program;
    }
    if '\t' !in program {
      TakeUntilStops(program, rest, c => IsBlank(c));
    } else {
      var j :| 0 <= j < |program| && program[j] == '\t';
      var t := TakeUntil(s, c => IsBlank(c));
      assert j < |t.token| ==> !IsBlank(t.token[j]);
    }
  }

  lemma ProgramRoundTrip(program: string, rest: string)
    requires AtBoundary(rest)
    ensures ScanProgram(Quote(program) + rest) == Scanned(program, rest) <==> CleanProgram(program)
    ensures ScanProgram(Quote(program) + rest).token == program ==> CleanProgram(program)
  {
    hide ScanProgram, NeedsQuotes, QuoteBody;
    if NeedsQuotes(program) {
      QuotedProgram(program, rest);
      assert Quote(program) + rest == "\"" + Closed(program, rest);
    } else {
      UnquotedIsPlain(program);
      UnquotedProgram(program, rest);
      assert program != "" ==> program[|program| - 1] in program;
    }
  }

  /**
   For every token vector with a printable line and every reading of doubled quotes: splitting
   the printed line by the Win32 rules gives back exactly the vector if and only if the program
   and all the tokens are clean.
   */
  lemma SplittingUndoesPrinting(argv: seq<string>, mode: DoubledQuote)
    requires argv != [] && PrintLine(argv) != ""
    ensures CommandLineToArgvW(PrintLine(argv), mode) == argv
            <==> CleanProgram(argv[0]) && CleanTokens(argv[1..], true)
  {
    hide SplitArguments, PrintTokens, CleanTokens, ScanProgram, CleanProgram, Quote;
    var params := PrintTokens(argv[1..], true);
    var rest := if params == "" then "" else " " + params;
    ProgramRoundTrip(argv[0], rest);
    if params == "" {
      assert SplitArguments(rest, mode) == SplitArguments(params, mode);
    } else {
      SplitSkips(' ', params, mode);
    }
    if CleanProgram(argv[0]) {
      assert CommandLineToArgvW(PrintLine(argv), mode) == [argv[0]] + SplitArguments(params, mode);
      assert [argv[0]] + argv[1..] == argv;
      if CleanTokens(argv[1..], true) {
        CleanTokensSplit(argv[1..], true, mode);
      }
      if [argv[0]] + SplitArguments(params, mode) == argv {
        assert ([argv[0]] + SplitArguments(params, mode))[1..] == SplitArguments(params, mode);
        SplitTokensClean(argv[1..], true, mode);
      }
    }
  }

  /** "Such that it is interpreted as one argument": not an empty one, nor one with a bare tab. */
  lemma EmptyAndTabbedAreLost(mode: DoubledQuote)
    ensures CommandLineToArgvW(PrintLine(["p", ""]), mode) != ["p", ""]
    ensures CommandLineToArgvW(PrintLine(["p", "a\tb"]), mode) != ["p", "a\tb"]
  {
    hide CommandLineToArgvW, PrintTokens;
    var empty, tabbed := ["p", ""], ["p", "a\tb"];
    assert empty[1..] == [""] && tabbed[1..] == ["a\tb"];
    assert tabbed[1][1] == '\t' && '\t' in tabbed[1];
    forall i | 0 <= i < |tabbed[1]| ensures !ForcesQuotes(tabbed[1][i]) {
    }
    assert forall token :: token in [empty[1], tabbed[1]] ==> !CleanToken(token, true);
    SplittingUndoesPrinting(empty, mode);
    SplittingUndoesPrinting(tabbed, mode);
  }
}
