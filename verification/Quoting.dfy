/**
 Quoting of one token (commonlib/common/base/command_line.cc, the OS_WIN branch) and the
 Win32 splitter CommandLineToArgvW that the quoting is written for. The splitter follows the
 published rules ("Parsing C++ command-line arguments", and the page of CommandLineToArgvW for
 the program name).
 */
module Quoting {

  // ----- QuoteForCommandLineToArgvW -----

  predicate ForcesQuotes(c: char) {
    c == ' ' || c == '\\' || c == '"'
  }

  predicate NeedsQuotes(arg: string) {
    exists i :: 0 <= i < |arg| && ForcesQuotes(arg[i])
  }

  /** A run of backslashes starts here and ends at a quote or at the end of the string. */
  predicate RunMeetsQuoteOrEnd(s: string) {
    s == "" || s[0] == '"' || (s[0] == '\\' && RunMeetsQuoteOrEnd(s[1..]))
  }

  /** What goes between the outer quotes. */
  function QuoteBody(arg: string): string {
    if arg == "" then ""
    else if arg[0] == '"' then "\\\"" + QuoteBody(arg[1..])
    else if arg[0] == '\\' && RunMeetsQuoteOrEnd(arg) then "\\\\" + QuoteBody(arg[1..])
    else [arg[0]] + QuoteBody(arg[1..])
  }

  function Quote(arg: string): string {
    if NeedsQuotes(arg) then "\"" + QuoteBody(arg) + "\"" else arg
  }

  function Repeat(c: char, n: nat): (r: string)
    ensures |r| == n && forall i :: 0 <= i < n ==> r[i] == c
  {
    seq(n, i => c)
  }

  lemma RunMeetsQuoteOrEndIff(s: string, n: nat)
    requires n <= |s|
    requires forall i :: 0 <= i < n ==> s[i] == '\\'
    requires n == |s| || s[n] != '\\'
    ensures RunMeetsQuoteOrEnd(s) <==> n == |s| || s[n] == '"'
  {
    if n > 0 {
      RunMeetsQuoteOrEndIff(s[1..], n - 1);
    }
  }

  lemma RepeatStep(c: char, n: nat, tail: string)
    ensures [c] + (Repeat(c, n) + tail) == Repeat(c, n + 1) + tail
  {
  }

  lemma QuoteBodyStep(s: string)
    requires s != "" && s[0] == '\\'
    ensures QuoteBody(s) == (if RunMeetsQuoteOrEnd(s) then "\\\\" else "\\") + QuoteBody(s[1..])
  {
  }

  /** A whole run of backslashes, as the loop of the source meets it. */
  lemma {:induction false} QuoteBodyOfRun(s: string, n: nat)
    requires n <= |s|
    requires forall i :: 0 <= i < n ==> s[i] == '\\'
    requires n == |s| || s[n] != '\\'
    ensures QuoteBody(s) ==
            Repeat('\\', if n == |s| || s[n] == '"' then 2 * n else n) + QuoteBody(s[n..])
  {
    hide QuoteBody, RunMeetsQuoteOrEnd, Repeat;
    var tail := QuoteBody(s[n..]);
    if n == 0 {
      assert s[0..] == s;
      assert Repeat('\\', 0) + tail == tail;
    } else {
      RunMeetsQuoteOrEndIff(s, n);
      QuoteBodyStep(s);
      QuoteBodyOfRun(s[1..], n - 1);
      assert s[1..][n - 1..] == s[n..];
      if n == |s| || s[n] == '"' {
        RepeatStep('\\', 2 * n - 2, tail);
        RepeatStep('\\', 2 * n - 1, tail);
        assert "\\\\" + QuoteBody(s[1..]) == ['\\'] + (['\\'] + QuoteBody(s[1..]));
      } else {
        RepeatStep('\\', n - 1, tail);
      }
    }
  }

  lemma RunIsQuoted(arg: string, i: nat, end: nat, was: string)
    requires i <= end <= |arg| && (forall k :: i <= k < end ==> arg[k] == '\\') && (end == |arg| || arg[end] != '\\')
    ensures var count := if end == |arg| || arg[end] == '"' then (end - i) * 2 else end - i;
            was + QuoteBody(arg[i..]) == (was + Repeat('\\', count)) + QuoteBody(arg[end..])
  {
    hide QuoteBody, Repeat;
    QuoteBodyOfRun(arg[i..], end - i);
    assert arg[i..][end - i..] == arg[end..];
  }

  lemma OtherIsQuoted(arg: string, i: nat, was: string)
    requires i < |arg| && arg[i] != '\\'
    ensures was + QuoteBody(arg[i..]) == (was + (if arg[i] == '"' then "\\\"" else [arg[i]])) + QuoteBody(arg[i + 1..])
  {
    assert arg[i..][1..] == arg[i + 1..];
    assert was + ("\\\"" + QuoteBody(arg[i + 1..])) == (was + "\\\"") + QuoteBody(arg[i + 1..]);
    assert was + ([arg[i]] + QuoteBody(arg[i + 1..])) == (was + [arg[i]]) + QuoteBody(arg[i + 1..]);
  }

  lemma Finished(arg: string, out: string)
    requires "\"" + QuoteBody(arg) == out + QuoteBody(arg[|arg|..])
    ensures "\"" + QuoteBody(arg) + "\"" == out + "\""
  {
  }

  method QuoteForCommandLineToArgvW(arg: string) returns (out: string)
    ensures out == Quote(arg)
  {
    hide QuoteBody, NeedsQuotes;
    if !NeedsQuotes(arg) {
      return arg;
    }
    out := "\"";
    var i := 0;
    assert arg[0..] == arg;
    while i < |arg|
      invariant 0 <= i <= |arg|
      invariant "\"" + QuoteBody(arg) == out + QuoteBody(arg[i..])
    {
      ghost var was := out;
      if arg[i] == '\\' {
        // i..end is the run
        var start, end := i, i + 1;
        while end < |arg| && arg[end] == '\\'
          invariant start < end <= |arg|
          invariant forall k :: start <= k < end ==> arg[k] == '\\'
        {
          end := end + 1;
        }
        var count := end - start;
        if end == |arg| || arg[end] == '"' {
          count := count * 2;
        }
        for j := 0 to count
          invariant out == was + Repeat('\\', j)
        {
          out := out + "\\";
        }
        RunIsQuoted(arg, start, end, was);
        i := end - 1;
      } else {
        OtherIsQuoted(arg, i, was);
        if arg[i] == '"' {
          out := out + "\\\"";
        } else {
          out := out + [arg[i]];
        }
      }
      i := i + 1;
    }
    Finished(arg, out);
    out := out + "\"";
  }

  // ----- CommandLineToArgvW -----

  /** The three published readings of a quote that follows a closing quote at once. */
  datatype DoubledQuote = Reopens | LiteralStaysInside | LiteralEndsInside

  predicate IsBlank(c: char) {
    c == ' ' || c == '\t'
  }

  /** A run of backslashes (possibly none) starts here and ends at a quote. */
  predicate RunMeetsQuote(s: string) {
    s != "" && (s[0] == '"' || (s[0] == '\\' && RunMeetsQuote(s[1..])))
  }

  /** One token and the text behind it. */
  datatype Scanned = Scanned(token: string, rest: string) {
    function Prepend(c: char): Scanned {
      Scanned([c] + token, rest)
    }
  }

  /** Reads to the end of the token at the head of `s`; `inside` says whether a quote is open. */
  function Scan(s: string, inside: bool, mode: DoubledQuote): (r: Scanned)
    ensures |r.token| + |r.rest| <= |s|
    ensures s != "" && (inside || !IsBlank(s[0])) ==> |r.rest| < |s|
    ensures r.rest == "" || IsBlank(r.rest[0])
    decreases |s|
  {
    if s == "" || (!inside && IsBlank(s[0])) then Scanned("", s)
    else if s[0] == '\\' && RunMeetsQuote(s[1..]) then
      Scan(s[2..], inside, mode).Prepend(s[1])
    else if s[0] != '"' then
      Scan(s[1..], inside, mode).Prepend(s[0])
    else if inside && |s| > 1 && s[1] == '"' && !mode.Reopens? then
      Scan(s[2..], mode.LiteralStaysInside?, mode).Prepend('"')
    else
      Scan(s[1..], !inside, mode)
  }

  function SkipBlanks(s: string): (r: string)
    ensures |r| <= |s|
    ensures r == "" || !IsBlank(r[0])
  {
    if s != "" && IsBlank(s[0]) then SkipBlanks(s[1..]) else s
  }

  /** The tokens behind the program name. */
  function SplitArguments(s: string, mode: DoubledQuote): seq<string>
    decreases |s|
  {
    var text := SkipBlanks(s);
    if text == "" then []
    else
      var first := Scan(text, false, mode);
      [first.token] + SplitArguments(first.rest, mode)
  }

  function FirstStop(s: string, stop: char -> bool): (k: nat)
    ensures k <= |s| && forall i :: 0 <= i < k ==> !stop(s[i])
    ensures k < |s| ==> stop(s[k])
  {
    if s == "" || stop(s[0]) then 0 else 1 + FirstStop(s[1..], stop)
  }

  function TakeUntil(s: string, stop: char -> bool): (r: Scanned)
    ensures s == r.token + r.rest
    ensures forall i :: 0 <= i < |r.token| ==> !stop(r.token[i])
    ensures r.rest == "" || stop(r.rest[0])
  {
    var k := FirstStop(s, stop);
    Scanned(s[..k], s[k..])
  }

  /**
   The program name obeys rules of its own: behind a leading quote the text is taken verbatim up
   to the next quote; otherwise the name ends at the first blank.
   */
  function ScanProgram(s: string): Scanned {
    if s != "" && s[0] == '"' then
      var r := TakeUntil(s[1..], c => c == '"');
      if r.rest == "" then r else Scanned(r.token, r.rest[1..])
    else
      TakeUntil(s, c => IsBlank(c))
  }

  /** For the empty string Win32 answers with the path of the executable; the caller excludes it. */
  function CommandLineToArgvW(s: string, mode: DoubledQuote): seq<string>
    requires s != ""
  {
    var program := ScanProgram(s);
    [program.token] + SplitArguments(program.rest, mode)
  }

  predicate AtBoundary(rest: string) {
    rest == "" || IsBlank(rest[0])
  }

  // One step of Scan, by the kind of the character met.

  lemma ScanCopies(c: char, s: string, inside: bool, mode: DoubledQuote)
    requires c != '"' && (inside || !IsBlank(c)) && !(c == '\\' && RunMeetsQuote(s))
    ensures Scan([c] + s, inside, mode) == Scan(s, inside, mode).Prepend(c)
  {
    assert ([c] + s)[1..] == s;
  }

  lemma ScanEscapes(c: char, s: string, inside: bool, mode: DoubledQuote)
    requires RunMeetsQuote([c] + s)
    ensures Scan(['\\', c] + s, inside, mode) == Scan(s, inside, mode).Prepend(c)
  {
    var t := ['\\', c] + s;
    assert t[1..] == [c] + s && t[2..] == s;
  }

  lemma ScanToggles(s: string, inside: bool, mode: DoubledQuote)
    requires s == "" || s[0] != '"' || !inside
    ensures Scan("\"" + s, inside, mode) == Scan(s, !inside, mode)
  {
    var t := "\"" + s;
    assert t[1..] == s;
    assert |t| > 1 ==> t[1] == s[0];
  }

  lemma ScanEnds(s: string, mode: DoubledQuote)
    requires AtBoundary(s)
    ensures Scan(s, false, mode) == Scanned("", s)
  {
  }

  lemma {:induction false} RepeatMeetsQuote(n: nat, rest: string)
    ensures RunMeetsQuote(Repeat('\\', n) + ("\"" + rest))
  {
    if n == 0 {
      assert Repeat('\\', n) + ("\"" + rest) == "\"" + rest;
    } else {
      RepeatMeetsQuote(n - 1, rest);
      RepeatStep('\\', n - 1, "\"" + rest);
    }
  }

  lemma FewBackslashes(s: string, t: string)
    ensures Repeat('\\', 0) + s == s && Repeat('\\', 0) + t == t && Repeat('\\', 1) + s == ['\\'] + s
  {
  }

  /**
   The published rule about 2n and 2n+1 backslashes before a quote: n backslashes come out, and
   the quote is a delimiter in the even case and a literal in the odd one.
   */
  lemma {:induction false} BackslashRule(n: nat, odd: bool, rest: string, inside: bool, mode: DoubledQuote)
    ensures
      var after := if odd then Scan(rest, inside, mode).Prepend('"') else Scan("\"" + rest, inside, mode);
      Scan(Repeat('\\', if odd then 2 * n + 1 else 2 * n) + ("\"" + rest), inside, mode)
      == Scanned(Repeat('\\', n) + after.token, after.rest)
  {
    hide Scan, RunMeetsQuote, Repeat;
    var quoted := "\"" + rest;
    var after := if odd then Scan(rest, inside, mode).Prepend('"') else Scan(quoted, inside, mode);
    if n == 0 {
      FewBackslashes(quoted, after.token);
      if odd {
        assert ['\\'] + quoted == ['\\', '"'] + rest;
        ScanEscapes('"', rest, inside, mode);
      }
    } else {
      var m := if odd then 2 * n - 1 else 2 * n - 2;
      var shorter := Repeat('\\', m) + quoted;
      RepeatStep('\\', m, quoted);
      RepeatStep('\\', m + 1, quoted);
      assert ['\\', '\\'] + shorter == ['\\'] + (['\\'] + shorter);
      RepeatMeetsQuote(m + 1, rest);
      ScanEscapes('\\', shorter, inside, mode);
      BackslashRule(n - 1, odd, rest, inside, mode);
      RepeatStep('\\', n - 1, after.token);
    }
  }

  // ----- One token -----

  /** The body of `arg`, the closing quote, and what follows it. */
  function Closed(arg: string, rest: string): string {
    QuoteBody(arg) + ("\"" + rest)
  }

  lemma ClosedEmpty(rest: string)
    ensures Closed("", rest) == "\"" + rest
  {
  }

  lemma ClosedStep(arg: string, rest: string)
    requires arg != ""
    ensures Closed(arg, rest) ==
            (if arg[0] == '"' || (arg[0] == '\\' && RunMeetsQuoteOrEnd(arg)) then "\\" else "")
            + ([arg[0]] + Closed(arg[1..], rest))
  {
  }

  lemma {:induction false} ClosedMeetsQuote(arg: string, rest: string)
    ensures RunMeetsQuote(Closed(arg, rest)) <==> RunMeetsQuoteOrEnd(arg)
  {
    if arg == "" {
      assert Closed(arg, rest) == "\"" + rest;
    } else {
      ClosedStep(arg, rest);
      ClosedMeetsQuote(arg[1..], rest);
      var tail := [arg[0]] + Closed(arg[1..], rest);
      assert "" + tail == tail;
    }
  }

  /** Inside open quotes the body of any argument comes back exactly, whatever the argument is. */
  lemma {:induction false} ScanUndoesQuoteBody(arg: string, rest: string, mode: DoubledQuote)
    requires AtBoundary(rest)
    ensures Scan(Closed(arg, rest), true, mode) == Scanned(arg, rest)
  {
    hide Scan, RunMeetsQuote, Closed;
    if arg == "" {
      ClosedEmpty(rest);
      ScanEnds(rest, mode);
      ScanToggles(rest, true, mode);
    } else {
      var c, tail := arg[0], Closed(arg[1..], rest);
      ScanUndoesQuoteBody(arg[1..], rest, mode);
      assert Scan(tail, true, mode).Prepend(c) == Scanned(arg, rest) by {
        assert [c] + arg[1..] == arg;
      }
      ClosedStep(arg, rest);
      ClosedMeetsQuote(arg[1..], rest);
      if c == '"' || (c == '\\' && RunMeetsQuoteOrEnd(arg)) {
        assert "\\" + ([c] + tail) == ['\\', c] + tail;
        ScanEscapes(c, tail, true, mode);
      } else {
        assert "" + ([c] + tail) == [c] + tail;
        ScanCopies(c, tail, true, mode);
      }
    }
  }

  predicate IsPlain(text: string) {
    forall i :: 0 <= i < |text| ==> text[i] != '"' && !IsBlank(text[i])
  }

  lemma {:induction false} PlainMeetsNoQuote(text: string, rest: string)
    requires IsPlain(text)
    requires text == "" || text[|text| - 1] == '\\' ==> !RunMeetsQuote(rest)
    ensures !RunMeetsQuote(text + rest)
  {
    if text == "" {
      assert text + rest == rest;
    } else {
      assert text + rest == [text[0]] + (text[1..] + rest);
      if text[0] == '\\' {
        PlainMeetsNoQuote(text[1..], rest);
      }
    }
  }

  /** Text without quotes or blanks is copied as it stands, unless its last backslashes meet a quote. */
  lemma {:induction false} ScanPlain(text: string, rest: string, mode: DoubledQuote)
    requires IsPlain(text)
    requires text != "" && text[|text| - 1] == '\\' ==> !RunMeetsQuote(rest)
    ensures Scan(text + rest, false, mode)
            == Scanned(text + Scan(rest, false, mode).token, Scan(rest, false, mode).rest)
  {
    hide Scan;
    var after := Scan(rest, false, mode);
    if text == "" {
      assert text + rest == rest;
      assert text + after.token == after.token;
    } else {
      var c, tail := text[0], text[1..] + rest;
      ScanPlain(text[1..], rest, mode);
      assert Scan(tail, false, mode).Prepend(c) == Scanned(text + after.token, after.rest) by {
        assert [c] + (text[1..] + after.token) == text + after.token;
      }
      assert text + rest == [c] + tail;
      if c == '\\' {
        PlainMeetsNoQuote(text[1..], rest);
      }
      ScanCopies(c, tail, false, mode);
    }
  }

  /** The tokens that quoting really protects: the empty one and a bare tab are missed. */
  predicate SurvivesQuoting(arg: string) {
    arg != "" && ('\t' in arg ==> NeedsQuotes(arg))
  }

  /** A quoted value is read back behind any plain prefix (empty, or a switch name and its `=`). */
  lemma ScanUndoesQuote(prefix: string, arg: string, rest: string, mode: DoubledQuote)
    requires IsPlain(prefix)
    requires prefix != "" ==> prefix[|prefix| - 1] != '\\'
    requires SurvivesQuoting(arg)
    requires AtBoundary(rest)
    ensures Scan(prefix + Quote(arg) + rest, false, mode) == Scanned(prefix + arg, rest)
  {
    hide Scan, QuoteBody, NeedsQuotes;
    if NeedsQuotes(arg) {
      var body := Closed(arg, rest);
      assert prefix + Quote(arg) + rest == prefix + ("\"" + body);
      ScanUndoesQuoteBody(arg, rest, mode);
      ScanToggles(body, false, mode);
      ScanPlain(prefix, "\"" + body, mode);
    } else {
      UnquotedIsPlain(arg);
      ScanEnds(rest, mode);
      ScanPlain(prefix + arg, rest, mode);
      assert prefix + arg + "" == prefix + arg;
    }
  }

  lemma UnquotedIsPlain(arg: string)
    requires !NeedsQuotes(arg)
    ensures '\t' !in arg ==> IsPlain(arg)
    ensures '\\' !in arg && '"' !in arg
  {
    forall i | 0 <= i < |arg| ensures arg[i] != '"' && arg[i] != ' ' && arg[i] != '\\' {
      assert !ForcesQuotes(arg[i]);
    }
  }

  /**
   "Note that the argument is quoted properly such that it is interpreted as one argument to the
   target command." This holds of an argument exactly when it survives quoting: a token that is
   empty, or that holds a tab and nothing that forces quotes, is lost or torn apart.
   */
  lemma QuotedArgumentIsOneArgument(arg: string, mode: DoubledQuote)
    ensures SplitArguments(Quote(arg), mode) == [arg] <==> SurvivesQuoting(arg)
  {
    var text := SkipBlanks(Quote(arg));
    if SurvivesQuoting(arg) {
      SurvivorStartsSolid(arg);
      ScanUndoesQuote("", arg, "", mode);
      assert "" + Quote(arg) + "" == Quote(arg) && "" + arg == arg;
    } else if arg != "" && SplitArguments(arg, mode) == [arg] {
      var first := Scan(text, false, mode);
      assert ([first.token] + SplitArguments(first.rest, mode))[0] == first.token;
      TornAtTab(arg, mode);
    }
  }

  lemma SurvivorStartsSolid(arg: string)
    requires SurvivesQuoting(arg)
    ensures Quote(arg) != "" && !IsBlank(Quote(arg)[0])
  {
    if !NeedsQuotes(arg) {
      UnquotedIsPlain(arg);
      assert arg[0] in arg;
    }
  }

  /** An unquoted tab ends the token before it. */
  lemma {:induction false} TornAtTab(arg: string, mode: DoubledQuote)
    requires !NeedsQuotes(arg) && '\t' in arg
    ensures |Scan(arg, false, mode).token| < |arg|
  {
    UnquotedIsPlain(arg);
    var t := TakeUntil(arg, c => IsBlank(c));
    forall i | 0 <= i < |t.token| ensures t.token[i] != '"' {
      assert arg[i] in arg && arg[i] == t.token[i];
    }
    assert |t.token| > 0 ==> t.token[|t.token| - 1] == arg[|t.token| - 1] && arg[|t.token| - 1] in arg;
    ScanPlain(t.token, t.rest, mode);
    assert t.token + "" == t.token;
  }
}
