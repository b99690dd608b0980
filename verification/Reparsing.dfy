/**
 Building an object from the tokens of another, and from its printed line.
 */
module Reparsing {
  import opened Wrappers
  import opened Text
  import opened Quoting
  import opened CommandLineModel
  import opened TokenRoundTrip
  import opened CommandLineProofs

  /** The source checks (in debug builds) that switch names are ASCII. */
  predicate AsciiNames(switches: seq<Switch>) {
    forall i :: 0 <= i < |switches| ==> IsAscii(switches[i].name)
  }

  /**
   The switch was written with an `=` and no value, and what is stored of it is no switch token
   any more (a bare prefix) or is trimmed by the next parse.
   */
  predicate Collapses(sw: Switch) {
    sw.value == "" && (|sw.name| == SwitchPrefixLength(sw.name) || !IsTrimmed(sw.name))
  }

  predicate NoneCollapse(switches: seq<Switch>) {
    forall i :: 0 <= i < |switches| ==> !Collapses(switches[i])
  }

  function SwitchesOf(argv: seq<string>): seq<Switch>
    requires argv != []
  {
    SwitchPart(TrimAll(argv[1..]), true)
  }

  // ----- Where parsed switches come from -----

  /** What holds of every switch parsed from a trimmed token. */
  predicate FromTrimmedToken(sw: Switch) {
    && '=' !in sw.name && sw.name != ""
    && SwitchPrefixLength(sw.name) > 0
    && !IsWhitespace(sw.name[0])
    && (sw.value != "" ==> !IsWhitespace(sw.value[|sw.value| - 1]))
  }

  lemma ParsedFromTrimmed(token: string)
    requires IsTrimmed(token) && ParseSwitch(token).Some?
    ensures FromTrimmedToken(ParseSwitch(token).value)
  {
    ParseSwitchShape(token);
    var sw := ParseSwitch(token).value;
    assert sw.name[0] == token[0];
    assert sw.value != "" ==> sw.value[|sw.value| - 1] == token[|token| - 1];
  }

  lemma {:induction false} SwitchesAreFromTrimmed(args: seq<string>)
    requires forall i :: 0 <= i < |args| ==> IsTrimmed(args[i])
    ensures forall i :: 0 <= i < |SwitchesIn(args)| ==> FromTrimmedToken(SwitchesIn(args)[i])
  {
    hide ParseSwitch, FromTrimmedToken, IsTrimmed;
    if args != [] {
      assert forall i :: 0 <= i < |args[1..]| ==> args[1..][i] == args[i + 1];
      SwitchesAreFromTrimmed(args[1..]);
      if ParseSwitch(args[0]).Some? {
        ParsedFromTrimmed(args[0]);
      }
    }
  }

  lemma TrimAllIsTrimmed(tokens: seq<string>)
    ensures forall i :: 0 <= i < |tokens| ==> IsTrimmed(TrimAll(tokens)[i])
  {
    forall i | 0 <= i < |tokens| ensures IsTrimmed(TrimAll(tokens)[i]) {
      TrimIsTrimmed(tokens[i]);
    }
  }

  lemma AsciiFull(name: string)
    requires IsAscii(name) && SwitchPrefixLength(name) > 0
    ensures Narrow(name) == name && IsNarrow(name) && Full(name) == Lower(name)
    ensures SwitchKey(name) == Lower(name)[SwitchPrefixLength(name)..]
  {
    AsciiSurvivesNarrowing(name);
    AsciiSurvivesNarrowing(Lower(name));
    WideName(name);
  }

  lemma LowerKeepsWhitespace(c: char)
    ensures IsWhitespace(ToLowerAscii(c)) <==> IsWhitespace(c)
  {
  }

  /** The stored token is trimmed exactly when the switch does not end in whitespace. */
  lemma StoredIsTrimmed(sw: Switch)
    requires FromTrimmedToken(sw) && IsAscii(sw.name)
    ensures StoredToken(sw) == SwitchToken(Switch(Lower(sw.name), sw.value))
    ensures IsTrimmed(StoredToken(sw)) <==> sw.value != "" || IsTrimmed(sw.name)
    ensures CleanEntry(Narrow(sw.name), sw.value) <==> sw.value != "" || |sw.name| != SwitchPrefixLength(sw.name)
  {
    hide IsWhitespace, ToLowerAscii, StoredSwitch, Narrow, SwitchKey;
    AsciiFull(sw.name);
    StoredSwitchParts(sw.name, sw.value);
    LowerKeepsWhitespace(sw.name[0]);
    LowerKeepsWhitespace(sw.name[|sw.name| - 1]);
    var token := StoredToken(sw);
    assert token[0] == ToLowerAscii(sw.name[0]);
    assert sw.value != "" ==> token[|token| - 1] == sw.value[|sw.value| - 1];
  }

  // ----- Parsing the stored tokens again -----

  lemma {:induction false} ArgPartIsStable(args: seq<string>, parse: bool)
    ensures SwitchPart(ArgPart(args, parse), parse) == []
    ensures ArgPart(ArgPart(args, parse), parse) == ArgPart(args, parse)
  {
    hide ParseSwitch, SwitchPart, ArgPart;
    if !parse || args == [] || args[0] == TERMINATOR {
      PartsStop(args, parse);
    } else {
      PartsStep(args);
      ArgPartIsStable(args[1..], true);
      var more := ArgPart(args[1..], true);
      if ParseSwitch(args[0]).Some? {
        assert [] + more == more;
      } else {
        var all := [args[0]] + more;
        assert all[1..] == more;
        PartsStep(all);
        assert [] + SwitchPart(more, true) == SwitchPart(more, true);
      }
    }
  }

  /** A token that is stored as it stands when it is parsed. */
  predicate Stable(token: string) {
    && IsTrimmed(token) && token != TERMINATOR
    && ParseSwitch(token).Some? && StoredToken(ParseSwitch(token).value) == token
  }

  lemma {:induction false} StableTokensComeBack(tokens: seq<string>, args: seq<string>)
    requires forall i :: 0 <= i < |tokens| ==> Stable(tokens[i])
    requires SwitchPart(args, true) == [] && ArgPart(args, true) == args
    ensures SwitchPart(tokens + args, true) == SwitchesIn(tokens)
    ensures ArgPart(tokens + args, true) == args
    ensures StoredTokens(SwitchesIn(tokens)) == tokens
  {
    hide ParseSwitch, SwitchPart, ArgPart, StoredToken, IsTrimmed;
    if tokens == [] {
      assert tokens + args == args;
    } else {
      assert (tokens + args)[1..] == tokens[1..] + args;
      StableTokensComeBack(tokens[1..], args);
      PartsStep(tokens + args);
      assert [] + args == args;
      var sw := ParseSwitch(tokens[0]).value;
      assert ([sw] + SwitchesIn(tokens[1..]))[1..] == SwitchesIn(tokens[1..]);
      assert [tokens[0]] + tokens[1..] == tokens;
    }
  }

  lemma {:induction false} SameStore(m: map<string, string>, a: seq<Switch>, b: seq<Switch>)
    requires |a| == |b|
    requires forall i :: 0 <= i < |a| ==> a[i].value == b[i].value && SwitchKey(Narrow(a[i].name)) == SwitchKey(Narrow(b[i].name))
    ensures StoreAll(m, a) == StoreAll(m, b)
    decreases |a|
  {
    hide SwitchKey;
    if a != [] {
      SameStore(m[SwitchKey(Narrow(a[0].name)) := a[0].value], a[1..], b[1..]);
    }
  }

  lemma StoredIsStable(sw: Switch)
    requires FromTrimmedToken(sw) && IsAscii(sw.name) && !Collapses(sw)
    ensures Stable(StoredToken(sw))
    ensures var again := ParseSwitch(StoredToken(sw)).value;
            again.value == sw.value && SwitchKey(Narrow(again.name)) == SwitchKey(Narrow(sw.name))
  {
    hide StoredSwitch, Narrow, SwitchKey, ParseSwitch;
    AsciiFull(sw.name);
    StoredIsTrimmed(sw);
    ParseStored(sw.name, sw.value);
    StoredName(sw.name);
    StoredSwitchParts(sw.name, sw.value);
    StoredSwitchParts(Narrow(Full(sw.name)), sw.value);
  }

  lemma {:induction false} StoredTokensAt(switches: seq<Switch>, i: nat)
    requires i < |switches|
    ensures StoredTokens(switches)[i] == StoredToken(switches[i])
  {
    hide StoredToken;
    if i > 0 {
      StoredTokensAt(switches[1..], i - 1);
    }
  }

  lemma {:induction false} SwitchesInAt(tokens: seq<string>)
    requires forall k :: 0 <= k < |tokens| ==> ParseSwitch(tokens[k]).Some?
    ensures |SwitchesIn(tokens)| == |tokens|
    ensures forall k :: 0 <= k < |tokens| ==> ParseSwitch(tokens[k]) == Some(SwitchesIn(tokens)[k])
  {
    hide ParseSwitch;
    if tokens != [] {
      SwitchesInAt(tokens[1..]);
    }
  }

  lemma TrimAllFixes(tokens: seq<string>)
    requires forall i :: 0 <= i < |tokens| ==> IsTrimmed(tokens[i])
    ensures TrimAll(tokens) == tokens
  {
    forall i | 0 <= i < |tokens| ensures TrimAll(tokens)[i] == tokens[i] {
      TrimFixesTrimmed(tokens[i]);
    }
  }

  lemma {:induction false} ArgPartComesFrom(args: seq<string>)
    ensures forall a :: a in ArgPart(args, true) ==> a in args
  {
    NonSwitchesKeep(args[..Terminator(args)]);
  }

  lemma FreshParts(argv: seq<string>)
    requires argv != []
    ensures forall i :: 0 <= i < |SwitchesOf(argv)| ==> FromTrimmedToken(SwitchesOf(argv)[i])
    ensures forall a :: a in ArgPart(TrimAll(argv[1..]), true) ==> IsTrimmed(a)
  {
    var args := TrimAll(argv[1..]);
    TrimAllIsTrimmed(argv[1..]);
    SwitchesAreFromTrimmed(args[..Terminator(args)]);
    ArgPartComesFrom(args);
  }

  lemma {:induction false} NormalisedForwards(argv: seq<string>)
    requires argv != [] && AsciiNames(SwitchesOf(argv)) && NoneCollapse(SwitchesOf(argv))
    ensures FromArgv(FromArgv(argv).argv) == FromArgv(argv)
  {
    hide SwitchPart, ArgPart, StoredTokens, StoreAll, FromTrimmedToken, IsTrimmed, StoredToken, Collapses, SwitchesIn,
      InitFromArgv, Stable, ParseSwitch, SwitchKey;
    var switches, rest := SwitchesOf(argv), ArgPart(TrimAll(argv[1..]), true);
    var stored := StoredTokens(switches);
    var l := FromArgv(argv);
    FreshLine(argv);
    FreshParts(argv);
    forall i | 0 <= i < |switches|
      ensures stored[i] == StoredToken(switches[i]) && Stable(stored[i]) && IsTrimmed(stored[i])
      ensures ParseSwitch(stored[i]).Some?
    {
      StoredTokensAt(switches, i);
      StoredIsStable(switches[i]);
      StableIsTrimmed(stored[i]);
    }
    assert l.argv[1..] == stored + rest;
    TrimAllFixes(stored + rest);
    ArgPartIsStable(TrimAll(argv[1..]), true);
    StableTokensComeBack(stored, rest);
    SwitchesInAt(stored);
    forall i | 0 <= i < |switches|
      ensures SwitchesIn(stored)[i].value == switches[i].value
      ensures SwitchKey(Narrow(SwitchesIn(stored)[i].name)) == SwitchKey(Narrow(switches[i].name))
    {
      StoredIsStable(switches[i]);
    }
    SameStore(map[], SwitchesIn(stored), switches);
    FreshLine(l.argv);
    TrimIsTrimmed(argv[0]);
    TrimFixesTrimmed(Trim(argv[0]));
  }

  lemma StableIsTrimmed(token: string)
    requires Stable(token)
    ensures IsTrimmed(token) && ParseSwitch(token).Some?
  {
  }

  lemma {:induction false} SwitchesBefore(tokens: seq<string>, args: seq<string>)
    requires SwitchPart(args, true) == []
    ensures var found := SwitchPart(tokens + args, true);
            && |found| <= |tokens|
            && (|found| == |tokens| ==>
                  found == SwitchesIn(tokens) && forall i :: 0 <= i < |tokens| ==> ParseSwitch(tokens[i]).Some?)
  {
    hide ParseSwitch, SwitchPart;
    var all := tokens + args;
    if tokens == [] {
      assert all == args;
    } else if tokens[0] == TERMINATOR {
      PartsStop(all, true);
    } else {
      assert all[1..] == tokens[1..] + args;
      PartsStep(all);
      SwitchesBefore(tokens[1..], args);
      var more := SwitchPart(tokens[1..] + args, true);
      assert [] + more == more;
      assert forall i :: 0 < i < |tokens| ==> tokens[i] == tokens[1..][i - 1];
    }
  }

  lemma StoredIsNoLonger(token: string)
    requires ParseSwitch(token).Some?
    ensures |StoredToken(ParseSwitch(token).value)| <= |token|
  {
    ParseSwitchShape(token);
    var sw := ParseSwitch(token).value;
    var wide := Widen(Lower(Narrow(sw.name)));
    assert wide[0] == sw.name[0];
    assert |SwitchToken(sw)| <= |token|;
  }

  lemma TrimKeepsLength(s: string)
    requires |Trim(s)| >= |s|
    ensures IsTrimmed(s)
  {
    assert |TrimLeft(s)| == |s|;
  }

  lemma NormalisedBackwards(argv: seq<string>)
    requires argv != [] && AsciiNames(SwitchesOf(argv))
    requires FromArgv(FromArgv(argv).argv) == FromArgv(argv)
    ensures NoneCollapse(SwitchesOf(argv))
  {
    hide SwitchPart, ArgPart, StoredTokens, StoreAll, FromTrimmedToken, IsTrimmed, StoredToken, Collapses, SwitchesIn,
      InitFromArgv, ParseSwitch, CleanEntry, Trim;
    var switches, rest := SwitchesOf(argv), ArgPart(TrimAll(argv[1..]), true);
    var stored := StoredTokens(switches);
    var l := FromArgv(argv);
    FreshLine(argv);
    FreshParts(argv);
    FreshLine(l.argv);
    assert l.argv[1..] == stored + rest;
    TrimAllFixes(rest);
    var trimmed := TrimAll(stored);
    assert TrimAll(stored + rest) == trimmed + rest;
    ArgPartIsStable(TrimAll(argv[1..]), true);
    SwitchesBefore(trimmed, rest);
    var found := SwitchPart(trimmed + rest, true);
    assert |found| == |switches|;
    assert StoredTokens(found) == l.argv[1..l.beginArgs] == stored;
    SwitchesInAt(trimmed);
    forall i | 0 <= i < |switches| ensures !Collapses(switches[i]) {
      StoredTokensAt(found, i);
      StoredTokensAt(switches, i);
      StoredIsNoLonger(trimmed[i]);
      NoCollapseIfKept(switches[i]);
    }
  }

  lemma NoCollapseIfKept(sw: Switch)
    requires FromTrimmedToken(sw) && IsAscii(sw.name)
    requires |Trim(StoredToken(sw))| >= |StoredToken(sw)|
    requires ParseSwitch(Trim(StoredToken(sw))).Some?
    ensures !Collapses(sw)
  {
    hide Trim, ParseSwitch, IsTrimmed, StoredSwitch;
    TrimKeepsLength(StoredToken(sw));
    TrimFixesTrimmed(StoredToken(sw));
    StoredIsTrimmed(sw);
    AsciiFull(sw.name);
    ParseStored(sw.name, sw.value);
  }

  /**
   Normalising is idempotent: an object built from the argv() of a fresh one is the same object,
   if and only if no switch of the first vector collapses.
   */
  lemma NormalisingIsIdempotent(argv: seq<string>)
    requires argv != [] && AsciiNames(SwitchesOf(argv))
    ensures FromArgv(FromArgv(argv).argv) == FromArgv(argv) <==> NoneCollapse(SwitchesOf(argv))
  {
    if NoneCollapse(SwitchesOf(argv)) {
      NormalisedForwards(argv);
    }
    if FromArgv(FromArgv(argv).argv) == FromArgv(argv) {
      NormalisedBackwards(argv);
    }
  }

  // ----- Printing and parsing the object -----

  lemma QuoteEnds(s: string)
    requires s != "" && IsTrimmed(s)
    ensures Quote(s) != "" && IsTrimmed(Quote(s))
  {
  }

  lemma PrintedTokenEnds(token: string, parse: bool)
    requires token != "" && IsTrimmed(token) && CleanToken(token, parse)
    ensures PrintToken(token, parse) != ""
    ensures !IsWhitespace(PrintToken(token, parse)[|PrintToken(token, parse)| - 1])
  {
    hide IsWhitespace, QuoteBody, ParseSwitch, IsPlain, NeedsQuotes;
    if PrintsAsSwitch(token, parse) {
      ParseSwitchShape(token);
      var sw := ParseSwitch(token).value;
      if sw.value == "" {
        assert PrintToken(token, parse) == token;
      } else {
        assert sw.value[|sw.value| - 1] == token[|token| - 1];
        var q := Quote(sw.value);
        assert NeedsQuotes(sw.value) ==> q[|q| - 1] == '"';
        QuoteMark();
        assert PrintToken(token, parse) == sw.name + "=" + q;
      }
    } else {
      QuoteEnds(token);
    }
  }

  lemma QuoteMark()
    ensures !IsWhitespace('"')
  {
  }

  lemma {:induction false} PrintedTokensEnd(tokens: seq<string>, parse: bool)
    requires tokens != [] && CleanTokens(tokens, parse)
    requires forall i :: 0 <= i < |tokens| ==> IsTrimmed(tokens[i])
    ensures var s := PrintTokens(tokens, parse); s != "" && !IsWhitespace(s[|s| - 1])
  {
    hide PrintToken, CleanToken, IsTrimmed, IsWhitespace;
    CleanIsSomething(tokens[0], parse);
    PrintedTokenEnds(tokens[0], parse);
    if |tokens| > 1 {
      PrintedTokensEnd(tokens[1..], parse && tokens[0] != TERMINATOR);
    } else {
      assert PrintTokens(tokens, parse) == PrintToken(tokens[0], parse) + "";
    }
  }

  lemma CleanIsSomething(token: string, parse: bool)
    requires CleanToken(token, parse)
    ensures token != ""
  {
  }

  lemma PrintedLineIsTrimmed(argv: seq<string>)
    requires argv != [] && argv[0] != "" && IsTrimmed(argv[0])
    requires CleanTokens(argv[1..], true)
    requires forall i :: 0 <= i < |argv| ==> IsTrimmed(argv[i])
    ensures PrintLine(argv) != "" && IsTrimmed(PrintLine(argv))
  {
    hide Quote, IsWhitespace, CleanTokens, PrintTokens;
    QuoteEnds(argv[0]);
    if |argv| > 1 {
      PrintedTokensEnd(argv[1..], true);
    } else {
      assert argv[1..] == [];
      NothingPrinted();
      assert Quote(argv[0]) + "" == Quote(argv[0]);
    }
  }

  lemma NothingPrinted()
    ensures PrintTokens([], true) == ""
  {
  }

  lemma CleanObjectComesBack(argv: seq<string>, mode: DoubledQuote)
    requires argv != [] && AsciiNames(SwitchesOf(argv)) && NoneCollapse(SwitchesOf(argv))
    requires var l := FromArgv(argv);
             l.argv[0] != "" && CleanProgram(l.argv[0]) && CleanTokens(l.argv[1..], true)
    ensures ParseFromString(EMPTY, GetCommandLineString(FromArgv(argv)), mode) == FromArgv(argv)
  {
    hide SwitchPart, ArgPart, StoredTokens, StoreAll, FromTrimmedToken, IsTrimmed, StoredToken, Collapses,
      InitFromArgv, CleanProgram, CleanTokens, PrintLine, CommandLineToArgvW, Trim, ParseSwitch;
    var l := FromArgv(argv);
    FreshLine(argv);
    FreshParts(argv);
    var switches := SwitchesOf(argv);
    TrimIsTrimmed(argv[0]);
    forall i | 0 <= i < |l.argv| ensures IsTrimmed(l.argv[i]) {
      if 1 <= i < l.beginArgs {
        StoredTokensAt(switches, i - 1);
        StoredIsStable(switches[i - 1]);
        StableIsTrimmed(StoredToken(switches[i - 1]));
      } else if i > 0 {
        assert l.argv[i] in ArgPart(TrimAll(argv[1..]), true);
      }
    }
    PrintedLineIsTrimmed(l.argv);
    TrimFixesTrimmed(PrintLine(l.argv));
    SplittingUndoesPrinting(l.argv, mode);
    NormalisedForwards(argv);
  }

  // ----- From the tokens that the caller gives -----

  lemma LowerIsPlain(name: string)
    requires IsPlain(name) && '=' !in name
    ensures IsPlain(Lower(name)) && '=' !in Lower(name)
  {
    forall i | 0 <= i < |name| ensures Lower(name)[i] != '"' && !IsBlank(Lower(name)[i]) && Lower(name)[i] != '=' {
      assert name[i] in name;
    }
  }

  /** What is stored of a clean switch is a clean switch token again. */
  lemma CleanSwitchIsStoredClean(token: string)
    requires IsTrimmed(token) && ParseSwitch(token).Some? && CleanToken(token, true) && IsAscii(ParseSwitch(token).value.name)
    ensures var sw := ParseSwitch(token).value;
            !Collapses(sw) && StoredToken(sw) != TERMINATOR && CleanToken(StoredToken(sw), true)
  {
    hide IsPlain, SurvivesQuoting, ParseSwitch, Narrow, StoredSwitch;
    ParsedFromTrimmed(token);
    var sw := ParseSwitch(token).value;
    ParseSwitchShape(token);
    NotABarePrefix(token);
    AsciiFull(sw.name);
    StoredIsTrimmed(sw);
    StoredSwitchParts(sw.name, sw.value);
    ParseStored(sw.name, sw.value);
    LowerIsPlain(sw.name);
  }

  lemma NotABarePrefix(token: string)
    requires ParseSwitch(token).Some?
    ensures '=' !in token ==> |ParseSwitch(token).value.name| != SwitchPrefixLength(ParseSwitch(token).value.name)
  {
    ParseSwitchShape(token);
  }

  /** The parts that a clean vector is sorted into are clean. */
  lemma {:induction false} CleanParts(args: seq<string>, parse: bool)
    requires CleanTokens(args, parse) && AsciiNames(SwitchPart(args, parse))
    requires forall i :: 0 <= i < |args| ==> IsTrimmed(args[i])
    ensures CleanTokens(ArgPart(args, parse), parse)
    ensures forall sw :: sw in SwitchPart(args, parse) ==>
              !Collapses(sw) && StoredToken(sw) != TERMINATOR && CleanToken(StoredToken(sw), true)
  {
    hide CleanToken, ParseSwitch, SwitchPart, ArgPart, IsTrimmed, Collapses, StoredToken;
    if !parse || args == [] || args[0] == TERMINATOR {
      PartsStop(args, parse);
    } else {
      PartsStep(args);
      var switches, more := SwitchPart(args[1..], true), ArgPart(args[1..], true);
      assert forall i :: 0 <= i < |args[1..]| ==> args[1..][i] == args[i + 1];
      forall i | 0 <= i < |switches| ensures IsAscii(switches[i].name) {
        assert switches[i] in SwitchPart(args, true);
      }
      CleanParts(args[1..], true);
      if ParseSwitch(args[0]).Some? {
        assert SwitchPart(args, true)[0] == ParseSwitch(args[0]).value;
        CleanSwitchIsStoredClean(args[0]);
        assert [] + more == more;
      } else {
        assert ([args[0]] + more)[1..] == more;
      }
    }
  }

  lemma OneInFront(x: string, xs: seq<string>, more: seq<string>)
    ensures ([x] + xs) + more == [x] + (xs + more)
  {
  }

  lemma {:induction false} StoredInFront(switches: seq<Switch>, args: seq<string>)
    requires CleanTokens(args, true)
    requires forall sw :: sw in switches ==> StoredToken(sw) != TERMINATOR && CleanToken(StoredToken(sw), true)
    ensures CleanTokens(StoredTokens(switches) + args, true)
  {
    if switches == [] {
      assert StoredTokens(switches) + args == args;
    } else {
      hide CleanToken, CleanTokens, StoredToken, StoredTokens;
      StoredInFront(switches[1..], args);
      OneInFront(StoredToken(switches[0]), StoredTokens(switches[1..]), args);
    }
  }

  /**
   For every vector whose trimmed program and tokens are clean: parsing the printed line of the
   object built from it gives an object with the same argv_, begin_args_ and switches_, however
   doubled quotes are read.
   */
  lemma ParsingUndoesPrinting(argv: seq<string>, mode: DoubledQuote)
    requires argv != [] && Trim(argv[0]) != "" && CleanProgram(Trim(argv[0]))
    requires CleanTokens(TrimAll(argv[1..]), true) && AsciiNames(SwitchesOf(argv))
    ensures ParseFromString(EMPTY, GetCommandLineString(FromArgv(argv)), mode) == FromArgv(argv)
  {
    hide SwitchPart, ArgPart, StoredTokens, StoreAll, IsTrimmed, StoredToken, Collapses, FromArgv, CleanProgram,
      CleanTokens, ParseFromString, GetCommandLineString, Trim, CleanToken;
    var args := TrimAll(argv[1..]);
    TrimAllIsTrimmed(argv[1..]);
    CleanParts(args, true);
    FreshLine(argv);
    var switches := SwitchesOf(argv);
    StoredInFront(switches, ArgPart(args, true));
    var l := FromArgv(argv);
    assert l.argv[1..] == StoredTokens(switches) + ArgPart(args, true);
    assert forall i :: 0 <= i < |switches| ==> switches[i] in switches;
    CleanObjectComesBack(argv, mode);
  }

  lemma BarePrefixParses()
    ensures ParseSwitch("--=") == Some(Switch("--", ""))
  {
    var s := "--=";
    var k := FindEquals(s);
    assert s[2] == '=' && s[..3][2] == '=';
    assert s[..2] == "--" && s[3..] == "";
  }

  /** "--=" is stored as "--", which the next parse takes for the terminator. */
  lemma BarePrefixCollapses()
    ensures FromArgv(FromArgv(["p", "--="]).argv) != FromArgv(["p", "--="])
  {
    hide FromArgv;
    var argv := ["p", "--="];
    assert argv[1..] == ["--="];
    assert !IsWhitespace('-') && !IsWhitespace('=');
    assert IsTrimmed("--=");
    TrimFixesTrimmed("--=");
    assert TrimAll(argv[1..]) == ["--="];
    BarePrefixParses();
    PartsStop([], true);
    assert ["--="][1..] == [] && |"--="| != |TERMINATOR|;
    PartsStep(["--="]);
    assert SwitchesOf(argv) == [Switch("--", "")];
    assert Collapses(SwitchesOf(argv)[0]);
    NormalisingIsIdempotent(argv);
  }
}
