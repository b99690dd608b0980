/**
 What AppendSwitchesAndArguments makes of a token vector, and what a stored switch parses back to.
 */
module CommandLineProofs {
  import opened Wrappers
  import opened Text
  import opened Quoting
  import opened CommandLineModel
  import opened TokenRoundTrip

  // ----- Parsing is a stable partition -----

  function TrimAll(tokens: seq<string>): (r: seq<string>)
    ensures |r| == |tokens| && forall i :: 0 <= i < |r| ==> r[i] == Trim(tokens[i])
  {
    seq(|tokens|, i requires 0 <= i < |tokens| => Trim(tokens[i]))
  }

  /** The index of the first "--", or the length. */
  function Terminator(args: seq<string>): (k: nat)
    ensures k <= |args| && "--" !in args[..k]
    ensures k < |args| ==> args[k] == "--"
  {
    if args == [] || args[0] == TERMINATOR then 0 else 1 + Terminator(args[1..])
  }

  function SwitchesIn(args: seq<string>): seq<Switch> {
    if args == [] then []
    else if ParseSwitch(args[0]).None? then SwitchesIn(args[1..])
    else [ParseSwitch(args[0]).value] + SwitchesIn(args[1..])
  }

  function NonSwitchesIn(args: seq<string>): seq<string> {
    if args == [] then []
    else if ParseSwitch(args[0]).Some? then NonSwitchesIn(args[1..])
    else [args[0]] + NonSwitchesIn(args[1..])
  }

  function StoredToken(sw: Switch): string {
    SwitchToken(StoredSwitch(Narrow(sw.name), sw.value))
  }

  function StoredTokens(switches: seq<Switch>): (r: seq<string>)
    ensures |r| == |switches|
  {
    if switches == [] then [] else [StoredToken(switches[0])] + StoredTokens(switches[1..])
  }

  /** Later switches win. */
  function StoreAll(m: map<string, string>, switches: seq<Switch>): map<string, string>
    decreases |switches|
  {
    if switches == [] then m
    else StoreAll(m[SwitchKey(Narrow(switches[0].name)) := switches[0].value], switches[1..])
  }

  /** The object with these switches behind its own and these arguments at the end. */
  function Extended(l: Line, switches: seq<Switch>, args: seq<string>): Line
    requires l.Valid()
  {
    Line(l.argv[..l.beginArgs] + StoredTokens(switches) + l.argv[l.beginArgs..] + args,
         l.beginArgs + |switches|,
         StoreAll(l.switches, switches))
  }

  lemma ExtendedByNothing(l: Line, args: seq<string>)
    requires l.Valid()
    ensures Extended(l, [], args) == l.(argv := l.argv + args)
  {
    assert l.argv[..l.beginArgs] + [] + l.argv[l.beginArgs..] == l.argv;
  }

  lemma ExtendedBySwitch(l: Line, sw: Switch, switches: seq<Switch>, args: seq<string>)
    requires l.Valid()
    ensures Extended(AppendSwitch(l, Narrow(sw.name), sw.value), switches, args) == Extended(l, [sw] + switches, args)
  {
    hide StoredSwitch, SwitchKey, SwitchToken;
    var l' := AppendSwitch(l, Narrow(sw.name), sw.value);
    var before, after, token := l.argv[..l.beginArgs], l.argv[l.beginArgs..], StoredToken(sw);
    assert l'.argv[..l'.beginArgs] == before + [token] && l'.argv[l'.beginArgs..] == after;
    assert ([sw] + switches)[1..] == switches;
    assert (before + [token]) + StoredTokens(switches) == before + ([token] + StoredTokens(switches));
  }

  lemma ExtendedByArg(l: Line, arg: string, switches: seq<Switch>, args: seq<string>)
    requires l.Valid()
    ensures Extended(AppendArg(l, arg), switches, args) == Extended(l, switches, [arg] + args)
  {
    var before, after, stored := l.argv[..l.beginArgs], l.argv[l.beginArgs..], StoredTokens(switches);
    var l' := AppendArg(l, arg);
    assert l'.argv[..l.beginArgs] == before && l'.argv[l.beginArgs..] == after + [arg];
    assert before + stored + (after + [arg]) + args == before + stored + after + ([arg] + args);
  }

  /** The tokens that are parsed as switches, and the rest, of a trimmed vector. */
  function SwitchPart(args: seq<string>, parse: bool): seq<Switch> {
    SwitchesIn(args[..if parse then Terminator(args) else 0])
  }

  function ArgPart(args: seq<string>, parse: bool): seq<string> {
    var k := if parse then Terminator(args) else 0;
    NonSwitchesIn(args[..k]) + args[k..]
  }

  lemma PartsStop(args: seq<string>, parse: bool)
    requires !parse || args == [] || args[0] == TERMINATOR
    ensures SwitchPart(args, parse) == [] && ArgPart(args, parse) == args
  {
    assert args[..0] == [] && args[0..] == args;
  }

  lemma PartsStep(args: seq<string>)
    requires args != [] && args[0] != TERMINATOR
    ensures var sw := ParseSwitch(args[0]);
            && SwitchPart(args, true) == (if sw.Some? then [sw.value] else []) + SwitchPart(args[1..], true)
            && ArgPart(args, true) == (if sw.Some? then [] else [args[0]]) + ArgPart(args[1..], true)
  {
    hide ParseSwitch;
    var k := Terminator(args);
    var more := args[1..][..k - 1];
    assert args[..k][0] == args[0] && args[..k][1..] == more && args[k..] == args[1..][k - 1..];
    assert [] + SwitchesIn(more) == SwitchesIn(more);
    assert ([args[0]] + NonSwitchesIn(more)) + args[k..] == [args[0]] + (NonSwitchesIn(more) + args[k..]);
    assert [] + (NonSwitchesIn(more) + args[k..]) == NonSwitchesIn(more) + args[k..];
  }

  lemma {:induction false} AppendingPartitions(l: Line, tokens: seq<string>, parse: bool)
    requires l.Valid()
    ensures var args := TrimAll(tokens);
            AppendTokens(l, tokens, parse) == Extended(l, SwitchPart(args, parse), ArgPart(args, parse))
    decreases |tokens|
  {
    hide Extended, ParseSwitch, SwitchPart, ArgPart, AppendSwitch, AppendArg;
    var args := TrimAll(tokens);
    if tokens == [] {
      PartsStop(args, parse);
      ExtendedByNothing(l, args);
      assert l.argv + args == l.argv;
    } else {
      assert args[1..] == TrimAll(tokens[1..]);
      var parse' := parse && args[0] != TERMINATOR;
      var switches, rest := SwitchPart(args[1..], parse'), ArgPart(args[1..], parse');
      AppendingPartitions(AppendToken(l, tokens[0], parse), tokens[1..], parse');
      var sw := ParseSwitch(args[0]);
      if parse' && sw.Some? {
        PartsStep(args);
        ExtendedBySwitch(l, sw.value, switches, rest);
        assert [] + rest == rest;
      } else {
        ExtendedByArg(l, args[0], switches, rest);
        if parse' {
          PartsStep(args);
          assert [] + switches == switches;
        } else {
          PartsStop(args, parse);
          PartsStop(args[1..], parse');
          assert [args[0]] + args[1..] == args;
        }
      }
    }
  }

  /** An object that is initialised again keeps the switches of its map and nothing else. */
  lemma InitializedLine(l: Line, argv: seq<string>)
    ensures argv == [] ==> InitFromArgv(l, argv) == Line([""], 1, l.switches)
    ensures argv != [] ==>
              var args := TrimAll(argv[1..]);
              var switches := SwitchPart(args, true);
              InitFromArgv(l, argv) == Line([Trim(argv[0])] + StoredTokens(switches) + ArgPart(args, true),
                                            1 + |switches|, StoreAll(l.switches, switches))
  {
    if argv != [] {
      InitializedByTokens(l, argv);
    }
  }

  lemma InitializedByTokens(l: Line, argv: seq<string>)
    requires argv != []
    ensures var args := TrimAll(argv[1..]);
            var switches := SwitchPart(args, true);
            InitFromArgv(l, argv) == Line([Trim(argv[0])] + StoredTokens(switches) + ArgPart(args, true),
                                          1 + |switches|, StoreAll(l.switches, switches))
  {
    hide SwitchPart, ArgPart, StoredTokens, StoreAll;
    AppendingPartitions(Line([Trim(argv[0])], 1, l.switches), argv[1..], true);
    var stored := StoredTokens(SwitchPart(TrimAll(argv[1..]), true));
    assert [Trim(argv[0])][..1] == [Trim(argv[0])] && [Trim(argv[0])] + stored + [] == [Trim(argv[0])] + stored;
  }

  /** A new object in one expression. */
  lemma FreshLine(argv: seq<string>)
    requires argv != []
    ensures var args := TrimAll(argv[1..]);
            var switches := SwitchPart(args, true);
            FromArgv(argv) == Line([Trim(argv[0])] + StoredTokens(switches) + ArgPart(args, true),
                                   1 + |switches|, StoreAll(map[], switches))
  {
    hide InitFromArgv, SwitchPart, ArgPart, StoredTokens, StoreAll;
    InitializedByTokens(EMPTY, argv);
  }

  /**
   AppendArguments: the other object's switches behind its own and the other's arguments at the
   end; the program is the other's if it was asked for, and stays as it was if not.
   */
  lemma AppendArgumentsPartitions(l: Line, other: Line, includeProgram: bool)
    requires l.Valid() && other.Valid()
    ensures var args := TrimAll(other.argv[1..]);
            var r := AppendArguments(l, other, includeProgram);
            && r.argv[0] == (if includeProgram then Trim(other.argv[0]) else l.argv[0])
            && r.argv[1..r.beginArgs] == l.argv[1..l.beginArgs] + StoredTokens(SwitchPart(args, true))
            && r.argv[r.beginArgs..] == l.argv[l.beginArgs..] + ArgPart(args, true)
            && r.switches == StoreAll(l.switches, SwitchPart(args, true))
  {
    hide SwitchPart, ArgPart, StoredTokens, StoreAll, AppendTokens;
    var l' := if includeProgram then SetProgram(l, other.argv[0]) else l;
    AppendingPartitions(l', other.argv[1..], true);
    var args := TrimAll(other.argv[1..]);
    assert l'.argv[1..l.beginArgs] == l.argv[1..l.beginArgs] && l'.argv[l.beginArgs..] == l.argv[l.beginArgs..];
  }

  /**
   A freshly built object: the trimmed program, the switches before the first "--" in their
   order, the other tokens before it in theirs, and everything from "--" on. GetArgs() drops that
   one "--" and nothing else.
   */
  lemma ParsingIsAStablePartition(argv: seq<string>)
    requires argv != []
    ensures var args := TrimAll(argv[1..]);
            var k := Terminator(args);
            var switches := SwitchesIn(args[..k]);
            && FromArgv(argv) == Line([Trim(argv[0])] + StoredTokens(switches) + (NonSwitchesIn(args[..k]) + args[k..]),
                                      1 + |switches|, StoreAll(map[], switches))
            && GetArgs(FromArgv(argv)) == NonSwitchesIn(args[..k]) + (if k == |args| then [] else args[k + 1..])
  {
    hide ParseSwitch, StoredTokens, StoreAll, InitFromArgv, RemoveFirst, Terminator;
    var args := TrimAll(argv[1..]);
    var k := Terminator(args);
    FreshLine(argv);
    var l := FromArgv(argv);
    var plain := NonSwitchesIn(args[..k]);
    assert l.argv[l.beginArgs..] == plain + args[k..];
    NonSwitchesKeep(args[..k]);
    RemoveFirstBehind(plain, args[k..]);
  }

  lemma RemoveFirstBehind(plain: seq<string>, tail: seq<string>)
    requires TERMINATOR !in plain && (tail != [] ==> tail[0] == TERMINATOR)
    ensures RemoveFirst(plain + tail, TERMINATOR) == plain + (if tail == [] then [] else tail[1..])
  {
    assert (plain + tail)[..|plain|] == plain;
    RemoveFirstAt(plain + tail, TERMINATOR, |plain|);
    if tail != [] {
      assert (plain + tail)[|plain| + 1..] == tail[1..];
    }
  }

  lemma NonSwitchesKeep(args: seq<string>)
    ensures forall a :: a in NonSwitchesIn(args) <==> a in args && ParseSwitch(a).None?
  {
  }

  /**
   Which tokens are switches, character by character: those that start with a dash or a slash, or
   two dashes, and go on. The name ends before the first equals sign, the value is what follows it.
   */
  lemma SwitchByCharacters(s: string)
    ensures ParseSwitch(s).Some? <==>
            |s| > 1 && (s[0] == '-' || s[0] == '/') && s != "--"
    ensures ParseSwitch(s).Some? ==>
              var sw := ParseSwitch(s).value;
              && '=' !in sw.name
              && s == (if '=' in s then sw.name + "=" + sw.value else sw.name)
              && ('=' !in s ==> sw.value == "")
  {
    if ParseSwitch(s).Some? {
      ParseSwitchShape(s);
    }
  }

  // ----- A stored switch, read again -----

  predicate IsByte(c: char) {
    c as int < 256
  }

  /** A std::string: every character is a byte. */
  predicate IsNarrow(s: string) {
    forall i :: 0 <= i < |s| ==> IsByte(s[i])
  }

  /** The token of such a switch parses back to the same key and value. */
  predicate CleanEntry(name: string, value: string) {
    '=' !in name && (SwitchKey(name) != "" || value != "")
  }

  /** Both strings have their `=` at the same places. */
  predicate SameEquals(a: string, b: string) {
    |a| == |b| && forall i :: 0 <= i < |a| ==> (a[i] == '=' <==> b[i] == '=')
  }

  lemma WideName(name: string)
    requires IsNarrow(name)
    ensures var w := Widen(Lower(name));
            && Narrow(w) == Lower(name) && Lower(Lower(name)) == Lower(name)
            && SameEquals(w, name) && SameEquals(Lower(name), name)
            && SwitchPrefixLength(w) == SwitchPrefixLength(name)
  {
    hide NarrowChar, WidenChar, ToLowerAscii;
    var w := Widen(Lower(name));
    forall i | 0 <= i < |name|
      ensures NarrowChar(w[i]) == Lower(name)[i]
      ensures (w[i] == '=' <==> name[i] == '=') && (Lower(name)[i] == '=' <==> name[i] == '=')
      ensures (w[i] == '-' <==> name[i] == '-') && (w[i] == '/' <==> name[i] == '/')
      ensures ToLowerAscii(Lower(name)[i]) == Lower(name)[i]
    {
    }
  }

  /** The name as it is stored, with its prefix. */
  function Full(name: string): string {
    StoredSwitch(name, "").name
  }

  lemma StoredSwitchParts(name: string, value: string)
    ensures StoredSwitch(name, value) == Switch(Full(name), value)
  {
  }

  lemma StoredName(name: string)
    requires IsNarrow(name)
    ensures SwitchPrefixLength(Full(name)) > 0 && IsNarrow(Narrow(Full(name)))
    ensures SameEquals(Narrow(Full(name)), Full(name))
    ensures '=' in Full(name) <==> '=' in name
    ensures SwitchKey(Narrow(Full(name))) == SwitchKey(name) && Full(Narrow(Full(name))) == Full(name)
    ensures |Full(name)| == SwitchPrefixLength(Full(name)) + |SwitchKey(name)|
  {
    hide Lower, Widen, Narrow;
    WideName(name);
    var w, low := Widen(Lower(name)), Lower(name);
    if SwitchPrefixLength(name) == 0 {
      StoredDashes(name);
    }
  }

  lemma StoredDashes(name: string)
    requires IsNarrow(name) && SwitchPrefixLength(name) == 0
    ensures Narrow("--" + Widen(Lower(name))) == "--" + Lower(name)
    ensures Lower("--" + Lower(name)) == "--" + Lower(name)
    ensures Widen("--" + Lower(name)) == "--" + Widen(Lower(name))
    ensures SwitchKey("--" + Lower(name)) == Lower(name)
  {
    WideName(name);
    var low := Lower(name);
    DashedLower(low);
    DashedWiden(low);
    DashedNarrow(Widen(low));
    assert ("--" + low)[2..] == low;
  }

  lemma DashedLower(s: string)
    ensures Lower("--" + s) == "--" + Lower(s)
  {
    forall i | 0 <= i < |s| ensures Lower("--" + s)[i + 2] == Lower(s)[i] {
      assert ("--" + s)[i + 2] == s[i];
    }
  }

  lemma DashedWiden(s: string)
    ensures Widen("--" + s) == "--" + Widen(s)
  {
    hide WidenChar;
    assert WidenChar('-') == '-';
    forall i | 0 <= i < |s| ensures Widen("--" + s)[i + 2] == Widen(s)[i] {
      assert ("--" + s)[i + 2] == s[i];
    }
  }

  lemma DashedNarrow(s: string)
    ensures Narrow("--" + s) == "--" + Narrow(s)
  {
    hide NarrowChar;
    assert NarrowChar('-') == '-';
    forall i | 0 <= i < |s| ensures Narrow("--" + s)[i + 2] == Narrow(s)[i] {
      assert ("--" + s)[i + 2] == s[i];
    }
  }

  lemma FindEqualsIn(a: string, b: string)
    requires '=' !in a
    ensures FindEquals(a + "=" + b) == |a| && FindEquals(a) == |a|
  {
    if a == "" {
      assert a + "=" + b == "=" + b;
    } else {
      assert (a + "=" + b)[1..] == a[1..] + "=" + b;
      FindEqualsIn(a[1..], b);
    }
  }

  lemma ParseStored(name: string, value: string)
    requires IsNarrow(name) && '=' !in name
    ensures var stored := StoredSwitch(name, value);
            ParseSwitch(SwitchToken(stored)) == if CleanEntry(name, value) then Some(stored) else None
  {
    StoredName(name);
    var full := Full(name);
    FindEqualsIn(full, value);
    var token := SwitchToken(StoredSwitch(name, value));
    if value != "" {
      assert token[..|full|] == full && token[|full| + 1..] == value;
    }
    assert SwitchPrefixLength(token) == SwitchPrefixLength(full);
  }
}
