/**
 The value of a CommandLine object (commonlib/common/base/command_line.{h,cc}, OS_WIN branch)
 and what each operation does to it.
 */
module CommandLineModel {
  import opened Wrappers
  import opened Text
  import opened Quoting

  const TERMINATOR := "--"

  // ----- Tokens -----

  /** Of the prefixes "--", "-" and "/", in this order, the length of the first that matches. */
  function SwitchPrefixLength(s: string): (n: nat)
    ensures n <= |s| && n <= 2
    ensures n == 2 <==> |s| >= 2 && s[0] == '-' && s[1] == '-'
    ensures n > 0 <==> s != "" && (s[0] == '-' || s[0] == '/')
  {
    if "--" <= s then 2 else if "-" <= s || "/" <= s then 1 else 0
  }

  function FindEquals(s: string): (n: nat)
    ensures n <= |s|
    ensures n < |s| ==> s[n] == '='
    ensures '=' !in s[..n]
  {
    if s == "" || s[0] == '=' then 0 else 1 + FindEquals(s[1..])
  }

  datatype Switch = Switch(name: string, value: string)

  /** IsSwitch: the parsed switch, with its prefix, or None. */
  function ParseSwitch(s: string): (r: Option<Switch>) {
    var prefix := SwitchPrefixLength(s);
    var eq := FindEquals(s);
    if prefix == 0 || prefix == |s| then None
    else if eq == |s| then Some(Switch(s, ""))
    else Some(Switch(s[..eq], s[eq + 1..]))
  }

  /** A parsed switch as a token again. */
  function SwitchToken(sw: Switch): string {
    if sw.value == "" then sw.name else sw.name + "=" + sw.value
  }

  // ----- The object -----

  /** argv_, begin_args_ and switches_. */
  datatype Line = Line(argv: seq<string>, beginArgs: nat, switches: map<string, string>) {
    predicate Valid() {
      1 <= beginArgs <= |argv|
    }
  }

  const EMPTY := Line([""], 1, map[])

  /** The switch that AppendSwitchNative stores: lower case, with a prefix. */
  function StoredSwitch(name: string, value: string): Switch {
    var combined := Widen(Lower(name));
    Switch(if SwitchPrefixLength(combined) == 0 then "--" + combined else combined, value)
  }

  function SwitchKey(name: string): string {
    var key := Lower(name);
    key[SwitchPrefixLength(Widen(key))..]
  }

  function AppendSwitch(l: Line, name: string, value: string): (r: Line)
    requires l.Valid()
    ensures r.Valid()
  {
    Line(l.argv[..l.beginArgs] + [SwitchToken(StoredSwitch(name, value))] + l.argv[l.beginArgs..],
         l.beginArgs + 1,
         l.switches[SwitchKey(name) := value])
  }

  function AppendArg(l: Line, value: string): (r: Line)
    requires l.Valid()
    ensures r.Valid()
  {
    l.(argv := l.argv + [value])
  }

  /** One step of AppendSwitchesAndArguments; `parse` is parse_switches before the step. */
  function AppendToken(l: Line, token: string, parse: bool): (r: Line)
    requires l.Valid()
    ensures r.Valid()
  {
    var arg := Trim(token);
    var sw := ParseSwitch(arg);
    if parse && arg != TERMINATOR && sw.Some? then
      AppendSwitch(l, Narrow(sw.value.name), sw.value.value)
    else
      AppendArg(l, arg)
  }

  /** AppendSwitchesAndArguments over the tokens behind the program. */
  function AppendTokens(l: Line, tokens: seq<string>, parse: bool): (r: Line)
    requires l.Valid()
    ensures r.Valid()
    decreases |tokens|
  {
    if tokens == [] then l
    else AppendTokens(AppendToken(l, tokens[0], parse), tokens[1..], parse && Trim(tokens[0]) != TERMINATOR)
  }

  function SetProgram(l: Line, program: string): (r: Line)
    requires l.Valid()
    ensures r.Valid()
  {
    l.(argv := l.argv[0 := Trim(program)])
  }

  function AppendArguments(l: Line, other: Line, includeProgram: bool): (r: Line)
    requires l.Valid() && other.Valid()
    ensures r.Valid()
  {
    AppendTokens(if includeProgram then SetProgram(l, other.argv[0]) else l, other.argv[1..], true)
  }

  /** When the walked vector is the object's own, a turn of the loop leaves as many tokens ahead as before. */
  lemma SelfAppendNeverEnds(l: Line, i: nat, parse: bool)
    requires l.Valid() && 1 <= i < |l.argv|
    ensures |AppendToken(l, l.argv[i], parse).argv| - (i + 1) == |l.argv| - i > 0
  {
  }

  lemma AppendNothing(l: Line, parse: bool)
    requires l.Valid()
    ensures AppendTokens(l, [], parse) == l
  {
  }

  lemma AppendTokensStep(l: Line, tokens: seq<string>, parse: bool)
    requires l.Valid() && tokens != []
    ensures AppendTokens(l, tokens, parse) ==
            AppendTokens(AppendToken(l, tokens[0], parse), tokens[1..], parse && Trim(tokens[0]) != TERMINATOR)
  {
  }

  /** InitFromArgv; note that it keeps the old switch map. */
  function InitFromArgv(l: Line, argv: seq<string>): (r: Line)
    ensures r.Valid()
  {
    if argv == [] then Line([""], 1, l.switches)
    else AppendTokens(Line([Trim(argv[0])], 1, l.switches), argv[1..], true)
  }

  /** The object that the constructor makes of a token vector. */
  function FromArgv(argv: seq<string>): (r: Line)
    ensures r.Valid()
  {
    InitFromArgv(EMPTY, argv)
  }

  /** The map is searched with the lower-case name, as it is: a prefix is not taken off. */
  predicate HasSwitch(l: Line, name: string) {
    Lower(name) in l.switches
  }

  function GetSwitchValue(l: Line, name: string): string {
    if HasSwitch(l, name) then l.switches[Lower(name)] else ""
  }

  function RemoveFirst(args: seq<string>, token: string): seq<string> {
    if args == [] then []
    else if args[0] == token then args[1..]
    else [args[0]] + RemoveFirst(args[1..], token)
  }

  lemma {:induction false} RemoveFirstAt(args: seq<string>, token: string, i: nat)
    requires i <= |args| && token !in args[..i]
    requires i < |args| ==> args[i] == token
    ensures RemoveFirst(args, token) == if i == |args| then args else args[..i] + args[i + 1..]
  {
    if i > 0 {
      assert args[0] == args[..i][0];
      assert args[1..][..i - 1] == args[..i][1..];
      RemoveFirstAt(args[1..], token, i - 1);
      assert args == [args[0]] + args[1..];
      assert args[..i] == [args[0]] + args[1..][..i - 1];
      assert i < |args| ==> args[i + 1..] == args[1..][i..];
    } else {
      assert args[..0] == [];
    }
  }

  function GetArgs(l: Line): seq<string>
    requires l.Valid()
  {
    RemoveFirst(l.argv[l.beginArgs..], TERMINATOR)
  }

  // ----- Printing -----

  predicate PrintsAsSwitch(token: string, parse: bool) {
    parse && token != TERMINATOR && ParseSwitch(token).Some?
  }

  function SwitchText(sw: Switch): string {
    sw.name + (if sw.value == "" then "" else "=" + Quote(sw.value))
  }

  function PrintToken(token: string, parse: bool): string {
    if PrintsAsSwitch(token, parse) then
      SwitchText(ParseSwitch(token).value)
    else
      Quote(token)
  }

  function PrintTokens(tokens: seq<string>, parse: bool): string
    decreases |tokens|
  {
    if tokens == [] then ""
    else
      PrintToken(tokens[0], parse) +
      (if |tokens| == 1 then ""
       else " " + PrintTokens(tokens[1..], parse && tokens[0] != TERMINATOR))
  }

  /** What is still to be printed before token `i`: the separator, if one is due, and the rest. */
  function PrintFrom(tokens: seq<string>, i: nat, parse: bool): string
    requires i <= |tokens|
  {
    (if i == 0 || i == |tokens| then "" else " ") + PrintTokens(tokens[i..], parse)
  }

  lemma PrintFromStep(tokens: seq<string>, i: nat, parse: bool, before: string)
    requires i < |tokens|
    ensures before + PrintFrom(tokens, i, parse) ==
            ((if i == 0 then before else before + " ") + PrintToken(tokens[i], parse))
            + PrintFrom(tokens, i + 1, parse && tokens[i] != TERMINATOR)
  {
    hide PrintToken;
    assert tokens[i..][1..] == tokens[i + 1..];
    var text, rest := PrintToken(tokens[i], parse), PrintFrom(tokens, i + 1, parse && tokens[i] != TERMINATOR);
    assert PrintFrom(tokens, i, parse) == (if i == 0 then "" else " ") + (text + rest);
  }

  lemma PrintFromEnds(tokens: seq<string>)
    ensures forall parse :: PrintFrom(tokens, |tokens|, parse) == ""
    ensures PrintFrom(tokens, 0, true) == PrintTokens(tokens, true)
  {
    assert tokens[0..] == tokens;
  }

  function GetArgumentsString(l: Line): string
    requires l.Valid()
  {
    PrintTokens(l.argv[1..], true)
  }

  function PrintLine(argv: seq<string>): string
    requires argv != []
  {
    var params := PrintTokens(argv[1..], true);
    Quote(argv[0]) + (if params == "" then "" else " " + params)
  }

  function GetCommandLineString(l: Line): string
    requires l.Valid()
  {
    PrintLine(l.argv)
  }

  function ParseFromString(l: Line, text: string, mode: DoubledQuote): (r: Line)
    requires l.Valid()
    ensures r.Valid()
  {
    var s := Trim(text);
    if s == "" then l else InitFromArgv(l, CommandLineToArgvW(s, mode))
  }
}
