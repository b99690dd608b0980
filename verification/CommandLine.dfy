/**
 The CommandLine class itself: the loops and the field updates of
 commonlib/common/base/command_line.cc, each proved against its function in CommandLineModel.
 */
module CommandLineObject {
  import opened Wrappers
  import opened Text
  import opened Quoting
  import M = CommandLineModel

  const PREFIXES := ["--", "-", "/"]

  method GetSwitchPrefixLength(s: string) returns (n: nat)
    ensures n == M.SwitchPrefixLength(s)
    ensures n == (if s == "" || (s[0] != '-' && s[0] != '/') then 0
                  else if |s| >= 2 && s[0] == '-' && s[1] == '-' then 2
                  else 1)
  {
    for i := 0 to |PREFIXES|
      invariant forall k :: 0 <= k < i ==> !(PREFIXES[k] <= s)
    {
      if PREFIXES[i] <= s {
        assert i != 0 ==> !(PREFIXES[0] <= s);
        return |PREFIXES[i]|;
      }
    }
    assert !(PREFIXES[0] <= s) && !(PREFIXES[1] <= s) && !(PREFIXES[2] <= s);
    return 0;
  }

  class CommandLine {
    var argv: seq<string>
    var switches: map<string, string>
    var beginArgs: nat

    ghost function Value(): M.Line
      reads this
    {
      M.Line(argv, beginArgs, switches)
    }

    ghost predicate Valid()
      reads this
    {
      Value().Valid()
    }

    /** The constructor for command lines without a program. */
    constructor NoProgram()
      ensures Valid() && Value() == M.EMPTY && argv == [""] && beginArgs == 1 && switches == map[]
    {
      argv, beginArgs, switches := [""], 1, map[];
    }

    constructor WithProgram(program: string)
      ensures Valid() && Value() == M.SetProgram(M.EMPTY, program)
      ensures argv == [Trim(program)] && beginArgs == 1 && switches == map[]
    {
      argv, beginArgs, switches := [Trim(program)], 1, map[];
    }

    constructor FromArgv(tokens: seq<string>)
      ensures Valid() && Value() == M.FromArgv(tokens)
    {
      argv, beginArgs, switches := [""], 1, map[];
      new;
      InitFromArgv(tokens);
    }

    constructor FromString(text: string, mode: DoubledQuote)
      ensures Valid() && Value() == M.ParseFromString(M.EMPTY, text, mode)
    {
      argv, beginArgs, switches := [""], 1, map[];
      new;
      ParseFromString(text, mode);
    }

    method InitFromArgv(tokens: seq<string>)
      modifies this
      ensures Valid() && Value() == M.InitFromArgv(old(Value()), tokens)
      ensures tokens == [] ==> argv == [""] && beginArgs == 1 && switches == old(switches)
    {
      hide M.AppendTokens;
      M.AppendNothing(M.Line([""], 1, switches), true);
      argv := [""];
      beginArgs := 1;
      SetProgram(if tokens == [] then "" else tokens[0]);
      assert argv == [Trim(if tokens == [] then "" else tokens[0])];
      AppendSwitchesAndArguments(tokens);
    }

    /** `tokens[0]` is the program and is passed over. */
    method AppendSwitchesAndArguments(tokens: seq<string>)
      requires Valid()
      modifies this
      ensures Valid()
      ensures Value() == M.AppendTokens(old(Value()), if tokens == [] then [] else tokens[1..], true)
    {
      hide M.AppendTokens, M.AppendSwitch, M.ParseSwitch;
      var parseSwitches := true;
      var i := 1;
      ghost var rest := if tokens == [] then [] else tokens[1..];
      ghost var target := M.AppendTokens(Value(), rest, true);
      while i < |tokens|
        invariant Valid()
        invariant 1 <= i && rest == (if i < |tokens| then tokens[i..] else [])
        invariant target == M.AppendTokens(Value(), rest, parseSwitches)
      {
        M.AppendTokensStep(Value(), rest, parseSwitches);
        var arg := Trim(tokens[i]);
        var sw := M.ParseSwitch(arg);
        parseSwitches := parseSwitches && arg != M.TERMINATOR;
        if parseSwitches && sw.Some? {
          AppendSwitchNative(Narrow(sw.value.name), sw.value.value);
        } else {
          AppendArgNative(arg);
        }
        rest := rest[1..];
        i := i + 1;
      }
      M.AppendNothing(Value(), parseSwitches);
    }

    method SetProgram(program: string)
      requires Valid()
      modifies this`argv
      ensures Valid() && Value() == M.SetProgram(old(Value()), program)
      ensures argv == [Trim(program)] + old(argv)[1..]
    {
      argv := argv[0 := Trim(program)];
    }

    method AppendSwitchNative(name: string, value: string)
      requires Valid()
      modifies this
      ensures Valid() && Value() == M.AppendSwitch(old(Value()), name, value)
      ensures var full := Widen(Lower(name));
              var prefixed := if full == "" || (full[0] != '-' && full[0] != '/') then "--" + full else full;
              var token := if value == "" then prefixed else prefixed + "=" + value;
              argv == old(argv)[..old(beginArgs)] + [token] + old(argv)[old(beginArgs)..]
      ensures beginArgs == old(beginArgs) + 1
      ensures var full := Widen(Lower(name));
              var n := if full == "" || (full[0] != '-' && full[0] != '/') then 0
                       else if |full| >= 2 && full[0] == '-' && full[1] == '-' then 2
                       else 1;
              switches == old(switches)[Lower(name)[n..] := value]
    {
      var key := Lower(name);
      var combined := Widen(key);
      var prefixLength := GetSwitchPrefixLength(combined);
      switches := switches[key[prefixLength..] := value];
      if prefixLength == 0 {
        combined := PREFIXES[0] + combined;
      }
      if value != "" {
        combined := combined + "=" + value;
      }
      argv := argv[..beginArgs] + [combined] + argv[beginArgs..];
      beginArgs := beginArgs + 1;
    }

    method AppendArgNative(value: string)
      requires Valid()
      modifies this`argv
      ensures Valid() && Value() == M.AppendArg(old(Value()), value)
      ensures argv == old(argv) + [value]
    {
      argv := argv + [value];
    }

    /** An object with arguments, appended to itself, walks a vector that grows at every step and never ends. */
    method AppendArguments(other: CommandLine, includeProgram: bool)
      requires Valid() && other.Valid() && (other == this ==> |argv| == 1)
      modifies this
      ensures Valid()
      ensures Value() == M.AppendArguments(old(Value()), old(other.Value()), includeProgram)
    {
      if includeProgram {
        SetProgram(other.argv[0]);
      }
      AppendSwitchesAndArguments(other.argv);
    }

    method GetArgs() returns (args: seq<string>)
      requires Valid()
      ensures args == M.GetArgs(Value())
      ensures var rest := argv[beginArgs..];
              && ("--" !in rest ==> args == rest)
              && forall i :: 0 <= i < |rest| && rest[i] == "--" && "--" !in rest[..i] ==>
                   args == rest[..i] + rest[i + 1..]
    {
      var rest := argv[beginArgs..];
      var i := 0;
      while i < |rest| && rest[i] != M.TERMINATOR
        invariant 0 <= i <= |rest|
        invariant forall k :: 0 <= k < i ==> rest[k] != M.TERMINATOR
      {
        i := i + 1;
      }
      M.RemoveFirstAt(rest, M.TERMINATOR, i);
      args := if i == |rest| then rest else rest[..i] + rest[i + 1..];
    }

    method HasSwitch(name: string) returns (has: bool)
      ensures has <==> M.HasSwitch(Value(), name)
    {
      has := Lower(name) in switches;
    }

    method GetSwitchValueNative(name: string) returns (value: string)
      ensures value == M.GetSwitchValue(Value(), name)
    {
      var key := Lower(name);
      value := if key in switches then switches[key] else "";
    }

    /** The body of the loop of GetArgumentsString(): one switch or argument. */
    static method PrintOne(params: string, token: string, parseSwitches: bool) returns (longer: string)
      ensures longer == params + M.PrintToken(token, parseSwitches)
    {
      hide Quote, M.ParseSwitch;
      var sw := M.ParseSwitch(token);
      if parseSwitches && token != M.TERMINATOR && sw.Some? {
        longer := params + sw.value.name;
        if sw.value.value != "" {
          var quoted := QuoteForCommandLineToArgvW(sw.value.value);
          longer := longer + ("=" + quoted);
        }
      } else {
        var quoted := QuoteForCommandLineToArgvW(token);
        longer := params + quoted;
      }
    }

    method GetArgumentsString() returns (params: string)
      requires Valid()
      ensures params == M.GetArgumentsString(Value())
    {
      hide M.PrintTokens, M.PrintFrom, M.PrintToken;
      params := "";
      var parseSwitches := true;
      var i := 1;
      ghost var tokens := argv[1..];
      M.PrintFromEnds(tokens);
      while i < |argv|
        invariant 1 <= i <= |argv|
        invariant M.PrintTokens(tokens, true) == params + M.PrintFrom(tokens, i - 1, parseSwitches)
      {
        M.PrintFromStep(tokens, i - 1, parseSwitches, params);
        var arg := argv[i];
        if i > 1 {
          params := params + " ";
        }
        params := PrintOne(params, arg, parseSwitches);
        parseSwitches := parseSwitches && arg != M.TERMINATOR;
        i := i + 1;
      }
      assert i - 1 == |tokens| && M.PrintFrom(tokens, |tokens|, parseSwitches) == "";
      assert M.PrintTokens(tokens, true) == params + "" == params;
      assert M.GetArgumentsString(Value()) == M.PrintTokens(tokens, true);
    }

    method GetCommandLineString() returns (s: string)
      requires Valid()
      ensures s == M.GetCommandLineString(Value())
      ensures var params := M.GetArgumentsString(Value());
              s == if params == "" then Quote(argv[0]) else Quote(argv[0]) + " " + params
    {
      s := QuoteForCommandLineToArgvW(argv[0]);
      var params := GetArgumentsString();
      if params != "" {
        s := s + " ";
        s := s + params;
      }
    }

    method ParseFromString(text: string, mode: DoubledQuote)
      requires Valid()
      modifies this
      ensures Valid() && Value() == M.ParseFromString(old(Value()), text, mode)
      ensures (forall i :: 0 <= i < |text| ==> IsWhitespace(text[i])) ==> Value() == old(Value())
      ensures (exists i :: 0 <= i < |text| && !IsWhitespace(text[i])) ==>
                Trim(text) != "" && Value() == M.InitFromArgv(old(Value()), CommandLineToArgvW(Trim(text), mode))
    {
      var _, _ := TrimIsCut(text);
      var s := Trim(text);
      if s == "" {
        return;
      }
      InitFromArgv(CommandLineToArgvW(s, mode));
    }
  }
}
