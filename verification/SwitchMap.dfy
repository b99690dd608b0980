/**
 The switch map kept beside the token vector is what the vector itself parses to.
 */
module SwitchMap {
  import opened Wrappers
  import opened Text
  import opened CommandLineModel
  import opened CommandLineProofs

  /** The map is what the tokens of the switch section parse to, the last one winning. */
  ghost predicate Agrees(l: Line)
    requires l.Valid()
  {
    l.switches == StoreAll(map[], SwitchesIn(l.argv[1..l.beginArgs]))
  }

  ghost predicate ProperKeys(l: Line) {
    && (forall key :: key in l.switches ==> '=' !in key)
    && ("" in l.switches ==> l.switches[""] != "")
  }

  lemma {:induction false} SwitchesOfOneMore(args: seq<string>, token: string)
    ensures SwitchesIn(args + [token]) ==
            SwitchesIn(args) + (if ParseSwitch(token).Some? then [ParseSwitch(token).value] else [])
  {
    hide ParseSwitch;
    if args == [] {
      assert args + [token] == [token];
      assert SwitchesIn([token][1..]) == [];
    } else {
      assert (args + [token])[1..] == args[1..] + [token];
      SwitchesOfOneMore(args[1..], token);
    }
  }

  lemma {:induction false} StoreOneMore(m: map<string, string>, switches: seq<Switch>, sw: Switch)
    ensures StoreAll(m, switches + [sw]) == StoreAll(m, switches)[SwitchKey(Narrow(sw.name)) := sw.value]
    decreases |switches|
  {
    hide SwitchKey;
    if switches == [] {
      assert switches + [sw] == [sw];
      assert StoreAll(m, [sw]) == StoreAll(m[SwitchKey(Narrow(sw.name)) := sw.value], [sw][1..]);
    } else {
      assert (switches + [sw])[1..] == switches[1..] + [sw];
      StoreOneMore(m[SwitchKey(Narrow(switches[0].name)) := switches[0].value], switches[1..], sw);
    }
  }

  lemma SectionAfterAppend(l: Line, name: string, value: string)
    requires l.Valid()
    ensures var r := AppendSwitch(l, name, value);
            r.argv[1..r.beginArgs] == l.argv[1..l.beginArgs] + [SwitchToken(StoredSwitch(name, value))]
  {
  }

  lemma KeyHasEquals(name: string)
    requires IsNarrow(name)
    ensures '=' in SwitchKey(name) <==> '=' in name
  {
    hide Lower, Widen;
    WideName(name);
    var low := Lower(name);
    var n := SwitchPrefixLength(Widen(low));
    assert low == low[..n] + low[n..];
    assert forall i :: 0 <= i < n ==> name[i] == '-' || name[i] == '/';
    assert '=' !in low[..n];
  }

  /** With an `=` in the name, the token parses to a shorter name, so to another key. */
  lemma TornName(name: string, value: string)
    requires IsNarrow(name) && '=' in name
    requires ParseSwitch(SwitchToken(StoredSwitch(name, value))).Some?
    ensures '=' !in SwitchKey(Narrow(ParseSwitch(SwitchToken(StoredSwitch(name, value))).value.name))
  {
    hide SwitchKey, StoredSwitch, Narrow, SwitchPrefixLength;
    StoredName(name);
    StoredSwitchParts(name, value);
    var full := Full(name);
    var token := SwitchToken(StoredSwitch(name, value));
    var i :| 0 <= i < |full| && full[i] == '=';
    assert full <= token;
    var short := token[..FindEquals(token)];
    assert short == full[..FindEquals(token)];
    KeyHasEquals(Narrow(short));
  }

  /** From a consistent object, appending one switch keeps the agreement exactly when it is clean. */
  lemma AppendSwitchAgreesIff(l: Line, name: string, value: string)
    requires l.Valid() && Agrees(l) && ProperKeys(l) && IsNarrow(name)
    ensures Agrees(AppendSwitch(l, name, value)) <==> CleanEntry(name, value)
    ensures CleanEntry(name, value) ==> ProperKeys(AppendSwitch(l, name, value))
  {
    hide ParseSwitch, StoredSwitch, SwitchToken, SwitchesIn, StoreAll;
    var section, token := l.argv[1..l.beginArgs], SwitchToken(StoredSwitch(name, value));
    SectionAfterAppend(l, name, value);
    SwitchesOfOneMore(section, token);
    StoredName(name);
    assert StoredSwitch(name, value).name == Full(name) && StoredSwitch(name, value).value == value by {
      StoredSwitchParts(name, value);
    }
    KeyHasEquals(name);
    if '=' !in name {
      ParseStored(name, value);
      if CleanEntry(name, value) {
        StoreOneMore(map[], SwitchesIn(section), StoredSwitch(name, value));
      } else {
        assert SwitchesIn(section) + [] == SwitchesIn(section);
        assert AppendSwitch(l, name, value).switches[""] == "";
      }
    } else {
      assert SwitchKey(name) in AppendSwitch(l, name, value).switches;
      var sw := ParseSwitch(token);
      if sw.Some? {
        StoreOneMore(map[], SwitchesIn(section), sw.value);
        TornName(name, value);
      } else {
        assert SwitchesIn(section) + [] == SwitchesIn(section);
      }
    }
  }

  // ----- Runs -----

  datatype Op =
    | OpSwitch(name: string, value: string)
    | OpArg(value: string)
    | OpArguments(other: Line, includeProgram: bool)

  predicate Callable(op: Op) {
    match op
    case OpSwitch(name, _) => IsNarrow(name)
    case OpArg(_) => true
    case OpArguments(other, _) => other.Valid()
  }

  predicate CleanSwitches(switches: seq<Switch>) {
    forall i :: 0 <= i < |switches| ==> CleanEntry(Narrow(switches[i].name), switches[i].value)
  }

  predicate CleanOp(op: Op)
    requires Callable(op)
  {
    match op
    case OpSwitch(name, value) => CleanEntry(name, value)
    case OpArg(_) => true
    case OpArguments(other, _) => CleanSwitches(SwitchPart(TrimAll(other.argv[1..]), true))
  }

  function Apply(l: Line, op: Op): (r: Line)
    requires l.Valid() && Callable(op)
    ensures r.Valid()
  {
    match op
    case OpSwitch(name, value) => AppendSwitch(l, name, value)
    case OpArg(value) => AppendArg(l, value)
    case OpArguments(other, includeProgram) => AppendArguments(l, other, includeProgram)
  }

  function ApplyAll(l: Line, ops: seq<Op>): (r: Line)
    requires l.Valid() && forall i :: 0 <= i < |ops| ==> Callable(ops[i])
    ensures r.Valid()
    decreases |ops|
  {
    if ops == [] then l else ApplyAll(Apply(l, ops[0]), ops[1..])
  }

  // ----- What stands where after a run -----

  /** The tokens that a call adds to the switch section. */
  function SwitchesAdded(op: Op): seq<string>
    requires Callable(op)
  {
    match op
    case OpSwitch(name, value) => [SwitchToken(StoredSwitch(name, value))]
    case OpArg(_) => []
    case OpArguments(other, _) => StoredTokens(SwitchPart(TrimAll(other.argv[1..]), true))
  }

  /** The tokens that it adds at the end. */
  function ArgsAdded(op: Op): seq<string>
    requires Callable(op)
  {
    match op
    case OpSwitch(_, _) => []
    case OpArg(value) => [value]
    case OpArguments(other, _) => ArgPart(TrimAll(other.argv[1..]), true)
  }

  function ProgramAfter(program: string, op: Op): string
    requires Callable(op)
  {
    match op
    case OpArguments(other, true) => Trim(other.argv[0])
    case _ => program
  }

  predicate AllCallable(ops: seq<Op>) {
    forall i :: 0 <= i < |ops| ==> Callable(ops[i])
  }

  function AllSwitches(ops: seq<Op>): seq<string>
    requires AllCallable(ops)
    decreases |ops|
  {
    if ops == [] then [] else SwitchesAdded(ops[0]) + AllSwitches(ops[1..])
  }

  function AllArgs(ops: seq<Op>): seq<string>
    requires AllCallable(ops)
    decreases |ops|
  {
    if ops == [] then [] else ArgsAdded(ops[0]) + AllArgs(ops[1..])
  }

  function LastProgram(program: string, ops: seq<Op>): string
    requires AllCallable(ops)
    decreases |ops|
  {
    if ops == [] then program else LastProgram(ProgramAfter(program, ops[0]), ops[1..])
  }

  lemma OneOpSections(l: Line, op: Op)
    requires l.Valid() && Callable(op)
    ensures var r := Apply(l, op);
            && r.argv[0] == ProgramAfter(l.argv[0], op)
            && r.argv[1..r.beginArgs] == l.argv[1..l.beginArgs] + SwitchesAdded(op)
            && r.argv[r.beginArgs..] == l.argv[l.beginArgs..] + ArgsAdded(op)
  {
    hide StoredSwitch, SwitchToken, SwitchPart, ArgPart, StoredTokens, StoreAll, AppendArguments;
    match op
    case OpSwitch(name, value) => SectionAfterAppend(l, name, value);
    case OpArg(value) =>
    case OpArguments(other, includeProgram) => AppendArgumentsPartitions(l, other, includeProgram);
  }

  /**
   After any run of appends: the program is the last one taken over, then stand all the switches and
   then all the arguments, each in the order of the calls.
   */
  lemma {:induction false} SectionsInEveryRun(l: Line, ops: seq<Op>)
    requires l.Valid() && AllCallable(ops)
    ensures var r := ApplyAll(l, ops);
            && r.argv[0] == LastProgram(l.argv[0], ops)
            && r.argv[1..r.beginArgs] == l.argv[1..l.beginArgs] + AllSwitches(ops)
            && r.argv[r.beginArgs..] == l.argv[l.beginArgs..] + AllArgs(ops)
    decreases |ops|
  {
    hide Apply, Callable, SwitchesAdded, ArgsAdded, ProgramAfter;
    if ops != [] {
      var op, more := ops[0], ops[1..];
      OneOpSections(l, op);
      SectionsInEveryRun(Apply(l, op), more);
      assert (l.argv[1..l.beginArgs] + SwitchesAdded(op)) + AllSwitches(more)
          == l.argv[1..l.beginArgs] + (SwitchesAdded(op) + AllSwitches(more));
      assert (l.argv[l.beginArgs..] + ArgsAdded(op)) + AllArgs(more)
          == l.argv[l.beginArgs..] + (ArgsAdded(op) + AllArgs(more));
    }
  }

  ghost predicate Consistent(l: Line) {
    l.Valid() && Agrees(l) && ProperKeys(l)
  }

  lemma ArgKeepsConsistent(l: Line, value: string)
    requires Consistent(l)
    ensures Consistent(AppendArg(l, value))
  {
    assert AppendArg(l, value).argv[1..l.beginArgs] == l.argv[1..l.beginArgs];
  }

  lemma {:induction false} TokensKeepConsistent(l: Line, tokens: seq<string>, parse: bool)
    requires Consistent(l)
    requires CleanSwitches(SwitchPart(TrimAll(tokens), parse))
    ensures Consistent(AppendTokens(l, tokens, parse))
    decreases |tokens|
  {
    hide Agrees, ProperKeys, ParseSwitch, SwitchPart, AppendSwitch, AppendArg, CleanEntry;
    if tokens != [] {
      var args := TrimAll(tokens);
      assert args[1..] == TrimAll(tokens[1..]);
      var parse' := parse && args[0] != TERMINATOR;
      var sw := ParseSwitch(args[0]);
      var more := SwitchPart(args[1..], parse');
      if parse' {
        PartsStep(args);
        assert sw.None? ==> [] + more == more;
        assert sw.Some? ==> ([sw.value] + more)[1..] == more;
        assert sw.Some? ==> CleanEntry(Narrow(([sw.value] + more)[0].name), ([sw.value] + more)[0].value);
      } else {
        PartsStop(args[1..], parse');
      }
      if parse' && sw.Some? {
        AppendSwitchAgreesIff(l, Narrow(sw.value.name), sw.value.value);
        TokensKeepConsistent(AppendSwitch(l, Narrow(sw.value.name), sw.value.value), tokens[1..], parse');
      } else {
        ArgKeepsConsistent(l, args[0]);
        TokensKeepConsistent(AppendArg(l, args[0]), tokens[1..], parse');
      }
    }
  }

  lemma ApplyKeepsConsistent(l: Line, op: Op)
    requires Consistent(l) && Callable(op) && CleanOp(op)
    ensures Consistent(Apply(l, op))
  {
    match op
    case OpSwitch(name, value) => AppendSwitchAgreesIff(l, name, value);
    case OpArg(value) => ArgKeepsConsistent(l, value);
    case OpArguments(other, includeProgram) =>
      var l' := if includeProgram then SetProgram(l, other.argv[0]) else l;
      assert l'.argv[1..l.beginArgs] == l.argv[1..l.beginArgs];
      TokensKeepConsistent(l', other.argv[1..], true);
  }

  /**
   Over every sequence of clean appends on a fresh object, the map agrees with the vector, and
   begin_args_ stays within 1..|argv_|.
   */
  lemma {:induction false} MapAgreesInEveryRun(program: string, ops: seq<Op>)
    requires forall i :: 0 <= i < |ops| ==> Callable(ops[i]) && CleanOp(ops[i])
    ensures var l := ApplyAll(SetProgram(EMPTY, program), ops); l.Valid() && Agrees(l)
  {
    assert Consistent(SetProgram(EMPTY, program));
    RunKeepsConsistent(SetProgram(EMPTY, program), ops);
  }

  lemma {:induction false} RunKeepsConsistent(l: Line, ops: seq<Op>)
    requires Consistent(l)
    requires forall i :: 0 <= i < |ops| ==> Callable(ops[i]) && CleanOp(ops[i])
    ensures Consistent(ApplyAll(l, ops))
    decreases |ops|
  {
    if ops != [] {
      ApplyKeepsConsistent(l, ops[0]);
      RunKeepsConsistent(Apply(l, ops[0]), ops[1..]);
    }
  }

  /** A name with an equals sign: the map has the key "a=b", the vector says that "a" is "b". */
  lemma EqualsInTheName()
    ensures EMPTY.Valid() && Agrees(EMPTY) && !Agrees(AppendSwitch(EMPTY, "a=b", ""))
  {
    hide AppendSwitch;
    assert "a=b"[1] == '=' && '=' in "a=b";
    AppendSwitchAgreesIff(EMPTY, "a=b", "");
  }
}
