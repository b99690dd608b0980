/**
 What is found under a switch's name, and what stands in the printed line, both told by the
 characters of the strings.
 */
module SwitchLookup {
  import opened Wrappers
  import opened Text
  import opened Quoting
  import opened CommandLineModel
  import opened CommandLineProofs

  // ----- Lookup -----

  /** The same but for the case of the letters A to Z. */
  predicate SameButCase(a: string, b: string) {
    && |a| == |b|
    && forall i :: 0 <= i < |a| ==>
         || a[i] == b[i]
         || ('A' <= a[i] <= 'Z' && b[i] as int == a[i] as int + 0x20)
         || ('A' <= b[i] <= 'Z' && a[i] as int == b[i] as int + 0x20)
  }

  lemma SameLowerIff(a: string, b: string)
    ensures Lower(a) == Lower(b) <==> SameButCase(a, b)
  {
    if Lower(a) == Lower(b) {
      forall i | 0 <= i < |a|
        ensures || a[i] == b[i]
                || ('A' <= a[i] <= 'Z' && b[i] as int == a[i] as int + 0x20)
                || ('A' <= b[i] <= 'Z' && a[i] as int == b[i] as int + 0x20)
      {
        assert |Lower(a)| == |a| && |Lower(b)| == |b|;
        assert Lower(a)[i] == ToLowerAscii(a[i]) && Lower(b)[i] == ToLowerAscii(b[i]);
      }
    }
    if SameButCase(a, b) {
      forall i | 0 <= i < |a| ensures Lower(a)[i] == Lower(b)[i] {
      }
    }
  }

  /** A name that is written without a prefix. */
  predicate IsBare(name: string) {
    name == "" || (name[0] != '-' && name[0] != '/')
  }

  lemma NarrowAdds(a: string, b: string)
    requires IsNarrow(a) && IsNarrow(b)
    ensures IsNarrow(a + b)
  {
  }

  lemma PrefixedLength(prefix: string, name: string)
    requires prefix in {"", "--", "-", "/"} && IsBare(name)
    ensures IsNarrow(prefix) && SwitchPrefixLength(prefix + name) == |prefix|
  {
  }

  lemma KeyOfBare(prefix: string, name: string)
    requires prefix in {"", "--", "-", "/"} && IsBare(name) && IsNarrow(name)
    ensures SwitchKey(prefix + name) == Lower(name)
  {
    hide Lower, Widen, SwitchPrefixLength, IsNarrow, IsBare;
    PrefixedLength(prefix, name);
    NarrowAdds(prefix, name);
    WideName(prefix + name);
    assert (prefix + Lower(name))[|prefix|..] == Lower(name);
  }

  /**
   A switch that was appended with any prefix, or with none, is found by its bare name in any case,
   with its value; every other name finds what it found before.
   */
  lemma SwitchIsFound(l: Line, prefix: string, name: string, value: string, asked: string)
    requires l.Valid() && IsNarrow(name) && prefix in {"", "--", "-", "/"} && IsBare(name)
    ensures var r := AppendSwitch(l, prefix + name, value);
            && (SameButCase(asked, name) ==> HasSwitch(r, asked) && GetSwitchValue(r, asked) == value)
            && (!SameButCase(asked, name) ==>
                  (HasSwitch(r, asked) <==> HasSwitch(l, asked)) && GetSwitchValue(r, asked) == GetSwitchValue(l, asked))
  {
    hide Lower, SwitchKey, SameButCase, StoredSwitch;
    KeyOfBare(prefix, name);
    SameLowerIff(asked, name);
  }

  // ----- The printed line -----

  /** Only a space, a backslash or a quote makes an argument be quoted; then it is set in quotes. */
  lemma QuotedOnlyIfNeeded(arg: string)
    ensures Quote(arg) == arg <==> ' ' !in arg && '\\' !in arg && '"' !in arg
    ensures Quote(arg) != arg ==>
              var q := Quote(arg);
              |q| >= |arg| + 2 && q[0] == '"' && q[|q| - 1] == '"'
  {
    BodyIsNoShorter(arg);
    if i :| 0 <= i < |arg| && ForcesQuotes(arg[i]) {
      assert NeedsQuotes(arg);
    }
    assert ' ' in arg || '\\' in arg || '"' in arg ==> NeedsQuotes(arg) by {
      if c :| c in arg && ForcesQuotes(c) {
        var i :| 0 <= i < |arg| && arg[i] == c;
        assert ForcesQuotes(arg[i]);
      }
    }
  }

  lemma {:induction false} BodyIsNoShorter(arg: string)
    ensures |QuoteBody(arg)| >= |arg|
  {
    if arg != "" {
      BodyIsNoShorter(arg[1..]);
    }
  }

  /** The printed tokens stand in order with one space between two; behind "--" nothing is a switch. */
  lemma {:induction false} PrintedInOrder(a: seq<string>, b: seq<string>, parse: bool)
    requires a != [] && b != []
    ensures PrintTokens(a + b, parse) == PrintTokens(a, parse) + " " + PrintTokens(b, parse && "--" !in a)
    decreases |a|
  {
    hide PrintToken;
    assert (a + b)[0] == a[0] && (a + b)[1..] == a[1..] + b;
    var text, parse' := PrintToken(a[0], parse), parse && a[0] != TERMINATOR;
    if |a| == 1 {
      assert a[1..] + b == b && a == [a[0]];
      assert text + (" " + PrintTokens(b, parse')) == (text + "") + " " + PrintTokens(b, parse');
    } else {
      PrintedInOrder(a[1..], b, parse');
      assert a == [a[0]] + a[1..];
      var more, rest := PrintTokens(a[1..], parse'), PrintTokens(b, parse && "--" !in a);
      assert text + (" " + (more + " " + rest)) == (text + (" " + more)) + " " + rest;
    }
  }

  /**
   A single token, by its characters: of a switch only the value is quoted, and an empty value is left
   out with its equals sign.
   */
  lemma PrintedToken(token: string, parse: bool)
    ensures var isSwitch := parse && |token| > 1 && (token[0] == '-' || token[0] == '/') && token != "--";
            && (!isSwitch ==> PrintTokens([token], parse) == Quote(token))
            && (isSwitch && '=' !in token ==> PrintTokens([token], parse) == token)
            && forall eq :: isSwitch && 0 <= eq < |token| && token[eq] == '=' && '=' !in token[..eq] ==>
                 PrintTokens([token], parse)
                 == if token[eq + 1..] == "" then token[..eq] else token[..eq] + "=" + Quote(token[eq + 1..])
  {
    SwitchByCharacters(token);
    hide Quote, ParseSwitch, PrintToken, FindEquals;
    assert PrintTokens([token], parse) == PrintToken(token, parse) + "" == PrintToken(token, parse);
    if !(parse && ParseSwitch(token).Some? && token != "--") {
      PrintedArgument(token, parse);
    } else if '=' !in token {
      PrintedBareSwitch(token);
    } else {
      forall eq | 0 <= eq < |token| && token[eq] == '=' && '=' !in token[..eq]
        ensures PrintToken(token, parse)
             == if token[eq + 1..] == "" then token[..eq] else token[..eq] + "=" + Quote(token[eq + 1..])
      {
        PrintedSwitch(token, eq);
      }
    }
  }

  lemma PrintedArgument(token: string, parse: bool)
    requires !(parse && ParseSwitch(token).Some? && token != "--")
    ensures PrintToken(token, parse) == Quote(token)
  {
    hide Quote, ParseSwitch;
  }

  lemma PrintedBareSwitch(token: string)
    requires ParseSwitch(token).Some? && token != "--" && '=' !in token
    ensures PrintToken(token, true) == token
  {
    hide Quote, ParseSwitch;
    SwitchByCharacters(token);
  }

  lemma PrintedSwitch(token: string, eq: nat)
    requires ParseSwitch(token).Some? && token != "--"
    requires eq < |token| && token[eq] == '=' && '=' !in token[..eq]
    ensures PrintToken(token, true)
         == if token[eq + 1..] == "" then token[..eq] else token[..eq] + "=" + Quote(token[eq + 1..])
  {
    hide Quote;
    hide FindEquals;
    var name, value := token[..eq], token[eq + 1..];
    assert ParseSwitch(token) == Some(Switch(name, value));
    assert name + "" == name && name + ("=" + Quote(value)) == name + "=" + Quote(value);
  }

}
