/**
 * What the Gnu grammar guarantees: the first `--` makes every later token
 * positional, parsing only ever appends, how each kind of token is read, and
 * that generating and then parsing gives the argument list back.
 */
module GnuLaws {
  import opened Wrappers
  import opened Opts
  import opened GnuGrammar
  import StrExt

  // ---------------------------------------------------------------------------
  // The token loop

  /** Parsing a concatenation is parsing the first part, then the second from where it stopped. */
  lemma {:induction false} RunConcat(g: Gnu, s: ParseState, xs: seq<string>, ys: seq<string>)
    ensures Run(g, s, xs + ys) == match Run(g, s, xs)
      case Err(e) => Err(e)
      case Ok(t) => Run(g, t, ys)
    decreases |xs|
  {
    if xs == [] {
      assert xs + ys == ys;
    } else {
      assert (xs + ys)[0] == xs[0] && (xs + ys)[1..] == xs[1..] + ys;
      match Step(g, s, xs[0]) {
        case Err(e) =>
        case Ok(t) => RunConcat(g, t, xs[1..], ys);
      }
    }
  }

  /** Once the separator has been seen, every token is appended to the positional arguments verbatim. */
  lemma {:induction false} RunAfterSeparator(g: Gnu, s: ParseState, ys: seq<string>)
    requires s.alwaysTreatAsPositional
    ensures Run(g, s, ys) == Ok(s.(positional := s.positional + ys))
    decreases |ys|
  {
    if ys != [] {
      var t := s.(positional := s.positional + [ys[0]]);
      assert Step(g, s, ys[0]) == Ok(t);
      assert Run(g, s, ys) == Run(g, t, ys[1..]);
      RunAfterSeparator(g, t, ys[1..]);
      assert s.positional + [ys[0]] + ys[1..] == s.positional + ys;
    } else {
      assert s.positional + ys == s.positional;
    }
  }

  /** Only a `--` token sets the flag that makes the rest positional. */
  lemma {:induction false} FlagNeedsSeparator(g: Gnu, s: ParseState, xs: seq<string>)
    requires !s.alwaysTreatAsPositional && "--" !in xs
    ensures Run(g, s, xs).Ok? ==> !Run(g, s, xs).value.alwaysTreatAsPositional
    decreases |xs|
  {
    if xs != [] {
      assert xs[0] in xs;
      match Step(g, s, xs[0]) {
        case Err(_) =>
        case Ok(t) =>
          assert forall x :: x in xs[1..] ==> x in xs;
          FlagNeedsSeparator(g, t, xs[1..]);
      }
    }
  }

  /**
   * The first `--` is dropped and every token after it goes verbatim to the
   * positional arguments, further `--`, `-f` and `--foo` included; under
   * Forbidden the `--` itself is an error, even when nothing follows it.
   */
  lemma SeparatorSplitsArguments(g: Gnu, pre: seq<string>, post: seq<string>)
    requires "--" !in pre
    ensures Parsed(g, pre + ["--"] + post) == match Parsed(g, pre)
      case Err(e) => Err(e)
      case Ok(a) =>
        if g.positional == Forbidden then Err(PositionalNotAllowed)
        else Ok(ParsedArgs(a.options, a.positional + post))
  {
    RunConcat(g, InitialState, pre, ["--"] + post);
    assert pre + ["--"] + post == pre + (["--"] + post);
    match Run(g, InitialState, pre) {
      case Err(e) =>
      case Ok(s) =>
        FlagNeedsSeparator(g, InitialState, pre);
        assert (["--"] + post)[0] == "--" && (["--"] + post)[1..] == post;
        if g.positional != Forbidden {
          RunAfterSeparator(g, s.(alwaysTreatAsPositional := true), post);
        }
    }
  }

  /** A lone `--`: an error under Forbidden, otherwise no options and no positional arguments. */
  lemma LoneSeparator(g: Gnu)
    ensures Parsed(g, ["--"]) == if g.positional == Forbidden then Err(PositionalNotAllowed) else Ok(ParsedArgs([], []))
  {
    SeparatorSplitsArguments(g, [], []);
    assert [] + ["--"] + [] == ["--"];
  }

  /** Before any `--`, and outside Free mode, nothing is ever added to the positional arguments. */
  lemma {:induction false} NoPositionalBeforeSeparator(g: Gnu, s: ParseState, xs: seq<string>)
    requires g.positional != Free && !s.alwaysTreatAsPositional && "--" !in xs
    ensures Run(g, s, xs).Ok? ==> Run(g, s, xs).value.positional == s.positional
    decreases |xs|
  {
    if xs != [] {
      assert xs[0] in xs;
      match Step(g, s, xs[0]) {
        case Err(_) =>
        case Ok(t) =>
          assert forall x :: x in xs[1..] ==> x in xs;
          NoPositionalBeforeSeparator(g, t, xs[1..]);
      }
    }
  }

  /** Outside Free mode, positional arguments only ever come from after a `--`; under Forbidden there are never any. */
  lemma PositionalOnlyAfterSeparator(g: Gnu, args: seq<string>)
    requires g.positional != Free
    requires Parsed(g, args).Ok?
    ensures "--" !in args ==> Parsed(g, args).value.positional == []
    ensures g.positional == Forbidden ==> "--" !in args && Parsed(g, args).value.positional == []
  {
    if "--" in args {
      var k :| 0 <= k < |args| && args[k] == "--";
      var pre, post := args[..k], args[k + 1..];
      if "--" in pre {
        var j :| 0 <= j < |pre| && pre[j] == "--";
        k := j;
        while "--" in args[..k]
          invariant 0 <= k < |args| && args[k] == "--"
          decreases k
        {
          var j' :| 0 <= j' < k && args[..k][j'] == "--";
          k := j';
        }
        pre, post := args[..k], args[k + 1..];
      }
      assert args == pre + ["--"] + post;
      SeparatorSplitsArguments(g, pre, post);
    } else {
      NoPositionalBeforeSeparator(g, InitialState, args);
    }
  }

  // ---------------------------------------------------------------------------
  // Parsing only appends

  /** `b` is `a` grown by parsing more tokens: nothing reordered or rewritten. */
  ghost predicate Grows(a: ParsedArgs, b: ParsedArgs)
  {
    Extends(ParseState(a.options, a.positional, false), ParseState(b.options, b.positional, false))
  }

  /**
   * If a token list parses, so does every prefix of it, and the longer list's
   * result only extends the prefix's: earlier options and positional
   * arguments are kept in place and only the last option's values can grow.
   */
  lemma ParsingOnlyAppends(g: Gnu, xs: seq<string>, ys: seq<string>)
    requires Parsed(g, xs + ys).Ok?
    ensures Parsed(g, xs).Ok?
    ensures Grows(Parsed(g, xs).value, Parsed(g, xs + ys).value)
  {
    RunConcat(g, InitialState, xs, ys);
    var s := Run(g, InitialState, xs).value;
    var u := Run(g, s, ys).value;
    assert Extends(s, u);
  }

  // ---------------------------------------------------------------------------
  // How single tokens are read

  /**
   * `--x` (before any separator) pushes exactly one long option: its name is
   * the text before the first `=`, and its values are the rest after the `=`,
   * or none when there is no `=`.
   */
  lemma LongToken(g: Gnu, s: ParseState, body: string)
    requires !s.alwaysTreatAsPositional && body != []
    ensures var r := Step(g, s, "--" + body);
      && r.Ok?
      && r.value.positional == s.positional
      && |r.value.options| == |s.options| + 1
      && r.value.options[..|s.options|] == s.options
      && var o := r.value.options[|s.options|];
      && o.name.Long?
      && '=' !in o.name.name
      && ('=' !in body ==> o.name.name == body && o.values == [])
      && ('=' in body ==> |o.values| == 1 && o.name.name + "=" + o.values[0] == body)
  {
    var arg := "--" + body;
    assert arg[2..] == body;
    assert arg != "--";
  }

  /**
   * `-abc` (before any separator): with grouping on, one valueless short
   * option per character, in order; with grouping off, a cluster of more than
   * one character fails with "cannot be grouped".
   */
  lemma ShortCluster(g: Gnu, s: ParseState, chars: string)
    requires !s.alwaysTreatAsPositional && chars != [] && chars[0] != '-'
    ensures Step(g, s, "-" + chars) ==
      if g.grouping || |chars| == 1 then Ok(s.(options := s.options + ShortOpts(chars)))
      else Err(CannotBeGrouped)
  {
    var arg := "-" + chars;
    assert arg[1..] == chars;
    assert arg != "--" && !IsLongToken(arg);
  }

  /** The same for a whole token list made of one cluster. */
  lemma ShortClusterParsed(g: Gnu, chars: string)
    requires chars != [] && chars[0] != '-'
    ensures Parsed(g, ["-" + chars]) ==
      if g.grouping || |chars| == 1 then Ok(ParsedArgs(ShortOpts(chars), []))
      else Err(CannotBeGrouped)
  {
    ShortCluster(g, InitialState, chars);
    RunCons(g, InitialState, "-" + chars, []);
    assert ["-" + chars] + [] == ["-" + chars];
    assert InitialState.options + ShortOpts(chars) == ShortOpts(chars);
  }

  /**
   * A bare `-` has no option name: it is handled as an unmarked token. With
   * grouping off, when that succeeds, the empty name is then an error.
   */
  lemma BareDash(g: Gnu, s: ParseState)
    requires !s.alwaysTreatAsPositional
    ensures Step(g, s, "-") ==
      if g.grouping || UnmarkedStep(g, s, "-").Err? then UnmarkedStep(g, s, "-") else Err(EmptyShortOption)
  {
    assert "-"[1..] == [];
    assert "-" != "--" && !IsLongToken("-");
    var before := UnmarkedStep(g, s, "-");
    if before.Ok? {
      assert before.value.options + ShortOpts([]) == before.value.options;
    }
  }

  /** A token that is neither `--` nor starts with `-`. */
  predicate Unmarked(v: string) { v == [] || v[0] != '-' }

  /**
   * An unmarked token before any separator: positional in Free mode;
   * otherwise another value of the most recently pushed option; and with no
   * option yet, an error that depends on the mode.
   */
  lemma UnmarkedToken(g: Gnu, args: seq<string>, t: string)
    requires "--" !in args && Unmarked(t)
    ensures Parsed(g, args + [t]) == match Parsed(g, args)
      case Err(e) => Err(e)
      case Ok(a) =>
        if g.positional == Free then Ok(ParsedArgs(a.options, a.positional + [t]))
        else if |a.options| > 0 then Ok(ParsedArgs(AppendToLast(a.options, t), a.positional))
        else if g.positional == Forbidden then Err(PositionalNotAllowed)
        else Err(PositionalMustBeUnambiguous)
  {
    RunConcat(g, InitialState, args, [t]);
    FlagNeedsSeparator(g, InitialState, args);
    assert t != "--";
  }

  // ---------------------------------------------------------------------------
  // Generation

  /** One unfolding of `OptionsTokens`, stated on its own so that the proofs using it stay small. */
  lemma OptionsTokensUnfold(g: Gnu, options: seq<ParsedOpt>)
    requires options != []
    ensures OptionsTokens(g, options)
         == OptionsTokens(g, options[..|options| - 1]) + OptionTokens(g, options[|options| - 1])
  {
  }

  lemma OptionsTokensSingle(g: Gnu, o: ParsedOpt)
    ensures OptionsTokens(g, [o]) == OptionTokens(g, o)
  {
    OptionsTokensUnfold(g, [o]);
    assert [o][..0] == [];
  }

  /** The options' tokens are the concatenation of each option's tokens, in order. */
  lemma {:induction false} OptionsTokensConcat(g: Gnu, xs: seq<ParsedOpt>, ys: seq<ParsedOpt>)
    ensures OptionsTokens(g, xs + ys) == OptionsTokens(g, xs) + OptionsTokens(g, ys)
    decreases |ys|
  {
    if ys == [] {
      assert xs + ys == xs;
    } else {
      OptionsTokensConcat(g, xs, ys[..|ys| - 1]);
      OptionsTokensConcatStep(g, xs, ys);
    }
  }

  lemma OptionsTokensConcatStep(g: Gnu, xs: seq<ParsedOpt>, ys: seq<ParsedOpt>)
    requires ys != []
    requires OptionsTokens(g, xs + ys[..|ys| - 1]) == OptionsTokens(g, xs) + OptionsTokens(g, ys[..|ys| - 1])
    ensures OptionsTokens(g, xs + ys) == OptionsTokens(g, xs) + OptionsTokens(g, ys)
  {
    var init, last := ys[..|ys| - 1], ys[|ys| - 1];
    var both := xs + ys;
    OptionsTokensUnfold(g, both);
    OptionsTokensUnfold(g, ys);
    ConcatInitLast(xs, ys);
    ConcatAssoc(OptionsTokens(g, both), OptionsTokens(g, xs), OptionsTokens(g, init), OptionTokens(g, last), OptionsTokens(g, ys));
  }

  lemma ConcatInitLast<T>(xs: seq<T>, ys: seq<T>)
    requires ys != []
    ensures (xs + ys)[..|xs + ys| - 1] == xs + ys[..|ys| - 1]
    ensures (xs + ys)[|xs + ys| - 1] == ys[|ys| - 1]
  {
  }

  /** `(p + q) + t` regrouped as `p + (q + t)`, with every part named. */
  lemma ConcatAssoc<T>(whole: seq<T>, p: seq<T>, q: seq<T>, t: seq<T>, qt: seq<T>)
    requires whole == (p + q) + t && qt == q + t
    ensures whole == p + qt
  {
  }

  /**
   * Generation emits the options one after the other, in their order, and
   * only then the positional part.
   */
  lemma GenerateOrder(g: Gnu, o: ParsedOpt, rest: seq<ParsedOpt>, positional: seq<string>)
    ensures Generated(g, ParsedArgs([o] + rest, positional))
         == OptionTokens(g, o) + Generated(g, ParsedArgs(rest, positional))
  {
    OptionsTokensConcat(g, [o], rest);
    OptionsTokensSingle(g, o);
    ConcatAssoc(Generated(g, ParsedArgs([o] + rest, positional)), OptionTokens(g, o),
      OptionsTokens(g, rest), PositionalTokens(g, positional), Generated(g, ParsedArgs(rest, positional)));
  }

  /**
   * The tokens of one option: one marked token naming it, then its values as
   * bare tokens in order; only a long option's first value in the Equals
   * format is carried inside the marked token instead.
   */
  lemma OptionTokensShape(g: Gnu, o: ParsedOpt)
    ensures var t := OptionTokens(g, o);
      var inside := if o.name.Long? && o.values != [] && g.longArg == Equals then 1 else 0;
      && |t| == |o.values| - inside + 1
      && t[1..] == o.values[inside..]
      && IsShortToken(t[0])
      && (o.name.Short? ==> t[0] == "-" + [o.name.c])
      && (o.name.Long? ==> IsLongToken(t[0]))
      && (o.name.Long? && inside == 0 ==> t[0][2..] == o.name.name)
  {
    var t := OptionTokens(g, o);
    match o.name
    case Short(c) =>
      assert t == ["-" + [c]] + o.values;
    case Long(n) =>
      assert ("--" + n)[2..] == n;
      if o.values != [] {
        FirstLongTokensReadBack(g, n, o.values[0]);
        var first := FirstLongTokens(g, n, o.values[0]);
        assert t == first + o.values[1..];
        if g.longArg == Space {
          assert t[1..] == [o.values[0]] + o.values[1..] == o.values;
        } else {
          assert t[1..] == o.values[1..];
        }
      }
  }

  /** Every option gives at least one token. */
  lemma {:induction false} OptionsTokensCount(g: Gnu, options: seq<ParsedOpt>)
    ensures |OptionsTokens(g, options)| >= |options|
    decreases |options|
  {
    if options != [] {
      OptionsTokensCount(g, options[..|options| - 1]);
      OptionTokensShape(g, options[|options| - 1]);
    }
  }

  /**
   * The generated tokens: the options' tokens (at least one per option) and
   * then, only when there are positional arguments, `--` when explicit and the
   * positional arguments in order. Nothing at all for an empty list.
   */
  lemma GeneratedLayout(g: Gnu, a: ParsedArgs)
    ensures var out := Generated(g, a);
      var n := |OptionsTokens(g, a.options)|;
      var sep := if g.explicitPositional && a.positional != [] then 1 else 0;
      && n >= |a.options|
      && |out| == n + sep + |a.positional|
      && out[..n] == OptionsTokens(g, a.options)
      && out[n + sep..] == a.positional
      && (sep == 1 ==> out[n] == "--")
      && (a.options == [] && a.positional == [] ==> out == [])
  {
    OptionsTokensCount(g, a.options);
  }

  /** An option the generator writes so that parsing reads it back as the same option. */
  predicate Regenerable(g: Gnu, o: ParsedOpt)
  {
    match o.name
    case Short(c) => c != '-' && forall i :: 0 <= i < |o.values| ==> Unmarked(o.values[i])
    case Long(n) =>
      && n != [] && '=' !in n
      && forall i :: (if g.longArg == Equals then 1 else 0) <= i < |o.values| ==> Unmarked(o.values[i])
  }

  /**
   * A sufficient condition for generation then parsing to be the identity
   * (outside it the round trip can fail, see `FreeModeValuesBecomePositional`):
   * option values that follow as bare tokens are re-read as values only when
   * the mode is not Free, and positional arguments survive only behind an
   * explicit `--`.
   */
  predicate RoundTrips(g: Gnu, a: ParsedArgs)
  {
    && g.positional != Free
    && (forall i :: 0 <= i < |a.options| ==> Regenerable(g, a.options[i]))
    && (a.positional != [] ==> g.positional == Explicit && g.explicitPositional)
  }

  /** Unmarked tokens after an option become its values, in order. */
  lemma {:induction false} RunValues(g: Gnu, s: ParseState, vs: seq<string>)
    requires g.positional != Free && !s.alwaysTreatAsPositional && |s.options| > 0
    requires forall i :: 0 <= i < |vs| ==> Unmarked(vs[i])
    ensures var n := |s.options| - 1;
      Run(g, s, vs) == Ok(s.(options := s.options[..n] + [s.options[n].(values := s.options[n].values + vs)]))
    decreases |vs|
  {
    var n := |s.options| - 1;
    if vs == [] {
      assert s.options[n].values + vs == s.options[n].values;
      assert s.options[..n] + [s.options[n]] == s.options;
    } else {
      assert vs[0] != "--";
      var t := s.(options := AppendToLast(s.options, vs[0]));
      assert Step(g, s, vs[0]) == Ok(t);
      RunValues(g, t, vs[1..]);
      assert t.options[..n] == s.options[..n];
      assert s.options[n].values + [vs[0]] + vs[1..] == s.options[n].values + vs;
    }
  }

  lemma PushThenValues(g: Gnu, s: ParseState, o: ParsedOpt, head: string, first: seq<string>, vs: seq<string>)
    requires g.positional != Free && !s.alwaysTreatAsPositional
    requires Step(g, s, head) == Ok(s.(options := s.options + [ParsedOpt(o.name, first)]))
    requires o.values == first + vs
    requires forall i :: 0 <= i < |vs| ==> Unmarked(vs[i])
    ensures Run(g, s, [head] + vs) == Ok(s.(options := s.options + [o]))
  {
    var t := s.(options := s.options + [ParsedOpt(o.name, first)]);
    RunConcat(g, s, [head], vs);
    assert [head][1..] == [];
    RunValues(g, t, vs);
    assert t.options[..|t.options| - 1] == s.options;
  }

  /** Parsing one generated option pushes exactly that option. */
  lemma RunOption(g: Gnu, s: ParseState, o: ParsedOpt)
    requires g.positional != Free && !s.alwaysTreatAsPositional && Regenerable(g, o)
    ensures Run(g, s, OptionTokens(g, o)) == Ok(s.(options := s.options + [o]))
  {
    match o.name
    case Short(c) =>
      var head := "-" + [c];
      assert head[1..] == [c] && head != "--" && !IsLongToken(head);
      assert ShortOpts([c]) == [ParsedOpt(Short(c), [])];
      PushThenValues(g, s, o, head, [], o.values);
    case Long(n) =>
      var bare := "--" + n;
      assert bare[2..] == n && bare != "--";
      if o.values == [] {
        assert Step(g, s, bare) == Ok(s.(options := s.options + [o]));
        assert OptionTokens(g, o) == [bare] + [];
        PushThenValues(g, s, o, bare, [], []);
      } else if g.longArg == Equals {
        var head := "--" + n + "=" + o.values[0];
        assert head[2..] == n + "=" + o.values[0] && head != "--";
        StrExt.SplitAtFirstUnique(SplitKv(head[2..]).0, SplitKv(head[2..]).1.value, n, o.values[0], '=');
        PushThenValues(g, s, o, head, [o.values[0]], o.values[1..]);
      } else {
        assert OptionTokens(g, o) == [bare] + o.values;
        PushThenValues(g, s, o, bare, [], o.values);
      }
  }

  /** Parsing the generated options pushes exactly those options. */
  lemma {:induction false} RunOptions(g: Gnu, s: ParseState, opts: seq<ParsedOpt>)
    requires g.positional != Free && !s.alwaysTreatAsPositional
    requires forall i :: 0 <= i < |opts| ==> Regenerable(g, opts[i])
    ensures Run(g, s, OptionsTokens(g, opts)) == Ok(s.(options := s.options + opts))
    decreases |opts|
  {
    if opts == [] {
      assert s.options + opts == s.options;
    } else {
      RunOptions(g, s, opts[..|opts| - 1]);
      RunOptionsStep(g, s, opts);
    }
  }

  lemma RunOptionsStep(g: Gnu, s: ParseState, opts: seq<ParsedOpt>)
    requires g.positional != Free && !s.alwaysTreatAsPositional && opts != []
    requires Regenerable(g, opts[|opts| - 1])
    requires Run(g, s, OptionsTokens(g, opts[..|opts| - 1])) == Ok(s.(options := s.options + opts[..|opts| - 1]))
    ensures Run(g, s, OptionsTokens(g, opts)) == Ok(s.(options := s.options + opts))
  {
    var init, last := opts[..|opts| - 1], opts[|opts| - 1];
    OptionsTokensUnfold(g, opts);
    RunConcat(g, s, OptionsTokens(g, init), OptionTokens(g, last));
    var t := s.(options := s.options + init);
    RunOption(g, t, last);
    AppendInitLast(s.options, opts);
  }

  lemma AppendInitLast<T>(xs: seq<T>, ys: seq<T>)
    requires ys != []
    ensures xs + ys[..|ys| - 1] + [ys[|ys| - 1]] == xs + ys
  {
    assert ys[..|ys| - 1] + [ys[|ys| - 1]] == ys;
  }

  /** Parsing the generated positional part, behind an explicit `--`, appends exactly those arguments. */
  lemma RunPositional(g: Gnu, s: ParseState, positional: seq<string>)
    requires !s.alwaysTreatAsPositional
    requires positional != [] ==> g.positional != Forbidden && g.explicitPositional
    ensures Run(g, s, PositionalTokens(g, positional))
         == Ok(s.(positional := s.positional + positional, alwaysTreatAsPositional := positional != []))
  {
    if positional == [] {
      assert s.positional + positional == s.positional;
    } else {
      var tokens := PositionalTokens(g, positional);
      assert tokens == ["--"] + positional;
      assert tokens[0] == "--" && tokens[1..] == positional;
      var t := s.(alwaysTreatAsPositional := true);
      assert Step(g, s, "--") == Ok(t);
      assert Run(g, s, tokens) == Run(g, t, positional);
      RunAfterSeparator(g, t, positional);
    }
  }

  /**
   * Generating an argument list and parsing the tokens gives the list back,
   * for every list `RoundTrips` admits, a sufficient condition for the round
   * trip (outside it, see `FreeModeValuesBecomePositional`).
   */
  lemma GenerateThenParse(g: Gnu, a: ParsedArgs)
    requires RoundTrips(g, a)
    ensures Parsed(g, Generated(g, a)) == Ok(a)
  {
    var optionTokens, positionalTokens := OptionsTokens(g, a.options), PositionalTokens(g, a.positional);
    RunConcat(g, InitialState, optionTokens, positionalTokens);
    RunOptions(g, InitialState, a.options);
    var s := ParseState(a.options, [], false);
    assert InitialState.options + a.options == a.options;
    RunPositional(g, s, a.positional);
    assert s.positional + a.positional == a.positional;
  }

  // ---------------------------------------------------------------------------
  // Worked examples from the source's own unit tests

  /** One token, then the rest. */
  lemma RunCons(g: Gnu, s: ParseState, x: string, xs: seq<string>)
    ensures Run(g, s, [x] + xs) == if Step(g, s, x).Err? then Err(Step(g, s, x).error) else Run(g, Step(g, s, x).value, xs)
  {
    assert ([x] + xs)[0] == x && ([x] + xs)[1..] == xs;
  }

  /** Generation with the default grammar and with `--name value` long options. */
  lemma GenerateExample()
    ensures var a := ParsedArgs([ParsedOpt(Long("long1"), ["42"]), ParsedOpt(Short('s'), [])], ["pos1", "pos2"]);
      && Generated(DefaultGnu, a) == ["--long1=42", "-s", "--", "pos1", "pos2"]
      && Generated(DefaultGnu.(longArg := Space), a) == ["--long1", "42", "-s", "--", "pos1", "pos2"]
      && Generated(DefaultGnu.(explicitPositional := false), a) == ["--long1=42", "-s", "pos1", "pos2"]
  {
    var o1, o2 := ParsedOpt(Long("long1"), ["42"]), ParsedOpt(Short('s'), []);
    var pos := ["pos1", "pos2"];
    assert [o1, o2] == [o1] + [o2] && [o2] == [o2] + [];
    assert "--" + "long1" + "=" + "42" == "--long1=42" && "--" + "long1" == "--long1" && "-" + ['s'] == "-s";
    var gs := [DefaultGnu, DefaultGnu.(longArg := Space), DefaultGnu.(explicitPositional := false)];
    forall g | g in gs
      ensures Generated(g, ParsedArgs([o1, o2], pos))
           == OptionTokens(g, o1) + OptionTokens(g, o2) + PositionalTokens(g, pos)
    {
      GenerateOrder(g, o1, [o2], pos);
      GenerateOrder(g, o2, [], pos);
    }
    assert gs[0] in gs && gs[1] in gs && gs[2] in gs;
  }

  /** With grouping, `-xy` is read exactly like `-x -y`, whatever follows. */
  lemma GroupedPairSplits(g: Gnu, s: ParseState, x: char, y: char, post: seq<string>)
    requires g.grouping && !s.alwaysTreatAsPositional && x != '-' && y != '-'
    ensures Run(g, s, ["-" + [x, y]] + post) == Run(g, s, ["-" + [x]] + (["-" + [y]] + post))
  {
    ShortCluster(g, s, [x, y]);
    ShortCluster(g, s, [x]);
    var afterX := Step(g, s, "-" + [x]).value;
    ShortCluster(g, afterX, [y]);
    assert ShortOpts([x, y]) == ShortOpts([x]) + ShortOpts([y]);
    assert s.options + ShortOpts([x, y]) == s.options + ShortOpts([x]) + ShortOpts([y]);
    RunCons(g, s, "-" + [x, y], post);
    RunCons(g, s, "-" + [x], ["-" + [y]] + post);
    RunCons(g, afterX, "-" + [y], post);
  }

  /** `-a arg1 -- -f --foo` with the default grammar: after `--`, option-like tokens are positional. */
  lemma SeparatorExample()
    ensures Parsed(DefaultGnu, ["-a", "arg1", "--", "-f", "--foo"])
         == Ok(ParsedArgs([ParsedOpt(Short('a'), ["arg1"])], ["-f", "--foo"]))
  {
    var g := DefaultGnu;
    var oa := ParsedOpt(Short('a'), ["arg1"]);
    var pre, post := ["-a", "arg1"], ["-f", "--foo"];
    assert Parsed(g, pre) == Ok(ParsedArgs([oa], [])) by {
      assert "-" + ['a'] == "-a";
      assert OptionTokens(g, oa) == pre;
      RunOption(g, InitialState, oa);
      assert InitialState.options + [oa] == [oa];
    }
    SeparatorSplitsArguments(g, pre, post);
    assert pre + ["--"] + post == ["-a", "arg1", "--", "-f", "--foo"];
    assert [] + post == post;
  }

  /** `-o "" - -- --` with the default grammar: `""` and `-` are values of `-o`, the second `--` is positional. */
  lemma BareDashExample()
    ensures Parsed(DefaultGnu, ["-o", "", "-", "--", "--"])
         == Ok(ParsedArgs([ParsedOpt(Short('o'), ["", "-"])], ["--"]))
  {
    var pre := ["-o", "", "-"];
    BareDashPrefix();
    SeparatorSplitsArguments(DefaultGnu, pre, ["--"]);
    assert pre + ["--"] + ["--"] == ["-o", "", "-", "--", "--"];
    assert [] + ["--"] == ["--"];
  }

  lemma BareDashPrefix()
    ensures Parsed(DefaultGnu, ["-o", "", "-"]) == Ok(ParsedArgs([ParsedOpt(Short('o'), ["", "-"])], []))
  {
    var g := DefaultGnu;
    var s0 := InitialState;
    var s1 := s0.(options := [ParsedOpt(Short('o'), [])]);
    var s2 := s1.(options := [ParsedOpt(Short('o'), [""])]);
    var s3 := s2.(options := [ParsedOpt(Short('o'), ["", "-"])]);
    BareDashSteps(s0, s1, s2, s3);
    RunCons(g, s0, "-o", ["", "-"]);
    RunCons(g, s1, "", ["-"]);
    RunCons(g, s2, "-", []);
  }

  lemma BareDashSteps(s0: ParseState, s1: ParseState, s2: ParseState, s3: ParseState)
    requires s0 == InitialState
    requires s1 == s0.(options := [ParsedOpt(Short('o'), [])])
    requires s2 == s1.(options := [ParsedOpt(Short('o'), [""])])
    requires s3 == s2.(options := [ParsedOpt(Short('o'), ["", "-"])])
    ensures Step(DefaultGnu, s0, "-o") == Ok(s1)
    ensures Step(DefaultGnu, s1, "") == Ok(s2)
    ensures Step(DefaultGnu, s2, "-") == Ok(s3)
  {
    var g := DefaultGnu;
    ShortCluster(g, s0, "o");
    assert "-" + "o" == "-o";
    assert ShortOpts("o") == [ParsedOpt(Short('o'), [])];
    assert s0.options + ShortOpts("o") == s1.options;
    assert [] + [""] == [""];
    assert AppendToLast(s1.options, "") == s2.options;
    BareDash(g, s2);
    assert [""] + ["-"] == ["", "-"];
    assert AppendToLast(s2.options, "-") == s3.options;
  }

  /**
   * In Free mode a bare token after an option is positional, so the
   * generator's bare values do not read back as values there.
   */
  lemma FreeModeValuesBecomePositional()
    ensures var g := DefaultGnu.(positional := Free);
      var a := ParsedArgs([ParsedOpt(Short('a'), ["x"])], []);
      && Generated(g, a) == ["-a", "x"]
      && Parsed(g, Generated(g, a)) == Ok(ParsedArgs([ParsedOpt(Short('a'), [])], ["x"]))
  {
    var g := DefaultGnu.(positional := Free);
    var o := ParsedOpt(Short('a'), ["x"]);
    OptionsTokensSingle(g, o);
    assert "-" + ['a'] == "-a";
    assert Generated(g, ParsedArgs([o], [])) == ["-a"] + ["x"];
    ShortCluster(g, InitialState, "a");
    assert ShortOpts("a") == [ParsedOpt(Short('a'), [])];
    assert InitialState.options + ShortOpts("a") == [ParsedOpt(Short('a'), [])];
    var s := Step(g, InitialState, "-a").value;
    RunCons(g, InitialState, "-a", ["x"]);
    RunCons(g, s, "x", []);
    assert ["x"] + [] == ["x"] && s.positional + ["x"] == ["x"];
  }
}
