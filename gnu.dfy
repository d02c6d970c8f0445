/**
 * The configurable GNU-style grammar: a left-to-right parser from argument
 * tokens to a `ParsedArgs`, and the generator that turns a `ParsedArgs` back
 * into tokens.
 */
module GnuGrammar {
  import opened Wrappers
  import opened Opts
  import StrExt

  datatype PositionalArgumentsMode =
    | Forbidden
      /** Positional arguments anywhere; unmarked tokens are always positional. */
    | Free
      /** Positional arguments only after a `--`; unmarked tokens before it are option values. */
    | Explicit

  datatype LongOptionArgumentFormat =
    | Equals  // `--option=argument`
    | Space   // `--option argument`

  /** The grammar's settings; `explicitPositional` only affects generation. */
  datatype Gnu = Gnu(
    positional: PositionalArgumentsMode,
    explicitPositional: bool,
    grouping: bool,
    longArg: LongOptionArgumentFormat)

  const DefaultGnu := Gnu(Explicit, true, true, Equals)

  datatype ParseError =
    | PositionalNotAllowed
    | PositionalMustBeUnambiguous
    | CannotBeGrouped
      /** A bare `-` with grouping off: the source unwraps the first character of an empty name and panics. */
    | EmptyShortOption

  function Message(e: ParseError): (r: string)
    ensures r != []
  {
    match e
    case PositionalNotAllowed => "Positional arguments are not allowed"
    case PositionalMustBeUnambiguous =>
      "Positional arguments must be unambiguous. " + "Add a '--' before specifying positional arguments"
    case CannotBeGrouped => "Short options cannot be grouped together"
    case EmptyShortOption => "called `Option::unwrap()` on a `None` value"
  }

  /** Each error has its own message. */
  lemma MessagesDistinct(e1: ParseError, e2: ParseError)
    requires e1 != e2
    ensures Message(e1) != Message(e2)
  {
    // The texts differ at their first character, except the two about
    // positional arguments, which part after "Positional arguments ".
    MessageMarks(e1);
    MessageMarks(e2);
  }

  /** The first character of a message, and its 22nd, tell the error apart. */
  lemma MessageMarks(e: ParseError)
    ensures Message(e)[0] == (match e
      case CannotBeGrouped => 'S'
      case EmptyShortOption => 'c'
      case _ => 'P')
    ensures Message(e)[0] == 'P' ==> Message(e)[21] == (if e.PositionalNotAllowed? then 'a' else 'm')
  {
    match e
    case PositionalNotAllowed =>
      assert Message(e)[0] == "Positional arguments are not allowed"[0];
    case PositionalMustBeUnambiguous =>
      var head := "Positional arguments must be unambiguous. ";
      assert Message(e)[0] == head[0];
    case CannotBeGrouped =>
      assert Message(e)[0] == "Short options cannot be grouped together"[0];
    case EmptyShortOption =>
      assert Message(e)[0] == "called `Option::unwrap()` on a `None` value"[0];
  }

  /** `gnu.rs`'s own `split_kv`: the name before the first `=`, and the value after it if there is one. */
  function SplitKv(arg: string): (r: (string, Option<string>))
    ensures r.1.None? <==> '=' !in arg
    ensures r.1.None? ==> r.0 == arg
    ensures r.1.Some? ==> r.0 + "=" + r.1.value == arg && '=' !in r.0
  {
    match StrExt.FindFirst(arg, '=')
    case None => (arg, None)
    case Some(pos) =>
      assert arg == arg[..pos] + "=" + arg[pos + 1..];
      (arg[..pos], Some(arg[pos + 1..]))
  }

  // ---------------------------------------------------------------------------
  // Parsing, as functions on the parser's state

  /** The value of `GnuParserState`: its two vectors and its flag. */
  datatype ParseState = ParseState(
    options: seq<ParsedOpt>,
    positional: seq<string>,
    alwaysTreatAsPositional: bool)

  const InitialState := ParseState([], [], false)

  /** `s` grows into `t`: nothing is reordered or rewritten, only the last option's values and the ends grow. */
  ghost predicate Extends(s: ParseState, t: ParseState)
  {
    && s.positional <= t.positional
    && |s.options| <= |t.options|
    && (forall i :: 0 <= i < |s.options| - 1 ==> t.options[i] == s.options[i])
    && (|s.options| > 0 ==>
          && t.options[|s.options| - 1].name == s.options[|s.options| - 1].name
          && s.options[|s.options| - 1].values <= t.options[|s.options| - 1].values)
    && (s.alwaysTreatAsPositional ==> t.alwaysTreatAsPositional)
  }

  lemma ExtendsTransitive(s: ParseState, t: ParseState, u: ParseState)
    requires Extends(s, t) && Extends(t, u)
    ensures Extends(s, u)
  {
    if |s.options| > 0 {
      var k := |s.options| - 1;
      if k < |t.options| - 1 {
        assert u.options[k] == t.options[k];
      }
    }
  }

  predicate IsLongToken(arg: string) { |arg| >= 2 && arg[0] == '-' && arg[1] == '-' }

  predicate IsShortToken(arg: string) { |arg| >= 1 && arg[0] == '-' }

  /** The options with `arg` appended to the values of the last one. */
  function AppendToLast(options: seq<ParsedOpt>, arg: string): seq<ParsedOpt>
    requires |options| > 0
  {
    var last := options[|options| - 1];
    options[|options| - 1 := last.(values := last.values + [arg])]
  }

  /** One valueless short option per character, in order. */
  function ShortOpts(chars: string): seq<ParsedOpt>
  {
    seq(|chars|, i requires 0 <= i < |chars| => ParsedOpt(Short(chars[i]), []))
  }

  /** `add_unmarked`: a token that is neither an option nor the separator. */
  function UnmarkedStep(g: Gnu, s: ParseState, arg: string): (r: Result<ParseState, ParseError>)
    ensures r.Ok? <==> g.positional == Free || |s.options| > 0
    ensures r.Ok? ==> Extends(s, r.value)
  {
    if g.positional == Free then Ok(s.(positional := s.positional + [arg]))
    else if |s.options| > 0 then Ok(s.(options := AppendToLast(s.options, arg)))
    else if g.positional == Forbidden then Err(PositionalNotAllowed)
    else Err(PositionalMustBeUnambiguous)
  }

  /** `add_short`: a token starting with a single `-`. */
  function ShortStep(g: Gnu, s: ParseState, arg: string): (r: Result<ParseState, ParseError>)
    requires |arg| >= 1
    ensures r.Ok? ==> Extends(s, r.value)
  {
    var option := arg[1..];
    var before := if option == [] then UnmarkedStep(g, s, arg) else Ok(s);
    if before.Err? then before
    else if !g.grouping && |option| > 1 then Err(CannotBeGrouped)
    else if !g.grouping && option == [] then Err(EmptyShortOption)
    else
      var t := before.value.(options := before.value.options + ShortOpts(option));
      ExtendsTransitive(s, before.value, t);
      Ok(t)
  }

  /** `add_long`: a token starting with `--` other than `--` itself; it never fails. */
  function LongStep(s: ParseState, arg: string): (t: ParseState)
    requires |arg| >= 2
    ensures Extends(s, t)
  {
    var (name, value) := SplitKv(arg[2..]);
    s.(options := s.options + [ParsedOpt(Long(name), if value.Some? then [value.value] else [])])
  }

  /** `parse_next`: one token. */
  function Step(g: Gnu, s: ParseState, arg: string): (r: Result<ParseState, ParseError>)
    ensures r.Ok? ==> Extends(s, r.value)
  {
    if s.alwaysTreatAsPositional then Ok(s.(positional := s.positional + [arg]))
    else if arg == "--" then
      if g.positional == Forbidden then Err(PositionalNotAllowed)
      else Ok(s.(alwaysTreatAsPositional := true))
    else if IsLongToken(arg) then Ok(LongStep(s, arg))
    else if IsShortToken(arg) then ShortStep(g, s, arg)
    else UnmarkedStep(g, s, arg)
  }

  /** The token loop: every token in order, stopping at the first error. */
  function Run(g: Gnu, s: ParseState, args: seq<string>): (r: Result<ParseState, ParseError>)
    ensures r.Ok? ==> Extends(s, r.value)
    decreases |args|
  {
    if args == [] then Ok(s)
    else match Step(g, s, args[0])
      case Err(e) => Err(e)
      case Ok(t) =>
        var r := Run(g, t, args[1..]);
        if r.Ok? then ExtendsTransitive(s, t, r.value); r else r
  }

  /** `Grammar::parse` for this grammar: the whole token list, or the first error. */
  function Parsed(g: Gnu, args: seq<string>): (r: Result<ParsedArgs, ParseError>)
    ensures args == [] ==> r == Ok(ParsedArgs([], []))
  {
    match Run(g, InitialState, args)
    case Err(e) => Err(e)
    case Ok(s) => Ok(ParsedArgs(s.options, s.positional))
  }

  function OutcomeOf(r: Result<ParseState, ParseError>): Outcome<ParseError>
  {
    if r.Ok? then Pass else Fail(r.error)
  }

  // ---------------------------------------------------------------------------
  // Parsing, as the source does it: a state object updated token by token

  class GnuParserState {
    const grammar: Gnu
    var options: seq<ParsedOpt>
    var positional: seq<string>
    var alwaysTreatAsPositional: bool

    constructor (grammar: Gnu)
      ensures this.grammar == grammar && State() == InitialState
    {
      this.grammar := grammar;
      options := [];
      positional := [];
      alwaysTreatAsPositional := false;
    }

    function State(): ParseState
      reads this
    {
      ParseState(options, positional, alwaysTreatAsPositional)
    }

    method ParseNext(arg: string) returns (res: Outcome<ParseError>)
      modifies this
      ensures res == OutcomeOf(Step(grammar, old(State()), arg))
      ensures res.Pass? ==> State() == Step(grammar, old(State()), arg).value
    {
      if alwaysTreatAsPositional {
        AddPositional(arg);
        return Pass;
      }
      // All arguments following the first `--` are positional
      if arg == "--" {
        if grammar.positional == Forbidden {
          return Fail(PositionalNotAllowed);
        }
        alwaysTreatAsPositional := true;
        return Pass;
      }
      if |arg| >= 2 && arg[0] == '-' && arg[1] == '-' {
        res := AddLong(arg);
        return;
      }
      if |arg| >= 1 && arg[0] == '-' {
        res := AddShort(arg);
        return;
      }
      res := AddUnmarked(arg);
    }

    method AddUnmarked(arg: string) returns (res: Outcome<ParseError>)
      modifies this
      ensures res == OutcomeOf(UnmarkedStep(grammar, old(State()), arg))
      ensures res.Pass? ==> State() == UnmarkedStep(grammar, old(State()), arg).value
    {
      if grammar.positional == Free {
        AddPositional(arg);
        return Pass;
      }
      if |options| > 0 {
        var last := options[|options| - 1];
        options := options[|options| - 1 := last.(values := last.values + [arg])];
        return Pass;
      }
      if grammar.positional == Forbidden {
        return Fail(PositionalNotAllowed);
      }
      return Fail(PositionalMustBeUnambiguous);
    }

    method AddPositional(arg: string)
      modifies this
      ensures positional == old(positional) + [arg]
      ensures options == old(options) && alwaysTreatAsPositional == old(alwaysTreatAsPositional)
    {
      positional := positional + [arg];
    }

    method AddShort(arg: string) returns (res: Outcome<ParseError>)
      requires |arg| >= 1
      modifies this
      ensures res == OutcomeOf(ShortStep(grammar, old(State()), arg))
      ensures res.Pass? ==> State() == ShortStep(grammar, old(State()), arg).value
    {
      var option := arg[1..];
      // A stand-alone `-` is an unmarked argument, not an option
      if option == [] {
        var before := AddUnmarked(arg);
        if before.Fail? {
          return before;
        }
      }
      if !grammar.grouping {
        if |option| > 1 {
          return Fail(CannotBeGrouped);
        }
        if option == [] {
          return Fail(EmptyShortOption);
        }
        AddShortChar(option[0]);
        assert ShortOpts(option) == [ParsedOpt(Short(option[0]), [])];
        return Pass;
      }
      // `-abc` is `-a -b -c`
      ghost var start := options;
      for i := 0 to |option|
        invariant options == start + ShortOpts(option[..i])
        invariant positional == old(positional) || positional == old(positional) + [arg]
        invariant positional == ShortStep(grammar, old(State()), arg).value.positional
        invariant alwaysTreatAsPositional == old(alwaysTreatAsPositional)
      {
        assert ShortOpts(option[..i + 1]) == ShortOpts(option[..i]) + [ParsedOpt(Short(option[i]), [])];
        AddShortChar(option[i]);
      }
      assert option[..|option|] == option;
      return Pass;
    }

    method AddShortChar(c: char)
      modifies this
      ensures options == old(options) + [ParsedOpt(Short(c), [])]
      ensures positional == old(positional) && alwaysTreatAsPositional == old(alwaysTreatAsPositional)
    {
      options := options + [ParsedOpt(Short(c), [])];
    }

    method AddLong(arg: string) returns (res: Outcome<ParseError>)
      requires |arg| >= 2
      modifies this
      ensures res == Pass && State() == LongStep(old(State()), arg)
    {
      var (name, value) := SplitKv(arg[2..]);
      options := options + [ParsedOpt(Long(name), if value.Some? then [value.value] else [])];
      return Pass;
    }
  }

  /** `Grammar::parse`: feeds every token to a fresh parser state and stops at the first error. */
  method Parse(g: Gnu, args: seq<string>) returns (r: Result<ParsedArgs, ParseError>)
    ensures r == Parsed(g, args)
  {
    var state := new GnuParserState(g);
    var i := 0;
    while i < |args|
      invariant 0 <= i <= |args|
      invariant Run(g, InitialState, args) == Run(g, state.State(), args[i..])
    {
      assert args[i..][0] == args[i] && args[i..][1..] == args[i + 1..];
      var res := state.ParseNext(args[i]);
      if res.Fail? {
        return Err(res.error);
      }
      i := i + 1;
    }
    return Ok(ParsedArgs(state.options, state.positional));
  }

  // ---------------------------------------------------------------------------
  // Generation

  /** `--name=value` with an `=`-free name is read back by `split_kv` as that name and value. */
  lemma EqualsTokenSplits(name: string, value: string)
    ensures '=' !in name ==> SplitKv(("--" + name + "=" + value)[2..]) == (name, Some(value))
  {
    if '=' !in name {
      var body := name + "=" + value;
      assert ("--" + name + "=" + value)[2..] == body;
      var kv := SplitKv(body);
      StrExt.SplitAtFirstUnique(kv.0, kv.1.value, name, value, '=');
    }
  }

  /** `generate_first_long_arg`: a long option's name with its first value. */
  function FirstLongTokens(g: Gnu, name: string, value: string): seq<string>
  {
    match g.longArg
    case Equals => ["--" + name + "=" + value]
    case Space => ["--" + name, value]
  }

  /**
   * The first tokens of a long option with a value: one marked token, and
   * after it the value as its own token (Space), or `--name=value`, which
   * `split_kv` reads back as that name and value (Equals).
   */
  lemma FirstLongTokensReadBack(g: Gnu, name: string, value: string)
    ensures var r := FirstLongTokens(g, name, value);
      && |r| == (if g.longArg == Equals then 1 else 2)
      && IsLongToken(r[0])
      && (g.longArg == Space ==> r[0][2..] == name && r[1] == value)
      && (g.longArg == Equals && '=' !in name ==> SplitKv(r[0][2..]) == (name, Some(value)))
  {
    assert ("--" + name)[2..] == name;
    EqualsTokenSplits(name, value);
  }

  /**
   * The tokens of one option: a short option's `-c` followed by all of its
   * values; a long option's `--name` when it has no value, else its first
   * value as `generate_first_long_arg` writes it, followed by the rest.
   */
  function OptionTokens(g: Gnu, o: ParsedOpt): seq<string>
  {
    match o.name
    case Short(c) => ["-" + [c]] + o.values
    case Long(n) => if o.values == [] then ["--" + n] else FirstLongTokens(g, n, o.values[0]) + o.values[1..]
  }

  /** The tokens of all options, in order. */
  function OptionsTokens(g: Gnu, options: seq<ParsedOpt>): seq<string>
  {
    if options == [] then []
    else OptionsTokens(g, options[..|options| - 1]) + OptionTokens(g, options[|options| - 1])
  }

  /** Nothing for no positional arguments; otherwise `--` (when explicit) and then every one of them. */
  function PositionalTokens(g: Gnu, positional: seq<string>): seq<string>
  {
    if positional == [] then []
    else (if g.explicitPositional then ["--"] else []) + positional
  }

  /** `Grammar::generate_vec` for this grammar; the Gnu generator never fails. */
  function Generated(g: Gnu, args: ParsedArgs): seq<string>
  {
    OptionsTokens(g, args.options) + PositionalTokens(g, args.positional)
  }

  /** The body of `generate`'s loop over options: emits one option's tokens after `out`. */
  method EmitOption(g: Gnu, opt: ParsedOpt, out: seq<string>) returns (out': seq<string>)
    ensures out' == out + OptionTokens(g, opt)
  {
    out' := out;
    var values := opt.values;
    if values == [] {
      match opt.name
      case Short(c) => out' := out' + ["-" + [c]];
      case Long(n) => out' := out' + ["--" + n];
    } else if |values| == 1 {
      match opt.name
      case Short(c) =>
        out' := out' + ["-" + [c]];
        out' := out' + [values[0]];
      case Long(n) =>
        out' := out' + FirstLongTokens(g, n, values[0]);
    } else {
      match opt.name
      case Short(c) =>
        out' := out' + ["-" + [c]];
        for j := 0 to |values|
          invariant out' == out + ["-" + [c]] + values[..j]
        {
          assert values[..j + 1] == values[..j] + [values[j]];
          out' := out' + [values[j]];
        }
        assert values[..|values|] == values;
      case Long(n) =>
        out' := out' + FirstLongTokens(g, n, values[0]);
        var rest := values[1..];
        for j := 0 to |rest|
          invariant out' == out + FirstLongTokens(g, n, values[0]) + rest[..j]
        {
          assert rest[..j + 1] == rest[..j] + [rest[j]];
          out' := out' + [rest[j]];
        }
        assert rest[..|rest|] == rest;
    }
  }

  /** The tail of `generate`: nothing without positional arguments, else `--` (when explicit) and each of them. */
  method EmitPositional(g: Gnu, positional: seq<string>, out: seq<string>) returns (out': seq<string>)
    ensures out' == out + PositionalTokens(g, positional)
  {
    out' := out;
    // No positional arguments
    if positional == [] {
      return;
    }
    if g.explicitPositional {
      out' := out' + ["--"];
    }
    ghost var before := out';
    for i := 0 to |positional|
      invariant out' == before + positional[..i]
    {
      assert positional[..i + 1] == positional[..i] + [positional[i]];
      out' := out' + [positional[i]];
    }
    assert positional[..|positional|] == positional;
  }

  /** `Grammar::generate`, with the sink collecting the emitted tokens in order. */
  method Generate(g: Gnu, args: ParsedArgs) returns (out: seq<string>)
    ensures out == Generated(g, args)
  {
    out := [];
    for i := 0 to |args.options|
      invariant out == OptionsTokens(g, args.options[..i])
    {
      ghost var prefix := args.options[..i + 1];
      assert prefix[..i] == args.options[..i] && prefix[i] == args.options[i];
      out := EmitOption(g, args.options[i], out);
    }
    assert args.options[..|args.options|] == args.options;
    out := EmitPositional(g, args.positional, out);
  }
}
