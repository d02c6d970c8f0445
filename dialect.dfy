/**
 * Choosing the dialect from its command-line value `name:key=value,key,...`:
 * the value is split into a name and raw key/value arguments, and the name
 * selects the grammar whose configuration is decoded from those arguments.
 */
module Dialects {
  import opened Wrappers
  import StrExt
  import GnuGrammar

  /** The supported dialects: only the Gnu grammar, with its configuration. */
  datatype Dialect = Gnu(grammar: GnuGrammar.Gnu)

  /** Raw arguments: a key, and the value after its first `=` if there is one. */
  type DialectArgs = seq<(string, Option<string>)>

  /** `parse_dialect_string`: the name before the first `:`, and the arguments after it. */
  function ParseDialectString(value: string): (r: (string, DialectArgs))
    ensures ':' !in r.0
    ensures ':' !in value ==> r == (value, [])
    ensures ':' in value ==>
      && |r.0| < |value| && value[..|r.0|] == r.0 && value[|r.0|] == ':'
      && var args := value[|r.0| + 1..];
      && (args == [] ==> r.1 == [])
      && (args != [] ==>
            && |r.1| == |StrExt.Split(args, ',')|
            && forall i :: 0 <= i < |r.1| ==> r.1[i] == StrExt.SplitKv(StrExt.Split(args, ',')[i]))
  {
    var (name, rest) := StrExt.SplitOnce(value, ':');
    var args := if rest.Some? then rest.value else "";
    if args == [] then (name, [])
    else
      var pieces := StrExt.Split(args, ',');
      assert name + [':'] + args == value;
      assert value[..|name|] == name && value[|name| + 1..] == args;
      (name, seq(|pieces|, i requires 0 <= i < |pieces| => StrExt.SplitKv(pieces[i])))
  }

  /** The text after the first `:`, or nothing; quoted in the error message. */
  function ArgsText(value: string): (r: string)
    ensures ':' !in value ==> r == []
    ensures ':' in value ==> ParseDialectString(value).0 + ":" + r == value
  {
    var name := ParseDialectString(value).0;
    if |name| + 1 <= |value| then value[|name| + 1..] else ""
  }

  datatype DialectError =
    | UnknownDialect(name: string)
    | CannotParseGrammarArguments(name: string, args: string, cause: string)

  /**
   * The message says what went wrong, then names the dialect; it ends with the
   * unknown name or with the decoder's own message.
   */
  function Message(e: DialectError): (r: string)
    ensures e.UnknownDialect? ==> |r| >= 16 && r[..16] == "Unknown dialect " && r[16..] == e.name
    ensures e.CannotParseGrammarArguments? ==>
      && |r| >= 35 + |e.name| + |e.cause|
      && r[..35] == "Cannot parse grammar arguments for "
      && r[35..35 + |e.name|] == e.name
      && r[|r| - |e.cause|..] == e.cause
  {
    match e
    case UnknownDialect(name) => "Unknown dialect " + name
    case CannotParseGrammarArguments(name, args, cause) =>
      var r := "Cannot parse grammar arguments for " + name + " ('" + args + "'): " + cause;
      assert r[35..35 + |name|] == name;
      r
  }

  /**
   * `parse_dialect`. The decoder that turns the raw arguments into a typed
   * Gnu configuration is not part of this model and is passed in; its error
   * is carried as its message.
   */
  function ParseDialect(value: string, decode: DialectArgs -> Result<GnuGrammar.Gnu, string>): (r: Result<Dialect, DialectError>)
    ensures var (name, args) := ParseDialectString(value);
      && (name != "gnu" ==> r == Err(UnknownDialect(name)))
      && (name == "gnu" && decode(args).Ok? ==> r == Ok(Gnu(decode(args).value)))
      && (name == "gnu" && decode(args).Err? ==> r == Err(CannotParseGrammarArguments(name, ArgsText(value), decode(args).error)))
  {
    var (name, args) := ParseDialectString(value);
    if name == "gnu" then
      match decode(args)
      case Ok(grammar) => Ok(Gnu(grammar))
      case Err(e) => Err(CannotParseGrammarArguments(name, ArgsText(value), e))
    else Err(UnknownDialect(name))
  }

  // ---------------------------------------------------------------------------
  // Writing a dialect value

  function EncodeArg(arg: (string, Option<string>)): string
  {
    match arg.1
    case None => arg.0
    case Some(v) => arg.0 + "=" + v
  }

  /** The value a user writes for `name` with `args`: no `:` part when there are no arguments. */
  function EncodeDialectString(name: string, args: DialectArgs): string
  {
    if args == [] then name
    else name + ":" + StrExt.Join(EncodedArgs(args), ',')
  }

  /** The arguments that survive writing and reading back. */
  predicate Encodable(name: string, args: DialectArgs)
  {
    && ':' !in name
    && args != [("", None)]
    && forall i :: 0 <= i < |args| ==>
         && ',' !in args[i].0 && '=' !in args[i].0
         && (args[i].1.Some? ==> ',' !in args[i].1.value)
  }

  lemma SplitKvOfEncoded(arg: (string, Option<string>))
    requires '=' !in arg.0
    ensures StrExt.SplitKv(EncodeArg(arg)) == arg
  {
    if arg.1.Some? {
      StrExt.SplitOnceOfJoined(arg.0, arg.1.value, '=');
    }
  }

  function EncodedArgs(args: DialectArgs): seq<string>
  {
    seq(|args|, i requires 0 <= i < |args| => EncodeArg(args[i]))
  }

  /** Arguments other than one bare empty key never write as the empty string. */
  lemma EncodedArgsNonEmpty(args: DialectArgs)
    requires args != [] && args != [("", None)]
    ensures StrExt.Join(EncodedArgs(args), ',') != []
  {
    var pieces := EncodedArgs(args);
    if |args| == 1 {
      assert args == [args[0]];
      assert args[0] != ("", None);
      assert EncodeArg(args[0]) != [];
    } else {
      assert StrExt.Join(pieces, ',') == pieces[0] + [','] + StrExt.Join(pieces[1..], ',');
    }
  }

  /** Reading back a written dialect value gives its name and arguments. */
  lemma ParseOfEncoded(name: string, args: DialectArgs)
    requires Encodable(name, args)
    ensures ParseDialectString(EncodeDialectString(name, args)) == (name, args)
  {
    if args != [] {
      var pieces := EncodedArgs(args);
      var joined := StrExt.Join(pieces, ',');
      assert EncodeDialectString(name, args) == name + [':'] + joined;
      StrExt.SplitOnceOfJoined(name, joined, ':');
      EncodedArgsNonEmpty(args);
      ArgsOfEncoded(args);
      var value := EncodeDialectString(name, args);
      var r := ParseDialectString(value);
      assert ':' in value by { assert value[|name|] == ':'; }
      StrExt.SplitAtFirstUnique(r.0, value[|r.0| + 1..], name, joined, ':');
      assert value[|r.0| + 1..] == joined;
      assert r.1 == args;
    }
  }

  lemma ArgsOfEncoded(args: DialectArgs)
    requires args != [] && Encodable("", args)
    ensures var pieces := StrExt.Split(StrExt.Join(EncodedArgs(args), ','), ',');
      |pieces| == |args| && forall i :: 0 <= i < |args| ==> StrExt.SplitKv(pieces[i]) == args[i]
  {
    var pieces := EncodedArgs(args);
    assert forall i :: 0 <= i < |pieces| ==> ',' !in pieces[i];
    StrExt.SplitOfJoin(pieces, ',');
    forall i | 0 <= i < |args|
      ensures StrExt.SplitKv(pieces[i]) == args[i]
    {
      SplitKvOfEncoded(args[i]);
    }
  }

  /** Any dialect name other than `gnu` is rejected whatever its arguments. */
  lemma OnlyGnuIsKnown(name: string, args: DialectArgs, decode: DialectArgs -> Result<GnuGrammar.Gnu, string>)
    requires Encodable(name, args) && name != "gnu"
    ensures ParseDialect(EncodeDialectString(name, args), decode) == Err(UnknownDialect(name))
  {
    ParseOfEncoded(name, args);
  }

  /** `gnu` with arguments selects the Gnu grammar, configured as the decoder reads those arguments. */
  lemma GnuDecodesItsArguments(args: DialectArgs, decode: DialectArgs -> Result<GnuGrammar.Gnu, string>)
    requires Encodable("gnu", args)
    ensures decode(args).Ok? ==> ParseDialect(EncodeDialectString("gnu", args), decode) == Ok(Gnu(decode(args).value))
    ensures decode(args).Err? ==> ParseDialect(EncodeDialectString("gnu", args), decode).Err?
  {
    ParseOfEncoded("gnu", args);
  }
}
