/**
 * The edit commands and `Command::apply`, which changes a parsed argument list
 * in place and never fails.
 */
module Commands {
  import opened Opts
  import VecExt

  datatype Command =
    | Set(option: OptName, values: seq<string>)
    | Add(option: OptName, values: seq<string>)
    | Remove(option: OptName)
    | Append(option: OptName, delimiter: string, items: seq<string>)
    | RepeatedAdd(option: OptName, values: seq<string>)

  /**
   * `delimiter` followed by the item, for every item in order, all
   * concatenated. With an empty delimiter this is the plain concatenation that
   * `String::extend` performs.
   */
  function Joined(delimiter: string, items: seq<string>): string
  {
    if items == [] then []
    else Joined(delimiter, items[..|items| - 1]) + delimiter + items[|items| - 1]
  }

  /**
   * The values of the entry an `Append` edits: a first value `""` is created
   * when there is none (`ensure_first_or_default`), and everything is added to
   * that first value, never as separate values.
   */
  function AppendedValues(values: seq<string>, delimiter: string, items: seq<string>): seq<string>
  {
    var withFirst := VecExt.WithFirst(values, "");
    withFirst[0 := withFirst[0] + Joined(delimiter, items)]
  }

  /** `update_last_option` with the `Append` closure: edit the last entry named `name`, or a new one. */
  function AppendLast(options: seq<ParsedOpt>, name: OptName, delimiter: string, items: seq<string>): seq<ParsedOpt>
  {
    match LastIndexOf(options, name)
    case Some(i) => options[i := ParsedOpt(name, AppendedValues(options[i].values, delimiter, items))]
    case None => options + [ParsedOpt(name, AppendedValues([], delimiter, items))]
  }

  /** One single-valued entry per value, in order. */
  function Singletons(name: OptName, values: seq<string>): seq<ParsedOpt>
  {
    seq(|values|, i requires 0 <= i < |values| => ParsedOpt(name, [values[i]]))
  }

  /** The argument list after applying `cmd`; only the options can change. */
  function Applied(cmd: Command, args: ParsedArgs): (r: ParsedArgs)
    ensures r.positional == args.positional
  {
    var options := match cmd
      case Set(name, values) => SetLast(args.options, name, values)
      case Add(name, values) => args.options + [ParsedOpt(name, values)]
      case Remove(name) => RemoveAll(args.options, name)
      case RepeatedAdd(name, values) => args.options + Singletons(name, values)
      case Append(name, delimiter, items) => AppendLast(args.options, name, delimiter, items);
    ParsedArgs(options, args.positional)
  }

  /** Commands applied strictly in the order given, each seeing the effect of the ones before. */
  function ApplyAll(cmds: seq<Command>, args: ParsedArgs): ParsedArgs
  {
    if cmds == [] then args else ApplyAll(cmds[1..], Applied(cmds[0], args))
  }

  /** `Command::apply`: edits `args` in place; there is no error path. */
  method Apply(cmd: Command, args: ParsedArgsRef)
    modifies args
    ensures args.Value() == Applied(cmd, old(args.Value()))
  {
    match cmd
    case Set(name, values) =>
      args.SetLastOption(name, values);
    case Add(name, values) =>
      args.options := args.options + [ParsedOpt(name, values)];
    case Remove(name) =>
      args.RemoveAllOptions(name);
    case RepeatedAdd(name, values) =>
      AddEach(name, values, args);
    case Append(name, delimiter, items) =>
      AppendItems(name, delimiter, items, args);
  }

  /** The `RepeatedAdd` arm: one new single-valued entry per value. */
  method AddEach(name: OptName, values: seq<string>, args: ParsedArgsRef)
    modifies args
    ensures args.options == old(args.options) + Singletons(name, values)
    ensures args.positional == old(args.positional)
  {
    for i := 0 to |values|
      invariant args.options == old(args.options) + Singletons(name, values[..i])
      invariant args.positional == old(args.positional)
    {
      assert Singletons(name, values[..i + 1]) == Singletons(name, values[..i]) + [ParsedOpt(name, [values[i]])];
      args.options := args.options + [ParsedOpt(name, [values[i]])];
    }
    assert values[..|values|] == values;
  }

  /** The `Append` arm: the items go onto the first value of the last entry named `name`. */
  method AppendItems(name: OptName, delimiter: string, items: seq<string>, args: ParsedArgsRef)
    modifies args
    ensures args.options == AppendLast(old(args.options), name, delimiter, items)
    ensures args.positional == old(args.positional)
  {
    var i := args.UpdateLastOption(name);
    var values := new VecExt.Vector(args.options[i].values);
    var k := values.EnsureFirstOrDefault("");
    var first := Extended(values.elems[k], delimiter, items);
    values.elems := values.elems[k := first];
    assert values.elems == AppendedValues(args.options[i].values, delimiter, items);
    args.options := args.options[i := ParsedOpt(name, values.elems)];
  }

  /**
   * The first value after `Append`: with an empty delimiter the items are
   * concatenated onto it (`String::extend`), otherwise each is pushed after
   * the delimiter.
   */
  method Extended(first: string, delimiter: string, items: seq<string>) returns (r: string)
    ensures r == first + Joined(delimiter, items)
  {
    r := first;
    if delimiter == [] {
      r := r + Joined(delimiter, items);
    } else {
      for j := 0 to |items|
        invariant r == first + Joined(delimiter, items[..j])
      {
        assert items[..j + 1][..j] == items[..j];
        r := r + delimiter;
        r := r + items[j];
      }
      assert items[..|items|] == items;
    }
  }
}
