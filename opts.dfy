/**
 * The dialect-neutral representation of an argument list: option names, option
 * occurrences with their values, and the parsed argument list; plus the
 * name-based lookups that the edit commands use on it.
 */
module Opts {
  import opened Wrappers

  /** An option's identity: a one-character short name or a long name. */
  datatype OptName = Short(c: char) | Long(name: string)

  /** One occurrence of an option, with its values in order. */
  datatype ParsedOpt = ParsedOpt(name: OptName, values: seq<string>)

  /** Options in encounter order (duplicate names allowed) and positional arguments. */
  datatype ParsedArgs = ParsedArgs(options: seq<ParsedOpt>, positional: seq<string>)

  /** Number of entries named `name`. */
  function CountNamed(options: seq<ParsedOpt>, name: OptName): nat
  {
    if options == [] then 0
    else CountNamed(options[..|options| - 1], name) + (if options[|options| - 1].name == name then 1 else 0)
  }

  /** Index of the last entry named `name`, if any. */
  function LastIndexOf(options: seq<ParsedOpt>, name: OptName): (r: Option<nat>)
    ensures r.None? <==> forall i :: 0 <= i < |options| ==> options[i].name != name
    ensures r.Some? ==> r.value < |options| && options[r.value].name == name
    ensures r.Some? ==> forall j :: r.value < j < |options| ==> options[j].name != name
  {
    if options == [] then None
    else if options[|options| - 1].name == name then Some(|options| - 1)
    else
      var r := LastIndexOf(options[..|options| - 1], name);
      assert forall i :: 0 <= i < |options| - 1 ==> options[..|options| - 1][i] == options[i];
      r
  }

  /**
   * `ParsedArgs::set_last_option`: the values of the last entry named `name`
   * become `values`; with no such entry, a new one is appended.
   */
  function SetLast(options: seq<ParsedOpt>, name: OptName, values: seq<string>): seq<ParsedOpt>
  {
    match LastIndexOf(options, name)
    case Some(i) => options[i := ParsedOpt(name, values)]
    case None => options + [ParsedOpt(name, values)]
  }

  /** `ParsedArgs::remove_all_options`: the entries whose name differs, in their original order. */
  function RemoveAll(options: seq<ParsedOpt>, name: OptName): (r: seq<ParsedOpt>)
    ensures forall i :: 0 <= i < |r| ==> r[i].name != name
    ensures |r| == |options| - CountNamed(options, name)
  {
    if options == [] then []
    else
      var last := options[|options| - 1];
      RemoveAll(options[..|options| - 1], name) + (if last.name == name then [] else [last])
  }

  /**
   * The `&mut ParsedArgs` that the edit commands change in place, with the
   * helpers they call on it.
   */
  class ParsedArgsRef {
    var options: seq<ParsedOpt>
    var positional: seq<string>

    constructor (args: ParsedArgs)
      ensures Value() == args
    {
      options := args.options;
      positional := args.positional;
    }

    /** The argument list currently held. */
    function Value(): ParsedArgs
      reads this
    {
      ParsedArgs(options, positional)
    }

    method SetLastOption(name: OptName, values: seq<string>)
      modifies this
      ensures options == SetLast(old(options), name, values)
      ensures positional == old(positional)
    {
      var found := LastIndexOf(options, name);
      match found
      case Some(i) =>
        options := options[i := ParsedOpt(name, values)];
      case None =>
        options := options + [ParsedOpt(name, values)];
    }

    method RemoveAllOptions(name: OptName)
      modifies this
      ensures options == RemoveAll(old(options), name)
      ensures positional == old(positional)
    {
      var kept: seq<ParsedOpt> := [];
      var i := 0;
      while i < |options|
        invariant 0 <= i <= |options|
        invariant kept == RemoveAll(options[..i], name)
      {
        assert options[..i + 1][..i] == options[..i];
        if options[i].name != name {
          kept := kept + [options[i]];
        }
        i := i + 1;
      }
      assert options[..i] == options;
      options := kept;
    }

    /**
     * The part of `ParsedArgs::update_last_option` that finds its target: the
     * index of the last entry named `name`, after appending an entry with no
     * values when there is none. The caller then edits that entry's values.
     */
    method UpdateLastOption(name: OptName) returns (i: nat)
      modifies this
      ensures LastIndexOf(old(options), name).Some? ==> options == old(options) && Some(i) == LastIndexOf(options, name)
      ensures LastIndexOf(old(options), name).None? ==> options == old(options) + [ParsedOpt(name, [])] && i == |old(options)|
      ensures i < |options| && options[i].name == name
      ensures positional == old(positional)
    {
      var found := LastIndexOf(options, name);
      match found
      case Some(j) =>
        i := j;
      case None =>
        options := options + [ParsedOpt(name, [])];
        i := |options| - 1;
    }
  }
}
