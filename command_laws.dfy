/**
 * What the edit commands guarantee: which entries each one touches, how many
 * entries carry the edited name afterwards, and how commands compose.
 */
module CommandLaws {
  import opened Wrappers
  import opened Opts
  import opened Commands
  import VecExt

  lemma {:induction false} CountNamedConcat(xs: seq<ParsedOpt>, ys: seq<ParsedOpt>, name: OptName)
    ensures CountNamed(xs + ys, name) == CountNamed(xs, name) + CountNamed(ys, name)
    decreases |ys|
  {
    if ys == [] {
      assert xs + ys == xs;
    } else {
      var init := ys[..|ys| - 1];
      assert (xs + ys)[..|xs + ys| - 1] == xs + init;
      CountNamedConcat(xs, init, name);
    }
  }

  lemma {:induction false} RemoveAllConcat(xs: seq<ParsedOpt>, ys: seq<ParsedOpt>, name: OptName)
    ensures RemoveAll(xs + ys, name) == RemoveAll(xs, name) + RemoveAll(ys, name)
    decreases |ys|
  {
    if ys == [] {
      assert xs + ys == xs;
    } else {
      var init := ys[..|ys| - 1];
      assert (xs + ys)[..|xs + ys| - 1] == xs + init;
      RemoveAllConcat(xs, init, name);
    }
  }

  /** Entries that all carry `name` disappear entirely. */
  lemma {:induction false} RemoveAllOfNamed(xs: seq<ParsedOpt>, name: OptName)
    requires forall i :: 0 <= i < |xs| ==> xs[i].name == name
    ensures RemoveAll(xs, name) == []
    ensures CountNamed(xs, name) == |xs|
    decreases |xs|
  {
    if xs != [] {
      RemoveAllOfNamed(xs[..|xs| - 1], name);
    }
  }

  /** Removing a name that no entry carries changes nothing. */
  lemma {:induction false} RemoveAllOfUnnamed(xs: seq<ParsedOpt>, name: OptName)
    requires forall i :: 0 <= i < |xs| ==> xs[i].name != name
    ensures RemoveAll(xs, name) == xs
    ensures CountNamed(xs, name) == 0
    decreases |xs|
  {
    if xs != [] {
      RemoveAllOfUnnamed(xs[..|xs| - 1], name);
    }
  }

  /** Replacing an entry named `name` by another one named `name` is invisible to `RemoveAll` and to the count. */
  lemma RemoveAllUpdateNamed(xs: seq<ParsedOpt>, i: nat, o: ParsedOpt, name: OptName)
    requires i < |xs| && xs[i].name == name && o.name == name
    ensures RemoveAll(xs[i := o], name) == RemoveAll(xs, name)
    ensures CountNamed(xs[i := o], name) == CountNamed(xs, name)
  {
    var pre, post := xs[..i], xs[i + 1..];
    assert xs == pre + [xs[i]] + post;
    assert xs[i := o] == pre + [o] + post;
    RemoveAllConcat(pre + [xs[i]], post, name);
    RemoveAllConcat(pre, [xs[i]], name);
    RemoveAllConcat(pre + [o], post, name);
    RemoveAllConcat(pre, [o], name);
    RemoveAllOfNamed([xs[i]], name);
    RemoveAllOfNamed([o], name);
    CountNamedConcat(pre + [xs[i]], post, name);
    CountNamedConcat(pre, [xs[i]], name);
    CountNamedConcat(pre + [o], post, name);
    CountNamedConcat(pre, [o], name);
  }

  /** The entry a name-based lookup finds keeps being found after its values change. */
  lemma LastIndexOfUpdate(xs: seq<ParsedOpt>, i: nat, o: ParsedOpt, name: OptName)
    requires LastIndexOf(xs, name) == Some(i) && o.name == name
    ensures LastIndexOf(xs[i := o], name) == Some(i)
  {
    var ys := xs[i := o];
    var r := LastIndexOf(ys, name);
    assert ys[i].name == name;
    assert forall j :: i < j < |ys| ==> ys[j] == xs[j];
  }

  lemma LastIndexOfAppended(xs: seq<ParsedOpt>, o: ParsedOpt, name: OptName)
    requires o.name == name
    ensures LastIndexOf(xs + [o], name) == Some(|xs|)
  {
  }

  /** Appending entries that all carry `name` is invisible to `RemoveAll(_, name)`. */
  lemma RemoveAllAppendNamed(xs: seq<ParsedOpt>, ys: seq<ParsedOpt>, name: OptName)
    requires forall i :: 0 <= i < |ys| ==> ys[i].name == name
    ensures RemoveAll(xs + ys, name) == RemoveAll(xs, name)
  {
    RemoveAllConcat(xs, ys, name);
    RemoveAllOfNamed(ys, name);
  }

  /** Editing or adding the last entry named `name` is invisible to `RemoveAll(_, name)`. */
  lemma RemoveAllEditLast(xs: seq<ParsedOpt>, name: OptName, values: seq<string>, edited: seq<string>)
    ensures RemoveAll(match LastIndexOf(xs, name)
                        case Some(i) => xs[i := ParsedOpt(name, edited)]
                        case None => xs + [ParsedOpt(name, values)], name)
         == RemoveAll(xs, name)
  {
    match LastIndexOf(xs, name)
    case Some(i) => RemoveAllUpdateNamed(xs, i, ParsedOpt(name, edited), name);
    case None => RemoveAllAppendNamed(xs, [ParsedOpt(name, values)], name);
  }

  /** No command touches an entry whose name differs from the command's option, nor their order. */
  lemma OtherEntriesUnchanged(cmd: Command, args: ParsedArgs)
    ensures RemoveAll(Applied(cmd, args).options, cmd.option) == RemoveAll(args.options, cmd.option)
    ensures Applied(cmd, args).positional == args.positional
  {
    var name := cmd.option;
    var xs := args.options;
    match cmd
    case Set(_, values) =>
      RemoveAllEditLast(xs, name, values, values);
    case Add(_, values) =>
      RemoveAllAppendNamed(xs, [ParsedOpt(name, values)], name);
    case Remove(_) =>
      RemoveAllOfUnnamed(RemoveAll(xs, name), name);
    case RepeatedAdd(_, values) =>
      RemoveAllAppendNamed(xs, Singletons(name, values), name);
    case Append(_, delimiter, items) =>
      var edited := match LastIndexOf(xs, name)
        case Some(i) => AppendedValues(xs[i].values, delimiter, items)
        case None => [];
      RemoveAllEditLast(xs, name, AppendedValues([], delimiter, items), edited);
  }

  /**
   * Add appends exactly one entry at the end, even when an entry with the same
   * name exists; the earlier entries are unchanged.
   */
  lemma AddAppendsDuplicate(name: OptName, values: seq<string>, args: ParsedArgs)
    ensures var r := Applied(Add(name, values), args).options;
      && |r| == |args.options| + 1
      && r[..|args.options|] == args.options
      && r[|args.options|] == ParsedOpt(name, values)
      && CountNamed(r, name) == CountNamed(args.options, name) + 1
  {
    var r := Applied(Add(name, values), args).options;
    assert r[..|args.options|] == args.options;
  }

  /** RepeatedAdd is one Add of a single value per value, in order. */
  lemma {:induction false} RepeatedAddIsAdds(name: OptName, values: seq<string>, args: ParsedArgs)
    ensures Applied(RepeatedAdd(name, values), args)
         == ApplyAll(seq(|values|, i requires 0 <= i < |values| => Add(name, [values[i]])), args)
    decreases |values|
  {
    var adds := seq(|values|, i requires 0 <= i < |values| => Add(name, [values[i]]));
    if values == [] {
      assert args.options + Singletons(name, values) == args.options;
    } else {
      var next := Applied(Add(name, [values[0]]), args);
      RepeatedAddIsAdds(name, values[1..], next);
      assert adds[1..] == seq(|values[1..]|, i requires 0 <= i < |values[1..]| => Add(name, [values[1..][i]]));
      assert [ParsedOpt(name, [values[0]])] + Singletons(name, values[1..]) == Singletons(name, values);
    }
  }

  /** RepeatedAdd adds one entry named `name` per value and leaves the earlier entries as they were. */
  lemma RepeatedAddCount(name: OptName, values: seq<string>, args: ParsedArgs)
    ensures var r := Applied(RepeatedAdd(name, values), args).options;
      && |r| == |args.options| + |values|
      && r[..|args.options|] == args.options
      && CountNamed(r, name) == CountNamed(args.options, name) + |values|
      && forall k :: 0 <= k < |values| ==> r[|args.options| + k] == ParsedOpt(name, [values[k]])
  {
    var r := Applied(RepeatedAdd(name, values), args).options;
    assert r[..|args.options|] == args.options;
    CountNamedConcat(args.options, Singletons(name, values), name);
    RemoveAllOfNamed(Singletons(name, values), name);
  }

  /** The entries `RemoveAll` keeps are exactly the entries whose name differs. */
  lemma {:induction false} RemoveAllMembers(xs: seq<ParsedOpt>, name: OptName)
    ensures forall x :: x in RemoveAll(xs, name) <==> x in xs && x.name != name
    decreases |xs|
  {
    if xs != [] {
      var init := xs[..|xs| - 1];
      RemoveAllMembers(init, name);
      assert xs == init + [xs[|xs| - 1]];
    }
  }

  /** Remove deletes every entry named `name` and keeps exactly the others (in order: `RemoveKeepsOrder`). */
  lemma RemoveDeletesAll(name: OptName, args: ParsedArgs)
    ensures var r := Applied(Remove(name), args).options;
      && CountNamed(r, name) == 0
      && |r| == |args.options| - CountNamed(args.options, name)
      && forall x :: x in r <==> x in args.options && x.name != name
  {
    RemoveAllOfUnnamed(RemoveAll(args.options, name), name);
    RemoveAllMembers(args.options, name);
  }

  /**
   * Remove is a filter that keeps the original relative order: it distributes
   * over concatenation, and keeps a single entry exactly when its name differs.
   */
  lemma RemoveKeepsOrder(name: OptName, xs: seq<ParsedOpt>, ys: seq<ParsedOpt>, o: ParsedOpt)
    ensures Applied(Remove(name), ParsedArgs(xs + ys, [])).options
         == Applied(Remove(name), ParsedArgs(xs, [])).options + Applied(Remove(name), ParsedArgs(ys, [])).options
    ensures Applied(Remove(name), ParsedArgs([o], [])).options == if o.name == name then [] else [o]
  {
    RemoveAllConcat(xs, ys, name);
    assert [o][..0] == [];
  }

  /** Removing twice is removing once. */
  lemma RemoveIdempotent(name: OptName, args: ParsedArgs)
    ensures Applied(Remove(name), Applied(Remove(name), args)) == Applied(Remove(name), args)
  {
    RemoveAllOfUnnamed(RemoveAll(args.options, name), name);
  }

  /**
   * Set overwrites the values of the last entry named `name` only, leaving
   * every other entry (earlier ones with the same name included) as it was;
   * with no such entry it appends one at the end, never inserting it earlier.
   */
  lemma SetOverwritesLast(name: OptName, values: seq<string>, args: ParsedArgs)
    ensures var r := Applied(Set(name, values), args).options;
      && LastIndexOf(r, name).Some?
      && r[LastIndexOf(r, name).value] == ParsedOpt(name, values)
      && (forall j :: 0 <= j < |args.options| && j != LastIndexOf(r, name).value ==> r[j] == args.options[j])
      && CountNamed(r, name) == (if CountNamed(args.options, name) == 0 then 1 else CountNamed(args.options, name))
      && |r| == |args.options| + (if LastIndexOf(args.options, name).None? then 1 else 0)
      && LastIndexOf(r, name).value
         == (if LastIndexOf(args.options, name).Some? then LastIndexOf(args.options, name).value else |args.options|)
  {
    var xs := args.options;
    var o := ParsedOpt(name, values);
    match LastIndexOf(xs, name)
    case Some(i) =>
      LastIndexOfUpdate(xs, i, o, name);
      RemoveAllUpdateNamed(xs, i, o, name);
      assert CountNamed(xs, name) != 0 by {
        if CountNamed(xs, name) == 0 {
          assert |RemoveAll(xs, name)| == |xs|;
          NamedEntryCounts(xs, name, i);
        }
      }
    case None =>
      LastIndexOfAppended(xs, o, name);
      RemoveAllOfUnnamed(xs, name);
      CountNamedConcat(xs, [o], name);
      RemoveAllOfNamed([o], name);
  }

  /** An entry named `name` makes the count of `name` positive. */
  lemma NamedEntryCounts(xs: seq<ParsedOpt>, name: OptName, i: nat)
    requires i < |xs| && xs[i].name == name
    ensures CountNamed(xs, name) >= 1
  {
    var pre, post := xs[..i], xs[i + 1..];
    assert xs == pre + [xs[i]] + post;
    CountNamedConcat(pre + [xs[i]], post, name);
    CountNamedConcat(pre, [xs[i]], name);
    RemoveAllOfNamed([xs[i]], name);
  }

  /** A second Set of the same option wins over the first: only the last write is visible. */
  lemma SetLastWriteWins(name: OptName, first: seq<string>, second: seq<string>, args: ParsedArgs)
    ensures Applied(Set(name, second), Applied(Set(name, first), args)) == Applied(Set(name, second), args)
  {
    var xs := args.options;
    match LastIndexOf(xs, name)
    case Some(i) =>
      LastIndexOfUpdate(xs, i, ParsedOpt(name, first), name);
    case None =>
      LastIndexOfAppended(xs, ParsedOpt(name, first), name);
  }

  lemma {:induction false} JoinedConcat(delimiter: string, xs: seq<string>, ys: seq<string>)
    ensures Joined(delimiter, xs + ys) == Joined(delimiter, xs) + Joined(delimiter, ys)
    decreases |ys|
  {
    if ys == [] {
      assert xs + ys == xs;
    } else {
      var init := ys[..|ys| - 1];
      assert (xs + ys)[..|xs + ys| - 1] == xs + init;
      JoinedConcat(delimiter, xs, init);
    }
  }

  /**
   * Append edits only the first value of the last entry named `name` (created
   * as `""` at the end of the list when missing): it becomes the old first value followed by
   * `delimiter ++ item` for each item. The number of values stays the same, or
   * becomes 1 when there were none, so with an empty delimiter the items are
   * concatenated onto the first value rather than added as values.
   */
  lemma AppendEditsFirstValue(name: OptName, delimiter: string, items: seq<string>, args: ParsedArgs)
    ensures var r := Applied(Append(name, delimiter, items), args).options;
      var old_values := match LastIndexOf(args.options, name)
        case Some(i) => args.options[i].values
        case None => [];
      && LastIndexOf(r, name).Some?
      && var vs := r[LastIndexOf(r, name).value].values;
      && |vs| == (if old_values == [] then 1 else |old_values|)
      && vs[0] == (if old_values == [] then "" else old_values[0]) + Joined(delimiter, items)
      && vs[1..] == (if old_values == [] then [] else old_values[1..])
      && |r| == |args.options| + (if LastIndexOf(args.options, name).None? then 1 else 0)
      && LastIndexOf(r, name).value
         == (if LastIndexOf(args.options, name).Some? then LastIndexOf(args.options, name).value else |args.options|)
      && forall j :: 0 <= j < |args.options| && j != LastIndexOf(r, name).value ==> r[j] == args.options[j]
  {
    var xs := args.options;
    match LastIndexOf(xs, name)
    case Some(i) =>
      LastIndexOfUpdate(xs, i, ParsedOpt(name, AppendedValues(xs[i].values, delimiter, items)), name);
    case None =>
      LastIndexOfAppended(xs, ParsedOpt(name, AppendedValues([], delimiter, items)), name);
  }

  /** Appending `xs` and then `ys` is appending `xs + ys` at once, whatever the delimiter. */
  lemma AppendComposes(name: OptName, delimiter: string, xs: seq<string>, ys: seq<string>, args: ParsedArgs)
    ensures Applied(Append(name, delimiter, ys), Applied(Append(name, delimiter, xs), args))
         == Applied(Append(name, delimiter, xs + ys), args)
  {
    var opts := args.options;
    JoinedConcat(delimiter, xs, ys);
    match LastIndexOf(opts, name)
    case Some(i) =>
      var o := ParsedOpt(name, AppendedValues(opts[i].values, delimiter, xs));
      LastIndexOfUpdate(opts, i, o, name);
      AppendedValuesComposes(opts[i].values, delimiter, xs, ys);
      assert opts[i := o][i := ParsedOpt(name, AppendedValues(o.values, delimiter, ys))]
          == opts[i := ParsedOpt(name, AppendedValues(opts[i].values, delimiter, xs + ys))];
    case None =>
      var o := ParsedOpt(name, AppendedValues([], delimiter, xs));
      LastIndexOfAppended(opts, o, name);
      AppendedValuesComposes([], delimiter, xs, ys);
  }

  lemma AppendedValuesComposes(values: seq<string>, delimiter: string, xs: seq<string>, ys: seq<string>)
    ensures AppendedValues(AppendedValues(values, delimiter, xs), delimiter, ys)
         == AppendedValues(values, delimiter, xs + ys)
  {
    JoinedConcat(delimiter, xs, ys);
    var w := VecExt.WithFirst(values, "");
    var once := AppendedValues(values, delimiter, xs);
    assert once == w[0 := w[0] + Joined(delimiter, xs)];
    assert VecExt.WithFirst(once, "") == once;
    assert once[0] + Joined(delimiter, ys) == w[0] + Joined(delimiter, xs + ys);
  }

  /** Set, then Add, then Set on `--foo`, starting from nothing: the second Set only rewrites the newer entry. */
  lemma SetAddSetExample()
    ensures var foo := Long("foo");
      var start := ParsedArgs([], []);
      var afterAdd := Applied(Add(foo, ["x"]), Applied(Set(foo, ["a"]), start));
      && afterAdd.options == [ParsedOpt(foo, ["a"]), ParsedOpt(foo, ["x"])]
      && Applied(Set(foo, ["z"]), afterAdd).options == [ParsedOpt(foo, ["a"]), ParsedOpt(foo, ["z"])]
  {
    var foo := Long("foo");
    var afterAdd := Applied(Add(foo, ["x"]), Applied(Set(foo, ["a"]), ParsedArgs([], [])));
    assert LastIndexOf(afterAdd.options, foo) == Some(1);
  }

  /** Append onto `--foo x`: a comma delimiter gives `x,a,b`; an empty one gives the single value `xab`. */
  lemma AppendExample()
    ensures var foo := Long("foo");
      var start := ParsedArgs([ParsedOpt(foo, ["x"])], []);
      && Applied(Append(foo, ",", ["a", "b"]), start).options == [ParsedOpt(foo, ["x,a,b"])]
      && Applied(Append(foo, "", ["a", "b"]), start).options == [ParsedOpt(foo, ["xab"])]
  {
    var foo := Long("foo");
    var start := ParsedArgs([ParsedOpt(foo, ["x"])], []);
    assert LastIndexOf(start.options, foo) == Some(0);
    assert ["a", "b"][..1] == ["a"];
    assert ["a"][..0] == [];
    assert Joined(",", ["a"]) == ",a";
    assert Joined(",", ["a", "b"]) == ",a,b";
    assert Joined("", ["a"]) == "a";
    assert Joined("", ["a", "b"]) == "ab";
    assert "x" + ",a,b" == "x,a,b";
    assert "x" + "ab" == "xab";
    assert AppendedValues(["x"], ",", ["a", "b"]) == ["x,a,b"];
    assert AppendedValues(["x"], "", ["a", "b"]) == ["xab"];
  }

  /** Two Adds of `--foo` around a `-b`, then Remove: both `foo` entries go, `-b` stays. */
  lemma RemoveExample()
    ensures var foo := Long("foo");
      var b := ParsedOpt(Short('b'), []);
      var added := Applied(Add(foo, ["2"]), Applied(Add(foo, ["1"]), ParsedArgs([b], ["p"])));
      Applied(Remove(foo), added) == ParsedArgs([b], ["p"])
  {
    var foo := Long("foo");
    var b := ParsedOpt(Short('b'), []);
    var opts := [b, ParsedOpt(foo, ["1"]), ParsedOpt(foo, ["2"])];
    assert opts[..2] == [b, ParsedOpt(foo, ["1"])];
    assert opts[..2][..1] == [b];
    assert [b][..0] == [];
    assert RemoveAll([b], foo) == [b];
    assert RemoveAll(opts[..2], foo) == [b];
    assert RemoveAll(opts, foo) == [b];
  }
}
