/**
 * Helpers shared by the edit-command front-ends: reading a possibly quoted
 * token, undoing backslash escapes, and a cursor over the parse tree's
 * children that checks their rule tags.
 */
module ParserExts {
  import opened Wrappers

  /** A node of the parse tree, reduced to its rule tag and its matched text. */
  datatype Pair<R> = Pair(rule: R, text: string)

  // ---------------------------------------------------------------------------
  // Unescaping

  /**
   * `unescape` from a given state of its `escaped` flag: a backslash sets
   * the flag and is dropped, a backslash while the flag is set is kept and
   * clears it, and any other character is kept and leaves the flag as it is.
   */
  function UnescapeFrom(s: string, escaped: bool): (r: string)
    ensures |r| <= |s|
  {
    if s == [] then []
    else if s[0] != '\\' then [s[0]] + UnescapeFrom(s[1..], escaped)
    else if escaped then ['\\'] + UnescapeFrom(s[1..], false)
    else UnescapeFrom(s[1..], true)
  }

  function Unescaped(s: string): string
  {
    UnescapeFrom(s, false)
  }

  /** `unescape`, as the source does it: one pass with a flag and an output buffer. */
  method Unescape(s: string) returns (result: string)
    ensures result == Unescaped(s)
  {
    var escaped := false;
    result := [];
    for i := 0 to |s|
      invariant result + UnescapeFrom(s[i..], escaped) == Unescaped(s)
    {
      var ch := s[i];
      assert s[i..][1..] == s[i + 1..];
      if ch != '\\' {
        result := result + [ch];
      } else if escaped {
        result := result + [ch];
        escaped := false;
      } else {
        escaped := true;
      }
    }
  }

  /** The characters of `s` other than backslashes, in order. */
  function WithoutBackslashes(s: string): string
  {
    if s == [] then [] else (if s[0] == '\\' then [] else [s[0]]) + WithoutBackslashes(s[1..])
  }

  /** A string without backslashes comes out unchanged. */
  lemma {:induction false} UnescapeWithoutBackslash(s: string, escaped: bool)
    requires '\\' !in s
    ensures UnescapeFrom(s, escaped) == s
    decreases |s|
  {
    if s != [] {
      assert s[0] != '\\';
      assert forall c :: c in s[1..] ==> c in s;
      UnescapeWithoutBackslash(s[1..], escaped);
    }
  }

  /** Only backslashes are dropped: every other character is kept, in order. */
  lemma {:induction false} UnescapeKeepsOtherCharacters(s: string, escaped: bool)
    ensures WithoutBackslashes(UnescapeFrom(s, escaped)) == WithoutBackslashes(s)
    decreases |s|
  {
    if s != [] {
      var rest := if s[0] != '\\' then escaped else !escaped;
      UnescapeKeepsOtherCharacters(s[1..], rest);
      var out := UnescapeFrom(s, escaped);
      if s[0] != '\\' || escaped {
        assert out == [s[0]] + UnescapeFrom(s[1..], rest);
        assert out[0] == s[0] && out[1..] == UnescapeFrom(s[1..], rest);
      }
    }
  }

  /** Every backslash written twice: the escaping `unescape` undoes. */
  function EscapeBackslashes(s: string): string
  {
    if s == [] then [] else (if s[0] == '\\' then "\\\\" else [s[0]]) + EscapeBackslashes(s[1..])
  }

  lemma {:induction false} UnescapeOfEscaped(s: string)
    ensures Unescaped(EscapeBackslashes(s)) == s
    decreases |s|
  {
    if s != [] {
      var e := EscapeBackslashes(s);
      UnescapeOfEscaped(s[1..]);
      if s[0] == '\\' {
        assert e[0] == '\\' && e[1] == '\\' && e[2..] == EscapeBackslashes(s[1..]);
        assert e[1..][0] == '\\' && e[1..][1..] == e[2..];
        assert UnescapeFrom(e, false) == UnescapeFrom(e[1..], true);
        assert UnescapeFrom(e[1..], true) == ['\\'] + UnescapeFrom(e[2..], false);
      } else {
        assert e[0] == s[0] && e[1..] == EscapeBackslashes(s[1..]);
        assert UnescapeFrom(e, false) == [s[0]] + UnescapeFrom(e[1..], false);
      }
      assert s == [s[0]] + s[1..];
    }
  }

  /**
   * The flag is cleared only by a second backslash, not by the character a
   * backslash escapes: in `\x…\`, with no other backslash, the last
   * backslash is kept.
   */
  lemma {:induction false} EscapeFlagSurvives(s: string)
    requires '\\' !in s
    ensures Unescaped("\\" + s + "\\") == s + "\\"
  {
    var w := "\\" + s + "\\";
    assert w[1..] == s + "\\";
    EscapedThenBackslash(s);
  }

  lemma {:induction false} EscapedThenBackslash(s: string)
    requires '\\' !in s
    ensures UnescapeFrom(s + "\\", true) == s + "\\"
    decreases |s|
  {
    if s == [] {
      assert s + "\\" == "\\";
    } else {
      assert s[0] != '\\';
      assert forall c :: c in s[1..] ==> c in s;
      assert (s + "\\")[0] == s[0] && (s + "\\")[1..] == s[1..] + "\\";
      EscapedThenBackslash(s[1..]);
    }
  }

  // ---------------------------------------------------------------------------
  // Quoted tokens

  datatype QuoteError =
    | EmptyQuotedString
    | InvalidQuotedFormat(text: string)
      /** A lone `'` or `"`: the source's slice `[1..0]` panics. */
    | LoneQuote(text: string)

  /**
   * `parse_quoted`: a node of another rule gives its text; a quoted node
   * gives the text between single quotes verbatim, or the text between double
   * quotes unescaped.
   */
  function ParseQuoted<R(==)>(p: Pair<R>, quotedRule: R): (r: Result<string, QuoteError>)
    ensures p.rule != quotedRule ==> r == Ok(p.text)
    ensures p.rule == quotedRule && p.text == [] ==> r == Err(EmptyQuotedString)
    ensures r.Ok? && p.rule == quotedRule ==> |p.text| >= 2 && |r.value| <= |p.text| - 2
  {
    if p.rule != quotedRule then Ok(p.text)
    else if p.text == [] then Err(EmptyQuotedString)
    else
      var text := p.text;
      var first, last := text[0], text[|text| - 1];
      if first == '\'' && last == '\'' then
        if |text| < 2 then Err(LoneQuote(text)) else Ok(text[1..|text| - 1])
      else if first == '"' && last == '"' then
        if |text| < 2 then Err(LoneQuote(text)) else Ok(Unescaped(text[1..|text| - 1]))
      else Err(InvalidQuotedFormat(text))
  }

  /** Single quotes are stripped and the inside is taken verbatim, backslashes and quotes included. */
  lemma SingleQuotedVerbatim<R>(quotedRule: R, s: string)
    ensures ParseQuoted(Pair(quotedRule, "'" + s + "'"), quotedRule) == Ok(s)
  {
    var text := "'" + s + "'";
    assert text[1..|text| - 1] == s;
  }

  /** Double quotes are stripped and whatever is inside them is unescaped. */
  lemma DoubleQuotedUnescaped<R>(quotedRule: R, t: string)
    ensures ParseQuoted(Pair(quotedRule, "\"" + t + "\""), quotedRule) == Ok(Unescaped(t))
  {
    var text := "\"" + t + "\"";
    assert text[1..|text| - 1] == t;
  }

  /** Hence escaping the backslashes inside double quotes round-trips. */
  lemma DoubleQuotedRoundTrip<R>(quotedRule: R, s: string)
    ensures ParseQuoted(Pair(quotedRule, "\"" + EscapeBackslashes(s) + "\""), quotedRule) == Ok(s)
  {
    DoubleQuotedUnescaped(quotedRule, EscapeBackslashes(s));
    UnescapeOfEscaped(s);
  }

  /** A quoted node is accepted exactly when it is wrapped in matching single or double quotes. */
  lemma QuotedShape<R>(quotedRule: R, text: string)
    requires |text| >= 2
    ensures ParseQuoted(Pair(quotedRule, text), quotedRule).Ok?
        <==> (text[0] == '\'' && text[|text| - 1] == '\'') || (text[0] == '"' && text[|text| - 1] == '"')
  {
  }

  // ---------------------------------------------------------------------------
  // The cursor over a node's children

  datatype ExpectError<R> =
    | FoundNone(expected: seq<R>)
    | FoundOther(expected: seq<R>, found: R)

  /**
   * `expect_rules` on the remaining children `rest`: the first child is
   * always consumed when there is one, and it must carry one of `rules`.
   * Returns the outcome and the children left.
   */
  function Expect<R(==)>(rest: seq<Pair<R>>, rules: seq<R>): (res: (Result<Pair<R>, ExpectError<R>>, seq<Pair<R>>))
    ensures rest == [] ==> res == (Err(FoundNone(rules)), [])
    ensures rest != [] ==> res.1 == rest[1..]
    ensures res.0.Ok? <==> rest != [] && rest[0].rule in rules
    ensures res.0.Ok? ==> res.0.value == rest[0]
    ensures rest != [] && res.0.Err? ==> res.0.error == FoundOther(rules, rest[0].rule)
  {
    if rest == [] then (Err(FoundNone(rules)), [])
    else if rest[0].rule in rules then (Ok(rest[0]), rest[1..])
    else (Err(FoundOther(rules, rest[0].rule)), rest[1..])
  }

  /**
   * `attempt_rules`: the first child is consumed only when it carries one of
   * `rules`; otherwise nothing is consumed.
   */
  function Attempt<R(==)>(rest: seq<Pair<R>>, rules: seq<R>): (res: (Option<Pair<R>>, seq<Pair<R>>))
    ensures res.0.Some? <==> rest != [] && rest[0].rule in rules
    ensures res.0.Some? ==> res.0.value == rest[0] && res.1 == rest[1..]
    ensures res.0.None? ==> res.1 == rest
  {
    if rest != [] && rest[0].rule in rules then (Some(rest[0]), rest[1..]) else (None, rest)
  }

  /**
   * Attempting succeeds exactly when expecting does, with the same child and
   * the same children left; when it fails, attempting consumes nothing, while
   * expecting still consumes the child it rejected.
   */
  lemma AttemptAgreesWithExpect<R>(rest: seq<Pair<R>>, rules: seq<R>)
    ensures Attempt(rest, rules).0.Some? <==> Expect(rest, rules).0.Ok?
    ensures Attempt(rest, rules).0.Some? ==>
      Attempt(rest, rules).0.value == Expect(rest, rules).0.value && Attempt(rest, rules).1 == Expect(rest, rules).1
    ensures Attempt(rest, rules).0.None? ==> Attempt(rest, rules).1 == rest && |Expect(rest, rules).1| == if rest == [] then 0 else |rest| - 1
  {
  }

  /** `Pairs`: the children of a node not yet consumed. */
  class Pairs<R(==)> {
    var rest: seq<Pair<R>>

    constructor (children: seq<Pair<R>>)
      ensures rest == children
    {
      rest := children;
    }

    method ExpectRule(rule: R) returns (r: Result<Pair<R>, ExpectError<R>>)
      modifies this
      ensures (r, rest) == Expect(old(rest), [rule])
    {
      r := ExpectRules([rule]);
    }

    method ExpectRules(rules: seq<R>) returns (r: Result<Pair<R>, ExpectError<R>>)
      modifies this
      ensures (r, rest) == Expect(old(rest), rules)
    {
      if rest == [] {
        return Err(FoundNone(rules));
      }
      var found := rest[0];
      rest := rest[1..];
      if found.rule in rules {
        r := Ok(found);
      } else {
        r := Err(FoundOther(rules, found.rule));
      }
    }

    method AttemptRule(rule: R) returns (r: Option<Pair<R>>)
      modifies this
      ensures (r, rest) == Attempt(old(rest), [rule])
    {
      r := AttemptRules([rule]);
    }

    method AttemptRules(rules: seq<R>) returns (r: Option<Pair<R>>)
      modifies this
      ensures (r, rest) == Attempt(old(rest), rules)
    {
      if rest != [] && rest[0].rule in rules {
        r := Some(rest[0]);
        rest := rest[1..];
      } else {
        r := None;
      }
    }
  }
}
