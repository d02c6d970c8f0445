/**
 * Shell double-quoting of one output word: words with a special character are
 * wrapped in `"…"` with `$`, `` ` ``, `"` and `\` backslash-escaped; other
 * words are left alone; the empty word becomes `""`.
 *
 * The source walks the word's UTF-8 bytes; every special character is ASCII
 * and no byte of a multi-byte character is ASCII, so walking characters gives
 * the same output.
 */
module Shell {

  /** `should_be_quoted`: the characters that force double quotes. */
  predicate ShouldBeQuoted(c: char): (r: bool)
    ensures r ==> c < 128 as char  // all ASCII: a byte of a multi-byte character never matches
    ensures NeedsBackslash(c) ==> r
  {
    c in {'|', '&', ';', '<', '>', '(', ')', '$', '*', '?', '[', '#', '~', '%', ' ', '"', '`', '\\', '\'', '\t', '\r', '\n'}
  }

  /** The characters that keep a special meaning inside double quotes and get a backslash. */
  predicate NeedsBackslash(c: char)
  {
    c == '$' || c == '`' || c == '"' || c == '\\'
  }

  /** Whether any character of `s` forces quoting. */
  predicate AnyShouldBeQuoted(s: string)
  {
    exists i :: 0 <= i < |s| && ShouldBeQuoted(s[i])
  }

  /** Number of characters of `s` that get a backslash. */
  function CountEscapable(s: string): nat
  {
    if s == [] then 0 else (if NeedsBackslash(s[0]) then 1 else 0) + CountEscapable(s[1..])
  }

  /** One character as written between the double quotes. */
  function EscapedChar(c: char): string
  {
    if NeedsBackslash(c) then ['\\', c] else [c]
  }

  /** The characters of `s` in order, each with a backslash in front when it needs one. */
  function Escaped(s: string): (r: string)
    ensures |r| == |s| + CountEscapable(s)
  {
    if s == [] then [] else EscapedChar(s[0]) + Escaped(s[1..])
  }

  /** `quote`. */
  function Quoted(s: string): (r: string)
    ensures r != []
    ensures s == [] ==> r == "\"\""
    ensures s != [] && !AnyShouldBeQuoted(s) ==> r == s
    ensures AnyShouldBeQuoted(s) ==> |r| == |s| + 2 + CountEscapable(s) && r[0] == '"' && r[|r| - 1] == '"'
  {
    if s == [] then "\"\""
    else if AnyShouldBeQuoted(s) then "\"" + Escaped(s) + "\""
    else s
  }

  lemma {:induction false} EscapedConcat(a: string, b: string)
    ensures Escaped(a + b) == Escaped(a) + Escaped(b)
    decreases |a|
  {
    if a == [] {
      assert a + b == b;
    } else {
      assert (a + b)[0] == a[0] && (a + b)[1..] == a[1..] + b;
      EscapedConcat(a[1..], b);
    }
  }

  /** `quote`, as the source does it: the bytes go into a buffer one by one. */
  method Quote(s: string) returns (out: string)
    ensures out == Quoted(s)
  {
    if s == [] {
      return "\"\"";
    }
    var any := false;
    for i := 0 to |s|
      invariant any <==> exists j :: 0 <= j < i && ShouldBeQuoted(s[j])
    {
      if ShouldBeQuoted(s[i]) {
        any := true;
      }
    }
    if !any {
      return s;
    }
    out := "\"";
    for i := 0 to |s|
      invariant out == "\"" + Escaped(s[..i])
    {
      EscapedConcat(s[..i], [s[i]]);
      assert s[..i + 1] == s[..i] + [s[i]];
      if NeedsBackslash(s[i]) {
        out := out + ['\\'];
      }
      out := out + [s[i]];
    }
    assert s[..|s|] == s;
    out := out + "\"";
  }

  // ---------------------------------------------------------------------------
  // Reading the word back

  /**
   * What a POSIX shell makes of the text between double quotes: a backslash
   * followed by `$`, `` ` ``, `"` or `\` stands for that character; every
   * other character stands for itself.
   */
  function Dequoted(s: string): string
  {
    if s == [] then []
    else if |s| >= 2 && s[0] == '\\' && NeedsBackslash(s[1]) then [s[1]] + Dequoted(s[2..])
    else [s[0]] + Dequoted(s[1..])
  }

  /** What a POSIX shell makes of one word made of plain characters or of a single double-quoted string. */
  function ShellWord(w: string): string
  {
    if |w| >= 2 && w[0] == '"' && w[|w| - 1] == '"' then Dequoted(w[1..|w| - 1]) else w
  }

  lemma {:induction false} DequotedEscaped(s: string)
    ensures Dequoted(Escaped(s)) == s
    decreases |s|
  {
    if s != [] {
      var e := Escaped(s);
      assert e == EscapedChar(s[0]) + Escaped(s[1..]);
      DequotedEscaped(s[1..]);
      if NeedsBackslash(s[0]) {
        assert e[2..] == Escaped(s[1..]);
      } else {
        assert e[1..] == Escaped(s[1..]);
      }
    }
  }

  /** Inside the quotes, every `"` is escaped: the quoted string cannot end early. */
  lemma {:induction false} EscapedQuotesAreEscaped(s: string, i: nat)
    requires i < |Escaped(s)| && Escaped(s)[i] == '"'
    ensures i > 0 && Escaped(s)[i - 1] == '\\'
    decreases |s|
  {
    var e := Escaped(s);
    var head := EscapedChar(s[0]);
    assert e == head + Escaped(s[1..]);
    if i >= |head| {
      assert Escaped(s[1..])[i - |head|] == '"';
      EscapedQuotesAreEscaped(s[1..], i - |head|);
    }
  }

  /** A shell reading the quoted word gets the original word back, whatever it contains. */
  lemma QuoteRoundTrip(s: string)
    ensures ShellWord(Quoted(s)) == s
  {
    if s == [] {
    } else if AnyShouldBeQuoted(s) {
      var w := Quoted(s);
      assert w[1..|w| - 1] == Escaped(s);
      DequotedEscaped(s);
    } else {
      assert !ShouldBeQuoted(s[0]);
    }
  }
}
