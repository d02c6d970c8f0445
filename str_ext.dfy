/**
 * String splitting as the Rust standard library does it (`chars().position`,
 * `split_once`, `split`), and the `SplitExt::split_kv` extension built on it.
 * Strings are sequences of characters.
 */
module StrExt {
  import opened Wrappers

  /** Index of the first occurrence of `c` in `s` (`s.chars().position(|x| x == c)`). */
  function FindFirst(s: string, c: char): (r: Option<nat>)
    ensures r.None? <==> c !in s
    ensures r.Some? ==> r.value < |s| && s[r.value] == c && c !in s[..r.value]
  {
    if s == [] then None
    else if s[0] == c then Some(0)
    else match FindFirst(s[1..], c)
      case None => None
      case Some(i) =>
        assert s[..i + 1] == [s[0]] + s[1..][..i];
        Some(i + 1)
  }

  /** Two splits of one string at a separator that neither left part contains are the same split. */
  lemma SplitAtFirstUnique(a: string, b: string, a': string, b': string, sep: char)
    requires a + [sep] + b == a' + [sep] + b'
    requires sep !in a && sep !in a'
    ensures a == a' && b == b'
  {
    var s := a + [sep] + b;
    assert s[|a|] == sep && s[|a'|] == sep;
    assert forall i :: 0 <= i < |a| ==> s[i] == a[i] != sep;
    assert forall i :: 0 <= i < |a'| ==> s[i] == a'[i] != sep;
    assert a == s[..|a|] == a';
    assert b == s[|a| + 1..] == b';
  }

  /**
   * `str::split_once(sep)`: the text before the first `sep` and, when there is
   * one, the text after it.
   */
  function SplitOnce(s: string, sep: char): (r: (string, Option<string>))
    ensures r.1.None? <==> sep !in s
    ensures r.1.None? ==> r.0 == s
    ensures r.1.Some? ==> r.0 + [sep] + r.1.value == s && sep !in r.0
  {
    match FindFirst(s, sep)
    case None => (s, None)
    case Some(i) =>
      assert s == s[..i] + [sep] + s[i + 1..];
      (s[..i], Some(s[i + 1..]))
  }

  /** `SplitOnce` undoes the joining of a separator-free key and any value. */
  lemma SplitOnceOfJoined(key: string, value: string, sep: char)
    requires sep !in key
    ensures SplitOnce(key + [sep] + value, sep) == (key, Some(value))
  {
    var s := key + [sep] + value;
    assert s[|key|] == sep;
    var r := SplitOnce(s, sep);
    SplitAtFirstUnique(r.0, r.1.value, key, value, sep);
  }

  /**
   * `SplitExt::split_kv`: splits `key=value` at the first `=`; the value may
   * itself contain `=`.
   */
  function SplitKv(s: string): (r: (string, Option<string>))
    ensures r.1.None? <==> '=' !in s
    ensures r.1.None? ==> r.0 == s
    ensures r.1.Some? ==> r.0 + "=" + r.1.value == s && '=' !in r.0
  {
    SplitOnce(s, '=')
  }

  /** Pieces joined back with the separator between consecutive pieces. */
  function Join(parts: seq<string>, sep: char): string
  {
    if |parts| == 0 then []
    else if |parts| == 1 then parts[0]
    else parts[0] + [sep] + Join(parts[1..], sep)
  }

  /**
   * `str::split(sep)` for a single-character separator: every piece between
   * separators, empty pieces included, so there is always at least one piece.
   */
  function Split(s: string, sep: char): (r: seq<string>)
    ensures |r| >= 1
    ensures Join(r, sep) == s
    ensures forall i :: 0 <= i < |r| ==> sep !in r[i]
    decreases |s|
  {
    match SplitOnce(s, sep)
    case (head, None) => [head]
    case (head, Some(tail)) => [head] + Split(tail, sep)
  }

  /** Splitting undoes joining when no piece contains the separator. */
  lemma {:induction false} SplitOfJoin(parts: seq<string>, sep: char)
    requires |parts| >= 1
    requires forall i :: 0 <= i < |parts| ==> sep !in parts[i]
    ensures Split(Join(parts, sep), sep) == parts
  {
    if |parts| == 1 {
      assert Join(parts, sep) == parts[0];
    } else {
      var tail := parts[1..];
      assert forall i :: 0 <= i < |tail| ==> sep !in tail[i] by {
        forall i | 0 <= i < |tail| ensures sep !in tail[i] { assert tail[i] == parts[i + 1]; }
      }
      SplitOfJoin(tail, sep);
      SplitOnceOfJoined(parts[0], Join(tail, sep), sep);
      assert Join(parts, sep) == parts[0] + [sep] + Join(tail, sep);
      assert parts == [parts[0]] + tail;
    }
  }
}
