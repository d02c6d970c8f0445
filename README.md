# oco argument-rewriting engine, modelled in Dafny

`oco` reads a command line in one argument dialect, edits it with a small
script of commands, and writes it back out. This project models the engine at
its core:

- `Opts` — the dialect-neutral argument list: option names (`Short(c)` or
  `Long(name)`), option occurrences with their values in order, and positional
  arguments; plus the name-based helpers the edit commands call on a mutable
  argument list (`ParsedArgsRef`).
- `GnuGrammar` — the configurable GNU-style grammar (positional mode
  Forbidden/Free/Explicit, `explicit_positional`, `grouping`, long-argument
  format Equals/Space). Parsing is given twice: as functions on the parser's
  state (`Step`, `Run`, `Parsed`) and as the source's state object
  `GnuParserState`, whose methods are proved to follow those functions.
  Generation is the function `Generated` and the looping method `Generate`.
- `GnuLaws` — what the grammar guarantees: the `--` separator, single-token
  behaviour, parsing only ever appending, the layout of generated tokens, and
  the round trip `Parsed(Generated(a)) == Ok(a)`, proved for the argument
  lists that `RoundTrips` describes.
- `Commands` and `CommandLaws` — the five edit commands (`Set`, `Add`,
  `Remove`, `Append`, `RepeatedAdd`), `Command::apply` as a method editing the
  argument list in place, the function `Applied` that specifies it, and laws
  about which entries each command touches and how commands compose.
- `VecExt` — `ensure_first_or_default` and `push_and_borrow` on a vector
  changed in place; the `&mut T` they return is modelled as the element's index.
- `Shell` — double-quoting of an output word, with the round trip through a
  POSIX shell's reading of the quoted word.
- `ParserExts` — quoted-token stripping, backslash unescaping, and the cursor
  over a parse node's children (`expect_rule(s)`, `attempt_rule(s)`), over an
  abstract type of rule tags.
- `Dialects` — splitting the `name:key=value,key` dialect value and choosing
  the grammar by name; `StrExt` — `split_once`, `split` and `split_kv` on
  character sequences; `Wrappers` — `Option`, `Result` and `Outcome`.

The data model follows the way `src/commands/common.rs` and
`src/opts/grammar/gnu.rs` use it: `src/opts/parsed_args.rs` still shows an
older shape (`name: String, short: bool`) and has none of the helpers
`set_last_option`, `remove_all_options` and `update_last_option`. Their
behaviour is an assumption taken from their names and call sites: the *last*
entry with the name is the one set or updated, a new entry is appended when
there is none, and removal keeps the other entries in order.

One might expect `Append` with an empty delimiter to add each item as a
separate value. The code calls `String::extend` on the first value
(`src/commands/common.rs:45`), which appends the items to that value, and the
model follows the code.

## Model

| member | source | states |
|---|---|---|
| StrExt.FindFirst | src/opts/grammar/gnu.rs:156 | no index exactly when the character is absent; otherwise the index holds it and no earlier position does |
| StrExt.SplitOnce | src/cli/dialect.rs:45 | without the separator the whole string and no rest; otherwise key, separator and rest rebuild the string and the key holds no separator (the first occurrence) |
| StrExt.SplitKv | src/util/str.rs:6-11 | without `=` the result is `(s, None)`; with `=` the key is the text before the first `=`, holds no `=`, and `key ++ "=" ++ value == s` |
| StrExt.SplitOnceOfJoined | src/util/str.rs:9 | a key without `=` joined to any value (which may itself hold `=`) splits back into exactly that key and value |
| StrExt.Split | src/cli/dialect.rs:52 | at least one piece, empty pieces kept; joining the pieces with the separator gives the string back; no piece holds the separator |
| StrExt.SplitOfJoin | src/cli/dialect.rs:52 | splitting undoes joining for separator-free pieces: one piece per `,`-separated part, in order |
| VecExt.WithFirst | src/util/vec.rs:8-13 | an empty vector gains one default element; a non-empty one is unchanged |
| VecExt.Vector.EnsureFirstOrDefault | src/util/vec.rs:8-13 | pushes the default only into an empty vector (length becomes 1), never changes existing elements, and designates index 0 |
| VecExt.Vector.PushAndBorrow | src/util/vec.rs:15-18 | the length grows by one, the old elements are a prefix, and the designated last element is the pushed value |
| Opts.LastIndexOf | src/commands/common.rs:27 | none exactly when no entry carries the name; otherwise an entry with the name and no later one has it |
| Opts.RemoveAll | src/commands/common.rs:33 | no entry of the result carries the name, and exactly the named entries are gone |
| Opts.ParsedArgsRef.SetLastOption | src/commands/common.rs:27 | the options become `SetLast`: the last entry named gets the values, or a new entry is appended; positional unchanged |
| Opts.ParsedArgsRef.RemoveAllOptions | src/commands/common.rs:33 | the loop keeps exactly `RemoveAll` of the old options; positional unchanged |
| Opts.ParsedArgsRef.UpdateLastOption | src/commands/common.rs:41 | designates the last entry with the name, appending a value-less one when there is none; nothing else changes |
| Commands.Applied | src/commands/common.rs:24-55 | every command leaves the positional arguments alone; there is no error result |
| Commands.Apply | src/commands/common.rs:24-55 | editing in place leaves exactly `Applied(cmd, old value)` |
| Commands.AddEach | src/commands/common.rs:35-39 | the loop appends one single-valued entry per value, in order, after the old options |
| Commands.AppendItems | src/commands/common.rs:40-53 | the options become `AppendLast`: the first value of the last named entry (created, and given `""`, when missing) is extended; positional unchanged |
| Commands.Extended | src/commands/common.rs:44-51 | the first value followed by `delimiter ++ item` for each item in order; with an empty delimiter the items are concatenated |
| CommandLaws.OtherEntriesUnchanged | src/commands/common.rs:24-55 | no command adds, drops, reorders or changes an entry with a different name, nor the positional arguments |
| CommandLaws.AddAppendsDuplicate | src/commands/common.rs:29-31 | Add appends exactly one entry at the end, even when the name already occurs; earlier entries unchanged; the count of the name grows by one |
| CommandLaws.RepeatedAddIsAdds | src/commands/common.rs:35-39 | RepeatedAdd equals one Add of `[v]` per value, applied in order |
| CommandLaws.RepeatedAddCount | src/commands/common.rs:35-39 | the options grow by one entry `[v]` per value in order, earlier ones unchanged, and the count of the name grows by the number of values |
| CommandLaws.RemoveAllMembers | src/commands/common.rs:33 | an entry survives `RemoveAll` exactly when it was there and its name differs |
| CommandLaws.RemoveAllConcat | src/commands/common.rs:33 | removing from a concatenation is removing from each part, concatenated: order is kept |
| CommandLaws.RemoveAllOfUnnamed | src/commands/common.rs:33 | removing a name no entry carries changes nothing |
| CommandLaws.RemoveDeletesAll | src/commands/common.rs:32-34 | after Remove no entry carries the name, the length drops by the count of the name, and the entries left are exactly those with another name |
| CommandLaws.RemoveKeepsOrder | src/commands/common.rs:32-34 | Remove distributes over concatenation and keeps a single entry exactly when its name differs, so the kept entries stay in their original relative order |
| CommandLaws.RemoveIdempotent | src/commands/common.rs:32-34 | removing twice is removing once |
| CommandLaws.SetOverwritesLast | src/commands/common.rs:26-28 | Set rewrites only the last entry with the name, in place; with none it appends one at the end (length +1, new entry at the old length); all other entries untouched; the count of the name stays, or becomes 1 |
| CommandLaws.SetLastWriteWins | src/commands/common.rs:26-28 | two Sets of one name equal the second Set alone |
| CommandLaws.AppendEditsFirstValue | src/commands/common.rs:40-53 | Append changes only the first value of the last named entry to `old first (or "") ++ delimiter++item…`; the number of values stays, or becomes 1; the entry is edited in place, or appended at the end when missing (length +1, new entry at the old length), and every other entry, earlier same-named ones included, is unchanged |
| CommandLaws.AppendComposes | src/commands/common.rs:40-53 | appending `xs` then `ys` equals appending `xs ++ ys`, for any delimiter |
| CommandLaws.SetAddSetExample | src/commands/common.rs:26-31 | Set, Add, Set of `--foo` from nothing: the second Set rewrites only the newer entry |
| CommandLaws.AppendExample | src/commands/common.rs:40-53 | onto `--foo x`, delimiter `,` gives `x,a,b` and the empty delimiter gives the single value `xab` |
| CommandLaws.RemoveExample | src/commands/common.rs:29-34 | two Adds of `--foo` then Remove restore the original list |
| GnuGrammar.Message | src/opts/grammar/gnu.rs:186-245 | the error texts of the parser (and the `unwrap` panic text); never empty |
| GnuGrammar.MessagesDistinct | src/opts/grammar/gnu.rs:186-245 | different errors have different messages |
| GnuGrammar.SplitKv | src/opts/grammar/gnu.rs:155-166 | no value exactly when there is no `=`; otherwise `name ++ "=" ++ value` is the input and the name holds no `=` |
| GnuGrammar.UnmarkedStep | src/opts/grammar/gnu.rs:206-225 | succeeds exactly in Free mode or when an option exists; success only grows the state |
| GnuGrammar.ShortStep | src/opts/grammar/gnu.rs:232-255 | success only grows the state |
| GnuGrammar.LongStep | src/opts/grammar/gnu.rs:264-271 | never fails and only grows the state |
| GnuGrammar.Step | src/opts/grammar/gnu.rs:181-204 | success only grows the state (earlier options and positionals kept, only the last option's values grow, the flag is never cleared) |
| GnuGrammar.Run | src/opts/grammar/gnu.rs:73-78 | the token loop's success only grows the state |
| GnuGrammar.Parsed | src/opts/grammar/gnu.rs:68-84 | empty input gives no options and no positional arguments |
| GnuGrammar.GnuParserState.constructor | src/opts/grammar/gnu.rs:168-177 | a fresh state: no options, no positionals, flag off |
| GnuGrammar.GnuParserState.ParseNext | src/opts/grammar/gnu.rs:181-204 | outcome and new state are those of `Step` |
| GnuGrammar.GnuParserState.AddUnmarked | src/opts/grammar/gnu.rs:206-225 | outcome and new state are those of `UnmarkedStep` |
| GnuGrammar.GnuParserState.AddPositional | src/opts/grammar/gnu.rs:227-230 | appends the token to the positionals; nothing else changes |
| GnuGrammar.GnuParserState.AddShort | src/opts/grammar/gnu.rs:232-255 | outcome and new state are those of `ShortStep` |
| GnuGrammar.GnuParserState.AddShortChar | src/opts/grammar/gnu.rs:257-262 | appends one value-less short option; nothing else changes |
| GnuGrammar.GnuParserState.AddLong | src/opts/grammar/gnu.rs:264-271 | always succeeds, with the state of `LongStep` |
| GnuGrammar.Parse | src/opts/grammar/gnu.rs:68-84 | the loop over tokens returns exactly `Parsed` (the first error, or the final state) |
| GnuGrammar.EqualsTokenSplits | src/opts/grammar/gnu.rs:143-146 | `split_kv` reads `--name=value` back as that name and value when the name holds no `=` |
| GnuGrammar.FirstLongTokensReadBack | src/opts/grammar/gnu.rs:143-152 | `generate_first_long_arg`: one marked token carrying name and value (Equals, read back by `split_kv`), or `--name` followed by the value (Space) |
| GnuGrammar.EmitOption | src/opts/grammar/gnu.rs:87-123 | appends exactly the option's tokens: `-c`/`--name` alone; `-c` then every value; `--name=v1` or `--name v1` then the remaining values |
| GnuGrammar.EmitPositional | src/opts/grammar/gnu.rs:125-136 | nothing without positionals; otherwise `--` when explicit, then each positional in order |
| GnuGrammar.Generate | src/opts/grammar/gnu.rs:86-139 | the emitted tokens are exactly `Generated`: all options in order, then the positional part |
| GnuLaws.RunConcat | src/opts/grammar/gnu.rs:73-78 | parsing `xs ++ ys` is parsing `xs`, then `ys` from where it stopped, and fails as soon as `xs` does |
| GnuLaws.RunAfterSeparator | src/opts/grammar/gnu.rs:182-184 | once the flag is set, every token is appended verbatim to the positionals |
| GnuLaws.FlagNeedsSeparator | src/opts/grammar/gnu.rs:187-192 | without a `--` token the flag is never set |
| GnuLaws.SeparatorSplitsArguments | src/opts/grammar/gnu.rs:182-192 | the first `--` is dropped and every later token, `--`, `-f` and `--foo` included, becomes positional; under Forbidden the `--` is an error |
| GnuLaws.LoneSeparator | src/opts/grammar/gnu.rs:187-192 | `["--"]` fails under Forbidden and otherwise gives no options and no positionals |
| GnuLaws.NoPositionalBeforeSeparator | src/opts/grammar/gnu.rs:206-230 | outside Free mode nothing becomes positional before a `--` |
| GnuLaws.PositionalOnlyAfterSeparator | src/opts/grammar/gnu.rs:182-230 | outside Free mode a successful parse without `--` has no positionals; under Forbidden a successful parse has neither `--` nor positionals |
| GnuLaws.ParsingOnlyAppends | src/opts/grammar/gnu.rs:206-271 | if a token list parses, so does each prefix, and the longer result only extends the prefix's: entries kept in place, only the last option's values grow |
| GnuLaws.LongToken | src/opts/grammar/gnu.rs:264-271 | `--x` pushes exactly one long option named by the text before the first `=`, with `[rest]` after `=` or no value |
| GnuLaws.ShortCluster | src/opts/grammar/gnu.rs:232-262 | `-abc` pushes one value-less short option per character with grouping on; with grouping off a longer cluster fails with "cannot be grouped" |
| GnuLaws.ShortClusterParsed | src/opts/grammar/gnu.rs:232-262 | the same for a whole token list of one cluster |
| GnuLaws.BareDash | src/opts/grammar/gnu.rs:232-248 | a bare `-` is handled as an unmarked token; with grouping off and that succeeding, the empty name is the `EmptyShortOption` error |
| GnuLaws.BareDashExample | src/opts/grammar/gnu.rs:415-422 | `-o "" - -- --`: `""` and `-` become values of `-o` and the second `--` is positional |
| GnuLaws.UnmarkedToken | src/opts/grammar/gnu.rs:206-225 | a bare token is positional in Free mode, else a value of the last option, else "not allowed" (Forbidden) or "must be unambiguous" (Explicit) |
| GnuLaws.RunValues | src/opts/grammar/gnu.rs:214-218 | outside Free mode, bare tokens after an option become its values, in order |
| GnuLaws.GroupedPairSplits | src/opts/grammar/gnu.rs:250-253 | with grouping, `-xy` is read exactly as `-x -y` whatever follows |
| GnuLaws.OptionTokensShape | src/opts/grammar/gnu.rs:87-123 | one option's tokens: one marked token naming it, then its values as bare tokens in order, except a long option's first value in the Equals format |
| GnuLaws.OptionsTokensCount | src/opts/grammar/gnu.rs:87-123 | every option gives at least one token |
| GnuLaws.GeneratedLayout | src/opts/grammar/gnu.rs:86-139 | `generate_vec` (src/opts/grammar/mod.rs:16-20) output: the options' tokens, then only with positionals `--` when explicit and the positionals in order; nothing for an empty list |
| GnuLaws.OptionsTokensConcat | src/opts/grammar/gnu.rs:87-123 | the tokens of a list of options are the tokens of each option, concatenated in order |
| GnuLaws.GenerateOrder | src/opts/grammar/gnu.rs:86-139 | the first option's tokens come first, then the rest of the output |
| GnuLaws.RunOption | src/opts/grammar/gnu.rs:87-123 | parsing one generated option pushes exactly that option |
| GnuLaws.RunOptions | src/opts/grammar/gnu.rs:87-123 | parsing the generated options pushes exactly those options |
| GnuLaws.RunPositional | src/opts/grammar/gnu.rs:125-136 | parsing the generated positional part behind an explicit `--` appends exactly those arguments |
| GnuLaws.GenerateThenParse | src/opts/grammar/gnu.rs:68-139 | parsing the generated tokens gives the argument list back, for every list `RoundTrips` describes |
| GnuLaws.GenerateExample | src/opts/grammar/gnu.rs:86-152 | `--long1=42 -s -- pos1 pos2` by default, `--long1 42 …` with Space, and no `--` when not explicit |
| GnuLaws.SeparatorExample | src/opts/grammar/gnu.rs:181-204 | `-a arg1 -- -f --foo` gives option `a` with value `arg1` and positionals `-f`, `--foo` |
| GnuLaws.FreeModeValuesBecomePositional | src/opts/grammar/gnu.rs:209-213 | in Free mode a generated bare value reads back as a positional, so the round trip needs a non-Free mode |
| Shell.ShouldBeQuoted | src/util/shell.rs:25-31 | the characters that force quoting are all ASCII, and include every character that gets a backslash |
| Shell.Escaped | src/util/shell.rs:9-15 | length is the input length plus the number of `$`, `` ` ``, `"`, `\` |
| Shell.Quoted | src/util/shell.rs:3-23 | never empty; `""` for the empty word; unchanged without a special character; otherwise wrapped in `"`, of length `n + 2 + count(escapable)` |
| Shell.Quote | src/util/shell.rs:3-23 | the two buffer loops produce exactly `Quoted` |
| Shell.DequotedEscaped | src/util/shell.rs:9-15 | reading the escaped text inside double quotes gives the original characters in order |
| Shell.EscapedQuotesAreEscaped | src/util/shell.rs:9-15 | every `"` inside the quotes is preceded by a backslash |
| Shell.QuoteRoundTrip | src/util/shell.rs:3-31 | a shell reading the quoted word gets the original word back |
| ParserExts.UnescapeFrom | src/commands/parser_exts.rs:113-127 | never longer than its input |
| ParserExts.Unescape | src/commands/parser_exts.rs:113-127 | the flag-and-buffer loop produces exactly `Unescaped` |
| ParserExts.UnescapeWithoutBackslash | src/commands/parser_exts.rs:116-118 | a backslash-free string comes out unchanged |
| ParserExts.UnescapeKeepsOtherCharacters | src/commands/parser_exts.rs:113-127 | the non-backslash characters are all kept, in order |
| ParserExts.UnescapeOfEscaped | src/commands/parser_exts.rs:113-127 | doubling every backslash is undone |
| ParserExts.EscapeFlagSurvives | src/commands/parser_exts.rs:117-124 | the flag is reset only by a backslash: in `\x…\` the last backslash is kept |
| ParserExts.EscapedThenBackslash | src/commands/parser_exts.rs:117-124 | with the flag set, a backslash after backslash-free text is kept |
| ParserExts.ParseQuoted | src/commands/parser_exts.rs:18-38 | another rule gives its text; an empty quoted text is an error; success on a quoted node strips at least two characters |
| ParserExts.SingleQuotedVerbatim | src/commands/parser_exts.rs:27-30 | `'…'` gives the inside verbatim |
| ParserExts.DoubleQuotedUnescaped | src/commands/parser_exts.rs:32-35 | `"t"` gives `Unescaped(t)` for every inside `t` |
| ParserExts.DoubleQuotedRoundTrip | src/commands/parser_exts.rs:32-35 | hence doubling the backslashes inside double quotes round-trips |
| ParserExts.QuotedShape | src/commands/parser_exts.rs:23-37 | a quoted node of two or more characters is accepted exactly when wrapped in matching single or double quotes |
| ParserExts.Expect | src/commands/parser_exts.rs:82-91 | consumes the next child whenever there is one; succeeds exactly when its rule is expected; errors name the expected rules and what was found |
| ParserExts.Attempt | src/commands/parser_exts.rs:98-101 | consumes the next child exactly when its rule matches; otherwise the cursor is unchanged |
| ParserExts.AttemptAgreesWithExpect | src/commands/parser_exts.rs:71-101 | attempting succeeds exactly when expecting does, with the same child and rest; on failure only expecting consumes |
| ParserExts.Pairs.ExpectRule | src/commands/parser_exts.rs:71-80 | result and remaining children are those of `Expect` with the one rule |
| ParserExts.Pairs.ExpectRules | src/commands/parser_exts.rs:82-91 | result and remaining children are those of `Expect` |
| ParserExts.Pairs.AttemptRule | src/commands/parser_exts.rs:93-96 | result and remaining children are those of `Attempt` with the one rule |
| ParserExts.Pairs.AttemptRules | src/commands/parser_exts.rs:98-101 | result and remaining children are those of `Attempt` |
| Dialects.ParseDialectString | src/cli/dialect.rs:44-60 | the name is the text before the first `:` (the whole value without one, with no arguments); empty arguments give none; otherwise one `split_kv` entry per `,` piece, in order |
| Dialects.ArgsText | src/cli/dialect.rs:33 | the text after the name's `:`, or nothing when there is no `:` |
| Dialects.Message | src/cli/dialect.rs:30-41 | the error texts: `Unknown dialect ` then the name; `Cannot parse grammar arguments for ` then the dialect name, ending with the decoder's message |
| Dialects.ParseDialect | src/cli/dialect.rs:25-42 | a name other than `gnu` fails with "Unknown dialect"; `gnu` gives the decoded grammar, or an error quoting the argument text and the decoder's message |
| Dialects.SplitKvOfEncoded | src/cli/dialect.rs:53-56 | each piece splits at its first `=` back into key and value |
| Dialects.ParseOfEncoded | src/cli/dialect.rs:44-60 | reading back a written dialect value gives its name and its arguments |
| Dialects.ArgsOfEncoded | src/cli/dialect.rs:52-59 | the written arguments split back into one entry per argument, in order |
| Dialects.OnlyGnuIsKnown | src/cli/dialect.rs:30-41 | every name other than `gnu` is rejected, whatever its arguments |
| Dialects.GnuDecodesItsArguments | src/cli/dialect.rs:30-38 | `gnu` selects the Gnu grammar configured by the decoder from exactly the written arguments |

## Left out

- Entry-point plumbing is not part of this model: `src/main.rs`, `src/read_args.rs` and `src/cli/mod.rs` (stdin and stdout, clap, shlex tokenising).
- The serde deserializer in `src/cli/deserialize_from_args.rs` is not part of this model. `Dialects.ParseDialect` takes it as the parameter `decode`, and its error is carried as a message string.
- The pest parsers `src/commands/full.rs` and `src/commands/compact.rs`, and their grammars, are not part of this model. `ParserExts` works on nodes reduced to a rule tag and a text.
- `map_single_wrapped` (`InnerUnwrap`) is not modelled: it only takes a node's first child.
- `Grammar::generate`'s sink callback is modelled as the returned token sequence, as `generate_vec` collects it. The Gnu generator never fails, so `Generate` returns the tokens and no `Result`.
- Error values are datatypes, not formatted strings. `ExpectError` carries the expected rule list where the source formats it with `format_rules`.
- Strings are sequences of characters. The source works on UTF-8 bytes in `quote`, in slicing and in the grouping test. Every special character involved is ASCII, so this changes nothing except in the two points below.
- GnuGrammar.ShortStep: tests "more than one" on characters, while `gnu.rs:243` tests the UTF-8 byte length. With grouping off, a single non-ASCII short option such as `-é` is accepted here but rejected as "cannot be grouped" by the source.
- GnuGrammar.SplitKv: splits at the character position of the first `=`. `gnu.rs:156-160` passes that character position to `split_at` as a byte offset, so a non-ASCII name before the `=` splits differently or panics in the source.
- GnuGrammar.ShortStep: a bare `-` with grouping off gives the error `EmptyShortOption`, after `add_unmarked` has run. The source panics there on `unwrap` of the empty name's first character.
- ParserExts.ParseQuoted: a quoted node consisting of a lone `'` or `"` gives the error `LoneQuote`, where the source's slice `[1..0]` panics.
- `parsed_args.rs` is stale. `set_last_option`, `remove_all_options` and `update_last_option` are specified from their call sites in `src/commands/common.rs`, as described above. `update_last_option`'s closure is inlined into `Commands.AppendItems`.
- `Dialect` is a one-variant union. Its `enum_dispatch` forwarding to the grammar, and the `enum_dispatch_clone` proc-macro, are not modelled.
- GnuLaws.GenerateThenParse: the round trip is proved for the argument lists `RoundTrips` describes, a sufficient condition; outside them it can fail (`FreeModeValuesBecomePositional`).
