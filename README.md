# JARVIS MySQL plugin: credential initializer

This project models the credential initializer of the JARVIS MySQL plugin
(`jarvisMySQLplugin/main_init.py`) in Dafny and proves properties of the model.
The initializer takes MySQL connection settings, either as arguments or as a
command such as `init(usr:me, pwd:'s,cr t', host:db, port:3307)`. It applies
defaults to the host and the port, and refuses to go on without a user and a
password. It then writes a `.env` file of `KEY=VALUE` lines, quoting and
escaping every value that holds a special character.

The model has five modules:

- `Wrappers` (`wrappers.dfy`): `Option` and `Result`, Python truthiness of an
  optional string, and `dict.get`.
- `PyStr` (`pystr.dfy`): the `str` built-ins the code relies on. These are
  `isspace` (which is also what `\s` matches), `strip`, `lower` on ASCII letters,
  one-character `replace`, `"\n".join` and `str` of an integer.
- `EnvQuote` (`env_quote.dfy`): `_quote_env_value`. Its partner is `DecodeValue`,
  a reader that undoes the quoting, and a round trip connects the two.
- `EnvInit` (`env_init.dfy`): the non-interactive path of `init`, written as a
  method. It resolves the host and the port, checks `usr` and `pwd`, and yields
  the file path and the file text. Its partner is `ParseEnv`, a line-by-line
  `.env` reader; the lemmas show that every written setting reads back.
- `InitCommand` (`init_command.dfy`): `init_from_command`. This covers the
  `init(...)` wrapper test, the regular expression
  `(usr|pwd|host|port|db|env)\s*:\s*(".*?"|'.*?'|[^,]+)` under `re.IGNORECASE`,
  `findall`, the loop that builds the `pairs` dictionary, and the hand-over to
  `init`.
  - The regular expression is written as an explicit scanner: `KeyAt`,
    `SkipSpaces`, `ValueEnd`, `ValueAfterColon`, `MatchWith` and `MatchAt`.
    - It follows Python's rules: the alternation order, the lazy quoted
      alternatives stopping at the first closing quote on the line, `.` not
      matching a newline, and `[^,]+` running to the next comma.
    - When the value cannot start where the greedy `\s*` stopped (at a comma or
      at the end), the engine gives back one whitespace character, and the value
      is that character.
    - Under `IGNORECASE` the `s` of `usr` and `host` also matches `ſ` (U+017F,
      LATIN SMALL LETTER LONG S).
  - `findall` (`FindAll`) resumes after each match, or one character further
    when nothing matches. The pattern has no anchor and no look-behind, so
    whether it matches at a position depends only on the rest of the text.
    `FindAll` therefore scans suffixes, and the `end` of a match counts from
    the start of the suffix it was found in.
  - The partner of the scanner is `ListText`, which writes a list of pairs in
    the documented form. `ListRead` proves that reading such a list gives back
    the dictionary of its pairs. This holds for keys in any ASCII case and for
    quoted values that hold commas and spaces.

Parameters stand in for the process environment and the file system:
- `environ` stands for `os.environ`.
- `pluginDir` stands for `Path(__file__).resolve().parent`.
- The text that `write_text` would put in the file is returned as
  `Saved(path, content)`.
- A Python `ValueError` is returned as `Err(MissingCredentials)` or
  `Err(InvalidSyntax)`.

Two behaviours of the code are narrower than its docstrings suggest, and the
model follows the code:
- The docstring of `_quote_env_value` (main_init.py:27) speaks of spaces or
  special characters. The test at main_init.py:32 lists exactly seven: space,
  tab, `#`, `"`, `'`, `=` and `\`. Other whitespace, such as a newline or a
  carriage return, does not cause quoting, so a value with a newline is written
  as it is. `NewlineCutsValue` shows what a reader then sees.
- The docstring of `init` (main_init.py:56) says host and port default to
  `localhost:3306` when not provided. An empty or all-blank host does fall back
  to the default (main_init.py:66). A port falls back only when it is `None`
  (main_init.py:67): a given port is stripped, so an all-blank port string is
  written as the empty string.

## Model

| member | source | states |
|---|---|---|
| `EnvQuote.QuoteEnvValue` | jarvisMySQLplugin/main_init.py:26-36 | `None` gives `""`. A value without space, tab, `#`, `"`, `'`, `=` or `\` is returned unchanged. Any other value is the one-pass escape of the value between double quotes. |
| `EnvQuote.NeedsQuotesIff` | jarvisMySQLplugin/main_init.py:32 | A value needs quotes exactly when one of space, tab, `#`, `"`, `'`, `=` or `\` is in it. |
| `EnvQuote.ReplaceEscapeIsEscape` | jarvisMySQLplugin/main_init.py:34 | The two `str.replace` passes (first `\` becomes `\\`, then `"` becomes `\"`) equal a one-pass escape of each `\` and `"`. |
| `EnvQuote.ReplaceCharConcat` | jarvisMySQLplugin/main_init.py:34 | One-character `replace` distributes over concatenation. |
| `EnvQuote.UnescapeEscape` | jarvisMySQLplugin/main_init.py:34 | Unescaping the escaped text gives the text back, for every string. |
| `EnvQuote.QuoteUnchangedIff` | jarvisMySQLplugin/main_init.py:32-36 | A value is written unchanged if and only if it holds no special character. |
| `EnvQuote.QuoteRoundTrip` | jarvisMySQLplugin/main_init.py:32-36 | Decoding what `_quote_env_value` writes gives the original value, for every string. |
| `EnvQuote.EscapeKeepsNewlines` | jarvisMySQLplugin/main_init.py:34 | Escaping neither adds nor removes newlines. |
| `EnvQuote.QuoteKeepsNewlines` | jarvisMySQLplugin/main_init.py:32-36 | The written value holds a newline exactly when the value does: a newline is not quoted. |
| `EnvInit.EnvFilePath` | jarvisMySQLplugin/main_init.py:60 | The file is `env_path` when that is a non-empty string, otherwise `.env` in the plugin directory. |
| `EnvInit.ResolveHost` | jarvisMySQLplugin/main_init.py:63-66 | A host holding a non-whitespace character is written stripped. An absent, empty or all-blank host gives `MYSQL_HOST` from the environment, else `localhost`. |
| `EnvInit.ResolvePort` | jarvisMySQLplugin/main_init.py:64-67 | An absent port gives `MYSQL_PORT` from the environment, else `3306`. A given string is stripped. An integer is written as `str(n)`. |
| `EnvInit.StripNoSpace` | jarvisMySQLplugin/main_init.py:67 | A text without whitespace is its own `strip()`, so `str(n).strip()` is `str(n)`. |
| `EnvInit.EnvLinesOfEntries` | jarvisMySQLplugin/main_init.py:93-100 | The lines are host, port, user and password, then the database only when it is non-empty. |
| `EnvInit.EntriesKeys` | jarvisMySQLplugin/main_init.py:93-100 | There are four settings, or five when the database is non-empty. Their keys are pairwise distinct, and none holds `=` or a newline. |
| `EnvInit.EnvLineDecodes` | jarvisMySQLplugin/main_init.py:94-100 | A setting's line is its key, then `=`, then a text that decodes to its value. |
| `EnvInit.Init` | jarvisMySQLplugin/main_init.py:59-102 | Fails with `MissingCredentials` exactly when `usr` or `pwd` is absent or empty. Otherwise it returns the resolved file path and exactly the `.env` text of the resolved host and port, the user, the password and a non-empty database, in that order. |
| `EnvInit.ParseOneLine` | jarvisMySQLplugin/main_init.py:94-100 | For a key without `=` or a newline and a value without a newline, the written `KEY=VALUE` line holds no newline and reads back as exactly that key and value. |
| `EnvInit.ReadLinesStep` | jarvisMySQLplugin/main_init.py:102 | The reader handles the first line, then the rest of the text. |
| `EnvInit.ReadEnvText` | jarvisMySQLplugin/main_init.py:93-102 | Reading the written text puts in every written setting, in order, for any settings without newlines whose keys hold no `=`. |
| `EnvInit.ReadBackSettings` | jarvisMySQLplugin/main_init.py:93-102 | Four or five written settings read back as the dictionary of those settings, for values without a newline and keys without `=` or a newline (`NewlineCutsValue` shows what a newline in a value does instead). |
| `EnvInit.SettingsReadBack` | jarvisMySQLplugin/main_init.py:93-102 | The file `init` writes reads back as `MYSQL_HOST`, `MYSQL_PORT`, `MYSQL_USER` and `MYSQL_PASSWORD` with their values, plus `MYSQL_DB` exactly when a non-empty database was given. |
| `EnvInit.NewlineCutsValue` | jarvisMySQLplugin/main_init.py:93-102 | A user name `a` + newline + `b` is written without quotes, and it reads back as `a` only. |
| `EnvInit.NewlineCutsValueAt` | jarvisMySQLplugin/main_init.py:93-102 | The same, for any four keys that can be written. |
| `EnvInit.NewlineSplitsText` | jarvisMySQLplugin/main_init.py:93-102 | A value `a` + newline + `b`, with neither part needing quotes, is written unquoted and splits its line in two in the file text: `KEY=a`, then `b`. |
| `EnvInit.LineWithoutSettingIgnored` | jarvisMySQLplugin/main_init.py:102 | A line without `=` (and without a newline) adds no setting. |
| `EnvInit.NumericPortReadBack` | jarvisMySQLplugin/main_init.py:95 | A non-negative integer port is written unquoted as its decimal digits, which read back as that integer. |
| `PyStr.Strip` | jarvisMySQLplugin/main_init.py:66-67 | `strip()` is the slice of the text between its leading and trailing whitespace. The result is empty or has non-whitespace ends, and it is empty exactly when the text is all whitespace. |
| `PyStr.StripKeepsEnds` | jarvisMySQLplugin/main_init.py:118 | A text with non-whitespace ends is its own `strip()`. |
| `PyStr.StripPadded` | jarvisMySQLplugin/main_init.py:118 | Whitespace around a text with non-whitespace ends is exactly what `strip()` removes. |
| `PyStr.AsciiLower` | jarvisMySQLplugin/main_init.py:134 | `lower()` maps `A`-`Z` to `a`-`z` and keeps every other character of the texts it meets here. |
| `PyStr.LowerAscii` | jarvisMySQLplugin/main_init.py:134 | `lower()` of a text is character by character and keeps the length. |
| `PyStr.JoinThenNewline` | jarvisMySQLplugin/main_init.py:102 | `"\n".join(lines) + "\n"` is every line followed by a newline. |
| `PyStr.JoinLines` | jarvisMySQLplugin/main_init.py:102 | `"\n".join(lines)` is empty for no lines. It begins with the first line, which a newline follows when there is a second, and it ends with the last line. |
| `PyStr.IntToStr` | jarvisMySQLplugin/main_init.py:67 | `str(n)` is nonempty and reads back: for `n >= 0` it is decimal digits of value `n`; for `n < 0` it is `-` followed by digits of value `-n`. The digits have no leading zero unless the number is `0`. |
| `PyStr.DigitsOf` | jarvisMySQLplugin/main_init.py:67 | The decimal digits of `n` are nonempty, all digits, and start with `0` exactly when `n` is `0`, which is then the single digit `0`. |
| `PyStr.DigitsOfRoundTrip` | jarvisMySQLplugin/main_init.py:67 | The decimal digits of `n` have value `n`. |
| `Wrappers.Get` | jarvisMySQLplugin/main_init.py:136-141 | `pairs.get(k)` is present exactly when `k` is a key, and then it is that key's value. |
| `InitCommand.StartsWithInit` | jarvisMySQLplugin/main_init.py:120 | `text.lower().startswith("init")` holds exactly when the first four characters lower to `init`. |
| `InitCommand.WrapperInner` | jarvisMySQLplugin/main_init.py:121-124 | When the wrapper matches, the inside holds no newline. It lies between a `(` at the first non-whitespace character after `init` and a `)` followed only by whitespace. |
| `InitCommand.CommandInner` | jarvisMySQLplugin/main_init.py:118-126 | A command whose stripped text does not start with `init` is read whole, stripped. Otherwise the inside of a wrapper is read, and it holds no newline. |
| `InitCommand.SkipSpaces` | jarvisMySQLplugin/main_init.py:129 | A greedy `\s*` stops at the first non-whitespace character or at the end. |
| `InitCommand.KeyFrom` | jarvisMySQLplugin/main_init.py:129 | The alternation tries the keys in order. The one it takes matches, and none before it does. |
| `InitCommand.KeyAt` | jarvisMySQLplugin/main_init.py:129 | The key group matches at most one alternative at a position. When it matches none, no alternative matches there. |
| `InitCommand.KeysExclusive` | jarvisMySQLplugin/main_init.py:129 | No two keys of the alternation match at the same position, whatever the case. |
| `InitCommand.KeyNameOf` | jarvisMySQLplugin/main_init.py:129-134 | A matched key lowers to its key of the pattern, unless it is spelt with `ſ`. |
| `InitCommand.NextOf` | jarvisMySQLplugin/main_init.py:129 | The first occurrence of a character at or after a position: how far `.` reaches (up to a newline), and how far `[^,]+` runs (up to a comma or the end). |
| `InitCommand.ClosingQuote` | jarvisMySQLplugin/main_init.py:129 | The lazy `".*?"` and `'.*?'` close at the first matching quote on the same line, if there is one. |
| `InitCommand.ValueEnd` | jarvisMySQLplugin/main_init.py:129 | The value group matches a quoted value or a comma-free run, and it fails exactly at a comma or at the end of the text. |
| `InitCommand.ValueEndMaximal` | jarvisMySQLplugin/main_init.py:129 | A value that is not quoted runs up to the next comma or to the end: `[^,]+` is greedy. |
| `InitCommand.ValueEndPrefersQuote` | jarvisMySQLplugin/main_init.py:129 | A value that opens with a quote closed later on the same line is matched as a quoted value: the quoted alternatives come first. |
| `InitCommand.QuoteClosedOnLine` | jarvisMySQLplugin/main_init.py:129 | The lazy `.*?` stops at the first closing quote, with neither that quote nor a newline in between. |
| `InitCommand.ValueAfterColon` | jarvisMySQLplugin/main_init.py:129 | The value group starts after the colon and only whitespace. When it cannot start where `\s*` stopped, it is one whitespace character given back, followed by a comma or the end. There is no value exactly when the colon is followed directly by a comma or the end. |
| `InitCommand.MatchWith` | jarvisMySQLplugin/main_init.py:129 | A match for a given key: the key as written, then `\s*`, a colon and the value group as `ValueAfterColon` places it. The value text is the slice of the text that ends where the match ends. |
| `InitCommand.MatchAt` | jarvisMySQLplugin/main_init.py:129 | A match starts with a key group matched by `KeyAt`, written as in the text, and its value is quoted or comma-free. A match exists exactly when `MatchWith` finds one for that key, and then it is that match. |
| `InitCommand.MatchedKeyName` | jarvisMySQLplugin/main_init.py:129-134 | The lowered key of a match is one of the six keys, or holds `ſ`. |
| `InitCommand.FoundMatches` | jarvisMySQLplugin/main_init.py:129-134 | Every match `findall` returns has such a key and such a value. |
| `InitCommand.PairsFromKeysFound` | jarvisMySQLplugin/main_init.py:130-134 | Every key of the dictionary was there before, or is the lowered key of some match. |
| `InitCommand.PairsFromHasFound` | jarvisMySQLplugin/main_init.py:130-134 | Keys already there stay, and the lowered key of every match is put in. |
| `InitCommand.PairsFromUntouched` | jarvisMySQLplugin/main_init.py:130-134 | A key that no match has keeps its value. |
| `InitCommand.PairsFromLast` | jarvisMySQLplugin/main_init.py:130-134 | Each key holds the cleaned value of its last match: later pairs overwrite earlier ones. |
| `InitCommand.PairsOfKeys` | jarvisMySQLplugin/main_init.py:128-134 | The dictionary holds a key if and only if some match has it. |
| `InitCommand.CollectPairs` | jarvisMySQLplugin/main_init.py:128-134 | The loop builds the dictionary of the matches. Its keys are exactly the lowered keys found, and each key holds the stripped, unquoted value of its last match. |
| `InitCommand.StoredKeys` | jarvisMySQLplugin/main_init.py:129-134 | Only the six keys (or a key spelt with `ſ`) reach the dictionary, in lower case. |
| `InitCommand.InitFromCommand` | jarvisMySQLplugin/main_init.py:113-145 | A command that starts with `init` but is no wrapper fails with `InvalidSyntax`. Otherwise the result is that of non-interactive `init` on the pairs found: `MissingCredentials` exactly when `usr` or `pwd` is missing or empty, else the resolved path (a non-empty `env` overrides `env_path`) and the `.env` text of the pairs' values. |
| `InitCommand.KeyTextLowers` | jarvisMySQLplugin/main_init.py:134 | A key written in any ASCII case lowers to its key of the pattern. |
| `InitCommand.KeyAtText` | jarvisMySQLplugin/main_init.py:129 | The key group matches a key written in any ASCII case. |
| `InitCommand.CleanValueText` | jarvisMySQLplugin/main_init.py:131-133 | Stripping and unquoting a written value gives the value. A quoted one keeps commas and spaces verbatim. |
| `InitCommand.ValueEndText` | jarvisMySQLplugin/main_init.py:129 | The value group on a written value ends just after it, when a comma or the end follows. |
| `InitCommand.PairMatch` | jarvisMySQLplugin/main_init.py:129 | A written pair followed by a comma or the end is matched with its key and value as written. |
| `InitCommand.NoMatchAt` | jarvisMySQLplugin/main_init.py:129 | No match starts at a comma or at whitespace. |
| `InitCommand.FindAll` | jarvisMySQLplugin/main_init.py:130 | `findall` finds at most one match per character of the text. The keys and values of its matches are stated by `FoundMatches`, its resumption after a match by `FindAllStep`, and the matches of a written list by `ScanList`. |
| `InitCommand.CleanValue` | jarvisMySQLplugin/main_init.py:131-133 | The cleaned value is the stripped value, unless that begins and ends with the same quote character. Then the quotes are removed, and a lone quote becomes empty. |
| `InitCommand.KeyName` | jarvisMySQLplugin/main_init.py:134 | `key.lower()` keeps the length and leaves no ASCII upper-case letter. |
| `InitCommand.FindAllOverSeparator` | jarvisMySQLplugin/main_init.py:130 | `findall` passes over `, ` without a match. |
| `InitCommand.PairMatchedAtStart` | jarvisMySQLplugin/main_init.py:129 | A written pair at the start of a text is matched there. |
| `InitCommand.FindAllStep` | jarvisMySQLplugin/main_init.py:130 | `findall` takes the match at the start and resumes after it. |
| `InitCommand.FindAllPairThenComma` | jarvisMySQLplugin/main_init.py:130 | `findall` on a written pair followed by a comma. |
| `InitCommand.FindAllPairThenSeparator` | jarvisMySQLplugin/main_init.py:130 | `findall` on a written pair followed by `, ` and more text. |
| `InitCommand.FindAllLastPair` | jarvisMySQLplugin/main_init.py:130 | `findall` on a single written pair finds exactly that pair. |
| `InitCommand.ScanList` | jarvisMySQLplugin/main_init.py:129-130 | `findall` on a list written `key:value, key:value, ...` finds exactly one match per pair, in order, with its key and value as written. |
| `InitCommand.FoldAgrees` | jarvisMySQLplugin/main_init.py:130-134 | Matches that read as the pairs, key by key and value by value, build the pairs' dictionary. |
| `InitCommand.ExpectedShape` | jarvisMySQLplugin/main_init.py:129-130 | The expected matches are one per pair, with that pair's key and value text. |
| `InitCommand.ListRead` | jarvisMySQLplugin/main_init.py:113-134 | A documented pair list, with keys in any ASCII case and plain or quoted values, reads back as the dictionary of its pairs, later pairs overwriting earlier ones. |
| `InitCommand.WrapperAccepted` | jarvisMySQLplugin/main_init.py:118-124 | Whitespace, then `init` in any ASCII case, then any whitespace, `(`, a list, `)` and whitespace: this yields exactly the list, provided it holds no newline. |
| `InitCommand.InitWithoutParenthesisRejected` | jarvisMySQLplugin/main_init.py:118-123 | `init` in any ASCII case, then any whitespace (none included), then anything other than `(`: the command is invalid syntax. |
| `InitCommand.NewlineInWrapperRejected` | jarvisMySQLplugin/main_init.py:121-123 | A wrapper whose parentheses enclose a newline is invalid syntax: `.` does not match a newline. |
| `InitCommand.NoClosingParenthesisRejected` | jarvisMySQLplugin/main_init.py:121-123 | A command starting with `init` whose last non-whitespace character is not `)` is invalid syntax. |
| `InitCommand.InitWrapperAccepted` | jarvisMySQLplugin/main_init.py:118-124 | `init(` + list + `)` yields the list when the list holds no newline. |
| `InitCommand.DocstringPairs` | jarvisMySQLplugin/main_init.py:114 | The docstring's command `init(usr:john@gmail.com, pwd:1234, host:db, port:3307)` is accepted. Its pairs read as `usr`, `pwd`, `host` and `port` with those values. |
| `InitCommand.ExampleHostPort` | jarvisMySQLplugin/main_init.py:66-67 | The example's host `db` and port `3307` are written as given, whatever the environment holds. |
| `InitCommand.ExampleSettingsText` | jarvisMySQLplugin/main_init.py:93-102 | The example's settings are written unquoted as four lines: `MYSQL_HOST=db`, `MYSQL_PORT=3307`, `MYSQL_USER=john@gmail.com` and `MYSQL_PASSWORD=1234`. |
| `InitCommand.DocstringExample` | jarvisMySQLplugin/main_init.py:113-145 | `init_from_command` on the docstring's command, with no `env_path`, writes those four lines to `.env` in the plugin directory. |

## Left out

- The interactive prompts of `init` (`input`, `getpass`, the retry loops and the
  optional database prompt) are not modelled. Only the `non_interactive=True`
  path that `init_from_command` takes is. With `non_interactive=False` the
  validation would be replaced by prompting, which is terminal I/O.
- Writing the file, `os.chmod(env_file, 0o600)` and its ignored failure, and the
  final `print` are I/O. The model returns the path and the text that would be
  written instead.
- `Path(env_path)` and `plugin_dir / ".env"` are kept as strings. Path
  normalisation and `resolve()` are not modelled.
- `EnvInit.Init` takes `host`, `usr`, `pwd` and `db` as optional strings. Other
  Python objects (numbers, for example) and their `str()` are not modelled,
  except for an integer `port`.
- `PyStr.AsciiLower`: `str.lower()` is modelled on ASCII letters only. Every
  other character is kept. That is exact for the key group, which can only
  match ASCII letters and `ſ`. It is also exact for the `startswith("init")`
  test: only ASCII letters lower to `i`, `n` and `t`, and the one character
  whose lower case is longer (`İ`) lowers to `i` followed by a combining dot.
- The other Unicode case equivalences of `re.IGNORECASE`, such as the Kelvin
  sign and `k`, are not modelled. None of them concerns a letter of the six keys
  other than `s`.
- `EnvInit.SettingsReadBack` holds only for values without a newline. The code
  writes a newline inside a value as it is, and `EnvInit.NewlineCutsValue`
  states what a reader then gets.
- `EnvInit.NumericPortReadBack` is stated for non-negative ports. A negative port
  is written as `-` followed by its digits (`PyStr.IntToStr`). The reader of digits
  used here does not take a sign.
- `InitCommand.ListRead` is stated for lists written with `, ` between pairs and
  no whitespace around `:`. The scanner itself handles any spacing, and
  `InitCommand.CollectPairs` holds for every text.
- `main.py` and the rest of the plugin (the connection code and the command
  dispatch) are not part of this model.
