/**
 * Quoting of one value of the `.env` settings file (`_quote_env_value`) and
 * the decoding a reader of that file applies, with the round trip between them.
 */
module EnvQuote {
  import opened Wrappers
  import opened PyStr

  /** The characters whose presence makes a value quoted: space, tab, `#`, `"`, `'`, `=` and `\`. */
  predicate IsSpecial(c: char) {
    c == ' ' || c == '\t' || c == '#' || c == '"' || c == '\'' || c == '=' || c == '\\'
  }

  /** A value is quoted when some character of it is special. */
  predicate NeedsQuotes(v: string) {
    exists i :: 0 <= i < |v| && IsSpecial(v[i])
  }

  /** The test of `_quote_env_value` as the source writes it: one of the seven special characters
      occurs in the value. */
  lemma {:induction false} NeedsQuotesIff(v: string)
    ensures NeedsQuotes(v) <==>
      ' ' in v || '\t' in v || '#' in v || '"' in v || '\'' in v || '=' in v || '\\' in v
  {
  }

  /** One-pass reference escaping: `\` becomes `\\` and `"` becomes `\"`, everything else is kept. */
  function Escape(v: string): (r: string)
    ensures |r| >= |v|
  {
    if v == [] then []
    else (if v[0] == '\\' || v[0] == '"' then ['\\', v[0]] else [v[0]]) + Escape(v[1..])
  }

  /** The escaping as the source writes it: first every `\` is doubled, then every `"` gets a `\`. */
  function ReplaceEscape(v: string): (r: string) {
    ReplaceChar(ReplaceChar(v, '\\', "\\\\"), '"', "\\\"")
  }

  /** `_quote_env_value`: `None` gives "", a value with a special character is escaped and put
      between double quotes, any other value is returned unchanged. */
  function QuoteEnvValue(value: Option<string>): (r: string)
    ensures value.None? ==> r == ""
    ensures value.Some? && !NeedsQuotes(value.value) ==> r == value.value
    ensures value.Some? && NeedsQuotes(value.value) ==> r == "\"" + Escape(value.value) + "\""
  {
    match value
    case None => ""
    case Some(v) =>
      if NeedsQuotes(v) then
        ReplaceEscapeIsEscape(v);
        "\"" + ReplaceEscape(v) + "\""
      else v
  }

  /** Reading an escaped text back: `\x` stands for `x`, every other character for itself. */
  function Unescape(s: string): (r: string)
  {
    if s == [] then []
    else if s[0] == '\\' && |s| >= 2 then [s[1]] + Unescape(s[2..])
    else [s[0]] + Unescape(s[1..])
  }

  /** A reader's view of one value: a text between double quotes is unescaped, any other text is taken as it is. */
  function DecodeValue(t: string): (r: string)
  {
    if |t| >= 2 && t[0] == '"' && t[|t| - 1] == '"' then Unescape(t[1..|t| - 1]) else t
  }

  lemma {:induction false} ReplaceCharConcat(a: string, b: string, c: char, rep: string)
    ensures ReplaceChar(a + b, c, rep) == ReplaceChar(a, c, rep) + ReplaceChar(b, c, rep)
  {
    if a != [] {
      var head := if a[0] == c then rep else [a[0]];
      ReplaceCharConcat(a[1..], b, c, rep);
      calc {
        ReplaceChar(a + b, c, rep);
      == { assert (a + b)[0] == a[0]; assert (a + b)[1..] == a[1..] + b; }
        head + ReplaceChar(a[1..] + b, c, rep);
      ==
        head + (ReplaceChar(a[1..], c, rep) + ReplaceChar(b, c, rep));
      ==
        (head + ReplaceChar(a[1..], c, rep)) + ReplaceChar(b, c, rep);
      ==
        ReplaceChar(a, c, rep) + ReplaceChar(b, c, rep);
      }
    } else {
      assert a + b == b;
    }
  }

  /** The two `str.replace` passes of the source escape exactly as the one-pass reference does. */
  lemma {:induction false} ReplaceEscapeIsEscape(v: string)
    ensures ReplaceEscape(v) == Escape(v)
  {
    if v != [] {
      var head := if v[0] == '\\' then "\\\\" else [v[0]];
      assert ReplaceChar(v, '\\', "\\\\") == head + ReplaceChar(v[1..], '\\', "\\\\");
      ReplaceCharConcat(head, ReplaceChar(v[1..], '\\', "\\\\"), '"', "\\\"");
      ReplaceEscapeIsEscape(v[1..]);
      if v[0] == '\\' {
        assert ReplaceChar(head, '"', "\\\"") == "\\\\" by {
          assert ReplaceChar(head[1..], '"', "\\\"") == "\\";
        }
      } else if v[0] == '"' {
        assert ReplaceChar(head, '"', "\\\"") == "\\\"";
      } else {
        assert ReplaceChar(head, '"', "\\\"") == [v[0]];
      }
    }
  }

  lemma {:induction false} UnescapeEscape(v: string)
    ensures Unescape(Escape(v)) == v
  {
    if v != [] {
      UnescapeEscape(v[1..]);
      var e := Escape(v);
      if v[0] == '\\' || v[0] == '"' {
        assert e == ['\\', v[0]] + Escape(v[1..]);
        assert e[2..] == Escape(v[1..]);
      } else {
        assert e == [v[0]] + Escape(v[1..]);
        assert e[1..] == Escape(v[1..]);
      }
    }
  }

  /** A value is written unchanged exactly when it holds none of the special characters. */
  lemma {:induction false} QuoteUnchangedIff(v: string)
    ensures QuoteEnvValue(Some(v)) == v <==> !NeedsQuotes(v)
  {
    if NeedsQuotes(v) {
      assert |QuoteEnvValue(Some(v))| >= |v| + 2;
    }
  }

  /** Decoding what `_quote_env_value` wrote gives the original value back. */
  lemma {:induction false} QuoteRoundTrip(v: string)
    ensures DecodeValue(QuoteEnvValue(Some(v))) == v
  {
    var q := QuoteEnvValue(Some(v));
    if NeedsQuotes(v) {
      assert q[1..|q| - 1] == Escape(v);
      UnescapeEscape(v);
    }
  }

  lemma {:induction false} EscapeKeepsNewlines(v: string)
    ensures '\n' in Escape(v) <==> '\n' in v
  {
    if v != [] {
      EscapeKeepsNewlines(v[1..]);
      var head := if v[0] == '\\' || v[0] == '"' then ['\\', v[0]] else [v[0]];
      assert Escape(v) == head + Escape(v[1..]);
      assert v == [v[0]] + v[1..];
    }
  }

  /** The written value spans more than one line only when the value itself holds a newline. */
  lemma {:induction false} QuoteKeepsNewlines(v: string)
    ensures '\n' in QuoteEnvValue(Some(v)) <==> '\n' in v
  {
    EscapeKeepsNewlines(v);
  }
}
