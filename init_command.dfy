/**
 * `init_from_command`: recognising the `init(...)` wrapper, extracting the
 * `key:value` pairs that the source finds with a case-insensitive regular
 * expression (here an explicit left-to-right scanner with the same matching
 * rules), collecting them into a dictionary, and handing them to the
 * non-interactive path of `init`.
 */
module InitCommand {
  import opened Wrappers
  import opened PyStr
  import opened EnvQuote
  import opened EnvInit

  // ---------------------------------------------------------------------------
  // The wrapper `init( ... )`

  /** `text.lower().startswith("init")`.  Only the ASCII letters lower to `i`, `n` and `t` as the
      first character of their lower case, so this is an ASCII case-insensitive prefix test. */
  predicate StartsWithInit(text: string)
    ensures StartsWithInit(text) <==> |text| >= 4 && LowerAscii(text[..4]) == "init"
  {
    assert |text| >= 4 ==> LowerAscii(text[..4]) == [AsciiLower(text[0]), AsciiLower(text[1]),
                                                     AsciiLower(text[2]), AsciiLower(text[3])];
    |text| >= 4 && AsciiLower(text[0]) == 'i' && AsciiLower(text[1]) == 'n' &&
    AsciiLower(text[2]) == 'i' && AsciiLower(text[3]) == 't'
  }

  /** Index of the first non-whitespace character at or after `q`. */
  function SkipSpaces(s: string, q: nat): (r: nat)
    requires q <= |s|
    decreases |s| - q
    ensures q <= r <= |s|
    ensures forall k :: q <= k < r ==> IsSpace(s[k])
    ensures r == |s| || !IsSpace(s[r])
  {
    if q == |s| || !IsSpace(s[q]) then q else SkipSpaces(s, q + 1)
  }

  /** The group of `^\s*init\s*\((.*)\)\s*$` matched against a text that starts with `init`:
      after `init` and optional whitespace comes `(`, the text's last non-whitespace character
      is `)`, and the characters between them hold no newline (`.` does not match one). */
  function WrapperInner(text: string): (r: Option<string>)
    requires StartsWithInit(text)
    ensures r.Some? ==> '\n' !in r.value
    ensures r.Some? ==>
      var open := SkipSpaces(text, 4);
      var close := open + 1 + |r.value|;
      && close < |text| && text[open] == '(' && text[open + 1..close] == r.value && text[close] == ')'
      && AllSpace(text[close + 1..])
  {
    var open := SkipSpaces(text, 4);
    var close := |text| - 1 - TrailingSpaceCount(text);
    if open < close && text[open] == '(' && text[close] == ')' && '\n' !in text[open + 1..close]
    then Some(text[open + 1..close])
    else None
  }

  /** The pair list of a command: the whole stripped text, or, when it starts with `init`, the
      inside of the wrapper; `None` when it starts with `init` but is not a wrapper. */
  function CommandInner(command: string): (r: Option<string>)
    ensures !StartsWithInit(Strip(command)) ==> r == Some(Strip(command))
    ensures StartsWithInit(Strip(command)) && r.Some? ==> '\n' !in r.value
  {
    var text := Strip(command);
    if StartsWithInit(text) then WrapperInner(text) else Some(text)
  }

  // ---------------------------------------------------------------------------
  // One match of `(usr|pwd|host|port|db|env)\s*:\s*(\".*?\"|'.*?'|[^,]+)` under re.IGNORECASE

  /** The keys of the alternation, in the order it tries them. */
  const Keys: seq<string> := ["usr", "pwd", "host", "port", "db", "env"]

  /** LATIN SMALL LETTER LONG S, which Python's `re.IGNORECASE` treats as a case variant of `s`. */
  const LongS: char := '\U{017F}'

  /** A character of the text matched against a lower-case letter of the pattern under `re.IGNORECASE`. */
  predicate MatchesIgnoreCase(c: char, k: char) {
    c == k || c == AsciiUpper(k) || (k == 's' && c == LongS)
  }

  /** The word `w` of the pattern matches the text at `p`. */
  predicate WordAt(s: string, p: nat, w: string) {
    p + |w| <= |s| && forall i :: 0 <= i < |w| ==> MatchesIgnoreCase(s[p + i], w[i])
  }

  /** The first alternative of the key group, from the `w`-th on, that matches at `p`. */
  function KeyFrom(s: string, p: nat, w: nat): (r: Option<nat>)
    requires w <= |Keys|
    decreases |Keys| - w
    ensures r.Some? ==> w <= r.value < |Keys| && WordAt(s, p, Keys[r.value])
    ensures r.Some? ==> forall v :: w <= v < r.value ==> !WordAt(s, p, Keys[v])
    ensures r.None? ==> forall v :: w <= v < |Keys| ==> !WordAt(s, p, Keys[v])
  {
    if w == |Keys| then None
    else if WordAt(s, p, Keys[w]) then Some(w)
    else KeyFrom(s, p, w + 1)
  }

  /** The alternative of the key group that matches at `p`; no two of them can match at the same
      place, so the alternation never has a second choice to fall back on. */
  function KeyAt(s: string, p: nat): (r: Option<nat>)
    ensures r.Some? ==> r.value < |Keys| && WordAt(s, p, Keys[r.value])
    ensures r.Some? ==> forall w :: 0 <= w < |Keys| && WordAt(s, p, Keys[w]) ==> w == r.value
    ensures r.None? ==> forall w :: 0 <= w < |Keys| ==> !WordAt(s, p, Keys[w])
  {
    KeysExclusive(s, p);
    KeyFrom(s, p, 0)
  }

  /** Two lower-case letters of the pattern that a character of the text both matches are the same. */
  lemma {:induction false} SameLetter(c: char, x: char, y: char)
    requires 'a' <= x <= 'z' && 'a' <= y <= 'z'
    requires MatchesIgnoreCase(c, x) && MatchesIgnoreCase(c, y)
    ensures x == y
  {
  }

  /** No two alternatives of the key group match at the same place: their first two letters differ. */
  lemma {:induction false} KeysExclusive(s: string, p: nat)
    ensures forall v, w :: 0 <= v < w < |Keys| ==> !(WordAt(s, p, Keys[v]) && WordAt(s, p, Keys[w]))
  {
    forall v, w | 0 <= v < w < |Keys| && WordAt(s, p, Keys[v])
      ensures !WordAt(s, p, Keys[w])
    {
      var x, y := Keys[v], Keys[w];
      assert x[0] != y[0] || x[1] != y[1];
      if WordAt(s, p, y) {
        assert MatchesIgnoreCase(s[p + 0], x[0]) && MatchesIgnoreCase(s[p + 0], y[0]);
        assert MatchesIgnoreCase(s[p + 1], x[1]) && MatchesIgnoreCase(s[p + 1], y[1]);
        SameLetter(s[p], x[0], y[0]);
        SameLetter(s[p + 1], x[1], y[1]);
      }
    }
  }

  /** The letters of the pattern's keys are lower-case ASCII letters. */
  lemma KeyLetters()
    ensures forall w, j :: 0 <= w < |Keys| && 0 <= j < |Keys[w]| ==> 'a' <= Keys[w][j] <= 'z'
  {
  }

  /** A matched key lowers to the pattern's key, unless it is spelt with a long s, which `lower`
      keeps. */
  lemma {:induction false} KeyNameOf(s: string, p: nat, w: nat)
    requires w < |Keys| && WordAt(s, p, Keys[w])
    ensures var key := s[p..p + |Keys[w]|];
      LowerAscii(key) == Keys[w] || LongS in LowerAscii(key)
  {
    var key := s[p..p + |Keys[w]|];
    KeyLetters();
    if LongS in key {
      var j :| 0 <= j < |key| && key[j] == LongS;
      assert LowerAscii(key)[j] == LongS;
    } else {
      forall j | 0 <= j < |key| ensures LowerAscii(key)[j] == Keys[w][j] {
        assert key[j] == s[p + j];
        assert MatchesIgnoreCase(s[p + j], Keys[w][j]);
      }
    }
  }

  /** Index of the first `c` at or after `q`, or `|s|`.  With a newline it is how far `.` can
      reach; with a comma, how far `[^,]+` runs. */
  function NextOf(s: string, q: nat, c: char): (r: nat)
    requires q <= |s|
    decreases |s| - q
    ensures q <= r <= |s|
    ensures forall k :: q <= k < r ==> s[k] != c
    ensures r == |s| || s[r] == c
  {
    if q == |s| || s[q] == c then q else NextOf(s, q + 1, c)
  }

  /** The closing quote found by the lazy `.*?` after an opening quote just before `q`: the
      first `qc` at or after `q` on the same line. */
  function ClosingQuote(s: string, q: nat, qc: char): (r: Option<nat>)
    requires q <= |s|
    requires qc != '\n'
    decreases |s| - q
    ensures r.Some? ==> q <= r.value < NextOf(s, q, '\n') && s[r.value] == qc
    ensures r.Some? ==> forall k :: q <= k < r.value ==> s[k] != qc
    ensures r.None? ==> forall k :: q <= k < NextOf(s, q, '\n') ==> s[k] != qc
  {
    if q == |s| || s[q] == '\n' then None
    else if s[q] == qc then Some(q)
    else ClosingQuote(s, q + 1, qc)
  }

  /** A value in quotes as the first two alternatives match it: it begins and ends with the same
      quote character, which does not occur in between, and it holds no newline. */
  predicate QuotedRaw(raw: string) {
    |raw| >= 2 && (raw[0] == '"' || raw[0] == '\'') && raw[|raw| - 1] == raw[0] &&
    forall k :: 0 < k < |raw| - 1 ==> raw[k] != raw[0] && raw[k] != '\n'
  }

  /** The opening and closing characters of the two quoted alternatives. */
  predicate IsQuote(c: char) {
    c == '"' || c == '\''
  }

  /** Where the value group ends when it starts at `q`: a double-quoted value, else a single-quoted
      one, else the run of characters up to the next comma; nothing when `q` is at a comma or at
      the end.  The first character decides which quoted alternative can apply, so the two are
      one branch here. */
  function ValueEnd(s: string, q: nat): (r: Option<nat>)
    requires q <= |s|
    ensures r.Some? ==> q < r.value <= |s|
    ensures r.Some? ==> QuotedRaw(s[q..r.value]) || ',' !in s[q..r.value]
    ensures r.None? <==> q == |s| || s[q] == ','
  {
    if q < |s| && IsQuote(s[q]) && ClosingQuote(s, q + 1, s[q]).Some? then
      Some(ClosingQuote(s, q + 1, s[q]).value + 1)
    else if q < |s| && s[q] != ',' then
      Some(NextOf(s, q, ','))
    else
      None
  }

  /** Where a group's text starts and ends. */
  datatype Span = Span(start: nat, end: nat)

  /** `\s*` and the value group after the colon at `colon`: the value starts at the first
      non-whitespace character.  When the value group cannot start there (at a comma or at the end),
      the regular expression gives one whitespace character back and the value is that character
      alone; with no whitespace to give back there is no match. */
  function ValueAfterColon(s: string, colon: nat): (r: Option<Span>)
    requires colon < |s| && s[colon] == ':'
    ensures r.Some? ==> colon < r.value.start < r.value.end <= |s|
    ensures r.Some? ==> forall j :: colon < j < r.value.start ==> IsSpace(s[j])
    ensures r.Some? ==> QuotedRaw(s[r.value.start..r.value.end]) || ',' !in s[r.value.start..r.value.end]
    ensures r.Some? && !IsSpace(s[r.value.start]) ==> ValueEnd(s, r.value.start) == Some(r.value.end)
    ensures r.Some? && IsSpace(s[r.value.start]) ==>
      r.value.end == r.value.start + 1 && (r.value.end == |s| || s[r.value.end] == ',')
    ensures r.None? <==> colon + 1 == |s| || s[colon + 1] == ','
  {
    var q := SkipSpaces(s, colon + 1);
    match ValueEnd(s, q)
    case Some(e) => Some(Span(q, e))
    case None => if q > colon + 1 then Some(Span(q - 1, q)) else None
  }

  /** A value group that is not a quoted value runs to the next comma or to the end of the text:
      `[^,]+` is greedy. */
  lemma {:induction false} ValueEndMaximal(s: string, q: nat)
    requires q <= |s| && ValueEnd(s, q).Some? && !QuotedRaw(s[q..ValueEnd(s, q).value])
    ensures ValueEnd(s, q).value == |s| || s[ValueEnd(s, q).value] == ','
  {
  }

  /** A quote that is closed on the same line makes a quoted value: the quoted alternatives come
      before `[^,]+`, and the lazy `.*?` stops at the first closing quote. */
  lemma {:induction false} ValueEndPrefersQuote(s: string, q: nat, k: nat)
    requires q < |s| && q < k < NextOf(s, q + 1, '\n') && (s[q] == '"' || s[q] == '\'') && s[k] == s[q]
    ensures ValueEnd(s, q).Some? && QuotedRaw(s[q..ValueEnd(s, q).value])
  {
    var c := QuoteClosedOnLine(s, q, k);
    ValueEndQuoted(s, q, c);
    QuotedSlice(s, q, c);
  }

  /** The value group of a quote closed at `c` ends just after it. */
  lemma {:induction false} ValueEndQuoted(s: string, q: nat, c: nat)
    requires q < |s| && IsQuote(s[q]) && ClosingQuote(s, q + 1, s[q]) == Some(c)
    ensures ValueEnd(s, q) == Some(c + 1)
  {
  }

  /** The lazy `.*?` after the opening quote at `q` stops at the first closing quote `c`, which
      comes no later than `k`, with neither the quote nor a newline in between. */
  lemma {:induction false} QuoteClosedOnLine(s: string, q: nat, k: nat) returns (c: nat)
    requires q < |s| && q < k < NextOf(s, q + 1, '\n') && s[q] != '\n' && s[k] == s[q]
    ensures ClosingQuote(s, q + 1, s[q]) == Some(c)
    ensures q < c <= k && s[c] == s[q]
    ensures forall j :: q < j < c ==> s[j] != s[q] && s[j] != '\n'
  {
    c := ClosingQuote(s, q + 1, s[q]).value;
  }

  /** The text from an opening quote to the first closing quote on the same line is a quoted value. */
  lemma {:induction false} QuotedSlice(s: string, q: nat, c: nat)
    requires q < c < |s| && (s[q] == '"' || s[q] == '\'') && s[c] == s[q]
    requires forall j :: q < j < c ==> s[j] != s[q] && s[j] != '\n'
    ensures QuotedRaw(s[q..c + 1])
  {
    var raw := s[q..c + 1];
    assert forall j :: 0 < j < |raw| - 1 ==> raw[j] == s[q + j];
  }

  /** One match: the text of the key group, the text of the value group, and where it ends. */
  datatype Match = Match(key: string, raw: string, end: nat)

  /** The match at `p` whose key group is the `w`-th key: `\s*`, a colon, then the value group as
      `ValueAfterColon` places it. */
  function MatchWith(s: string, p: nat, w: nat): (r: Option<Match>)
    requires w < |Keys| && p + |Keys[w]| <= |s|
    ensures r.Some? ==> p < r.value.end <= |s| && r.value.key == s[p..p + |Keys[w]|]
    ensures r.Some? ==> QuotedRaw(r.value.raw) || ',' !in r.value.raw
    ensures r.Some? ==> |r.value.raw| <= r.value.end
    ensures r.Some? ==> r.value.raw == s[r.value.end - |r.value.raw|..r.value.end]
    ensures r.Some? ==>
      var colon := SkipSpaces(s, p + |Keys[w]|);
      && colon < |s| && s[colon] == ':'
      && ValueAfterColon(s, colon) == Some(Span(r.value.end - |r.value.raw|, r.value.end))
  {
    var k := p + |Keys[w]|;
    var colon := SkipSpaces(s, k);
    if colon < |s| && s[colon] == ':' then
      match ValueAfterColon(s, colon)
      case Some(v) =>
        var raw := s[v.start..v.end];
        assert v == Span(v.end - |raw|, v.end);
        assert QuotedRaw(raw) || ',' !in raw;
        Some(Match(s[p..k], raw, v.end))
      case None => None
    else None
  }

  /** The match of the pattern that starts at `p`, if any: the one alternative of the key group
      that matches there, followed by what `MatchWith` finds after it. */
  function MatchAt(s: string, p: nat): (r: Option<Match>)
    requires p <= |s|
    ensures r.Some? ==> p < r.value.end <= |s|
    ensures r.Some? ==> KeyAt(s, p).Some? && r.value.key == s[p..p + |Keys[KeyAt(s, p).value]|]
    ensures r.Some? ==> QuotedRaw(r.value.raw) || ',' !in r.value.raw
    ensures r.Some? <==> KeyAt(s, p).Some? && MatchWith(s, p, KeyAt(s, p).value).Some?
    ensures r.Some? ==> r == MatchWith(s, p, KeyAt(s, p).value)
  {
    match KeyAt(s, p)
    case None => None
    case Some(w) => MatchWith(s, p, w)
  }

  /** `pattern.findall(t)`: the matches found scanning `t` left to right, each search resuming where
      the previous match ended (its `end` is counted from the start of the text it was found in).
      The pattern has no anchor and no look-behind, so whether it matches at a position depends
      only on the text from that position on; scanning the remaining suffix is therefore the same
      as scanning the whole text from that position. */
  function FindAll(t: string): (r: seq<Match>)
    decreases |t|
    ensures |r| <= |t|
  {
    if t == [] then []
    else
      match MatchAt(t, 0)
      case Some(m) => [m] + FindAll(t[m.end..])
      case None => FindAll(t[1..])
  }

  /** The key of a match lowers to one of the pattern's keys, or holds a long s. */
  lemma {:induction false} MatchedKeyName(s: string, p: nat)
    requires p <= |s| && MatchAt(s, p).Some?
    ensures KeyName(MatchAt(s, p).value) in Keys || LongS in KeyName(MatchAt(s, p).value)
  {
    var w := KeyAt(s, p).value;
    var key := MatchAt(s, p).value.key;
    assert key == s[p..p + |Keys[w]|];
    KeyNameOf(s, p, w);
    assert LowerAscii(key) == Keys[w] || LongS in LowerAscii(key);
  }

  /** Every match found has a recognised key, and a value that is either quoted or free of commas. */
  lemma {:induction false} FoundMatches(t: string)
    decreases |t|
    ensures forall i :: 0 <= i < |FindAll(t)| ==>
      (KeyName(FindAll(t)[i]) in Keys || LongS in KeyName(FindAll(t)[i])) &&
      (QuotedRaw(FindAll(t)[i].raw) || ',' !in FindAll(t)[i].raw)
  {
    if t != [] {
      match MatchAt(t, 0)
      case Some(m) =>
        MatchedKeyName(t, 0);
        FoundMatches(t[m.end..]);
        var found := FindAll(t);
        assert found == [m] + FindAll(t[m.end..]);
        forall i | 0 < i < |found| ensures found[i] == FindAll(t[m.end..])[i - 1] {
        }
      case None =>
        FoundMatches(t[1..]);
    }
  }

  // ---------------------------------------------------------------------------
  // From matches to the dictionary of pairs

  /** `raw_val.strip()`, then one pair of matching surrounding `"` or `'` removed (a lone quote,
      which both starts and ends the text, leaves the empty string). */
  function CleanValue(raw: string): (r: string)
    ensures |r| <= |raw|
    ensures var v := Strip(raw);
      r == v <==> !(v != [] && (v[0] == '"' || v[0] == '\'') && v[|v| - 1] == v[0])
    ensures var v := Strip(raw);
      r != v ==> (|v| == 1 && r == []) || (|v| >= 2 && r == v[1..|v| - 1])
  {
    var v := Strip(raw);
    if |v| >= 1 && ((v[0] == '"' && v[|v| - 1] == '"') || (v[0] == '\'' && v[|v| - 1] == '\'')) then
      if |v| >= 2 then v[1..|v| - 1] else ""
    else v
  }

  /** `key.lower()`: the matched key holds only ASCII letters and the long s, which `lower`
      leaves as it is. */
  function KeyName(m: Match): (r: string)
    ensures |r| == |m.key|
    ensures forall i :: 0 <= i < |r| ==> !('A' <= r[i] <= 'Z')
  {
    LowerAscii(m.key)
  }

  /** The dictionary after putting in the pairs of `found`, first to last, into `acc`. */
  function PairsFrom(found: seq<Match>, acc: map<string, string>): (r: map<string, string>)
    decreases |found|
  {
    if found == [] then acc
    else PairsFrom(found[1..], acc[KeyName(found[0]) := CleanValue(found[0].raw)])
  }

  /** The dictionary built from the matches, starting from an empty one. */
  function PairsOf(found: seq<Match>): (r: map<string, string>) {
    PairsFrom(found, map[])
  }

  /** No later match has the same key as match `i`. */
  predicate LastWithKey(found: seq<Match>, i: nat)
    requires i < |found|
  {
    forall j :: i < j < |found| ==> KeyName(found[j]) != KeyName(found[i])
  }

  /** Every key of the dictionary was already there or comes from some match. */
  lemma {:induction false} PairsFromKeysFound(found: seq<Match>, acc: map<string, string>)
    ensures forall k :: k in PairsFrom(found, acc) ==>
      k in acc || exists i :: 0 <= i < |found| && KeyName(found[i]) == k
    decreases |found|
  {
    if found != [] {
      var next := acc[KeyName(found[0]) := CleanValue(found[0].raw)];
      PairsFromKeysFound(found[1..], next);
      forall k | k in PairsFrom(found, acc) && k !in next
        ensures exists i :: 0 <= i < |found| && KeyName(found[i]) == k
      {
        var i :| 0 <= i < |found[1..]| && KeyName(found[1..][i]) == k;
        assert found[1..][i] == found[i + 1];
      }
    }
  }

  /** Keys already there stay, and the key of every match is put in. */
  lemma {:induction false} PairsFromHasFound(found: seq<Match>, acc: map<string, string>)
    ensures forall k :: k in acc ==> k in PairsFrom(found, acc)
    ensures forall i :: 0 <= i < |found| ==> KeyName(found[i]) in PairsFrom(found, acc)
    decreases |found|
  {
    if found != [] {
      var next := acc[KeyName(found[0]) := CleanValue(found[0].raw)];
      PairsFromHasFound(found[1..], next);
      forall i | 0 < i < |found| ensures KeyName(found[i]) in PairsFrom(found, acc) {
        assert found[i] == found[1..][i - 1];
      }
    }
  }

  /** A key that no match has keeps the value it had. */
  lemma {:induction false} PairsFromUntouched(found: seq<Match>, acc: map<string, string>, k: string)
    requires k in acc
    requires forall i :: 0 <= i < |found| ==> KeyName(found[i]) != k
    ensures k in PairsFrom(found, acc) && PairsFrom(found, acc)[k] == acc[k]
    decreases |found|
  {
    if found != [] {
      var next := acc[KeyName(found[0]) := CleanValue(found[0].raw)];
      assert forall i :: 0 <= i < |found[1..]| ==> found[1..][i] == found[i + 1];
      PairsFromUntouched(found[1..], next, k);
    }
  }

  /** Each key is mapped to the cleaned value of its last match: later pairs overwrite earlier ones. */
  lemma {:induction false} PairsFromLast(found: seq<Match>, acc: map<string, string>, i: nat)
    requires i < |found| && LastWithKey(found, i)
    ensures KeyName(found[i]) in PairsFrom(found, acc)
    ensures PairsFrom(found, acc)[KeyName(found[i])] == CleanValue(found[i].raw)
    decreases |found|
  {
    var next := acc[KeyName(found[0]) := CleanValue(found[0].raw)];
    if i == 0 {
      assert forall j :: 0 <= j < |found[1..]| ==> found[1..][j] == found[j + 1];
      PairsFromUntouched(found[1..], next, KeyName(found[0]));
    } else {
      assert found[1..][i - 1] == found[i];
      assert LastWithKey(found[1..], i - 1) by {
        forall j | i - 1 < j < |found[1..]| ensures KeyName(found[1..][j]) != KeyName(found[1..][i - 1]) {
          assert found[1..][j] == found[j + 1];
        }
      }
      PairsFromLast(found[1..], next, i - 1);
    }
  }

  /** The dictionary holds a key exactly when some match has that key. */
  lemma {:induction false} PairsOfKeys(found: seq<Match>)
    ensures forall k :: k in PairsOf(found) <==> exists i :: 0 <= i < |found| && KeyName(found[i]) == k
  {
    PairsFromKeysFound(found, map[]);
    PairsFromHasFound(found, map[]);
  }

  /** The loop of `init_from_command` over the matches: the keys of the dictionary are exactly the
      lowered keys found, and each holds the cleaned value of the last match with that key. */
  method CollectPairs(inner: string) returns (pairs: map<string, string>)
    ensures pairs == PairsOf(FindAll(inner))
    ensures forall k :: k in pairs <==> exists i :: 0 <= i < |FindAll(inner)| && KeyName(FindAll(inner)[i]) == k
    ensures forall i :: 0 <= i < |FindAll(inner)| && LastWithKey(FindAll(inner), i) ==>
      pairs[KeyName(FindAll(inner)[i])] == CleanValue(FindAll(inner)[i].raw)
  {
    var found := FindAll(inner);
    pairs := map[];
    assert found[0..] == found;
    for n := 0 to |found|
      invariant PairsFrom(found[n..], pairs) == PairsOf(found)
    {
      assert found[n..][1..] == found[n + 1..];
      pairs := pairs[KeyName(found[n]) := CleanValue(found[n].raw)];
    }
    assert found[|found|..] == [];
    PairsOfKeys(found);
    forall i | 0 <= i < |found| && LastWithKey(found, i)
      ensures pairs[KeyName(found[i])] == CleanValue(found[i].raw)
    {
      PairsFromLast(found, map[], i);
    }
  }

  /** Only the six keys of the pattern reach the dictionary, in lower case whatever case they were
      written in; a key spelt with a long s is stored under a name `init` never looks up. */
  lemma {:induction false} StoredKeys(inner: string)
    ensures forall k :: k in PairsOf(FindAll(inner)) ==> k in Keys || LongS in k
  {
    PairsFromKeysFound(FindAll(inner), map[]);
    FoundMatches(inner);
  }

  /** `pairs.get("port")` as the `port` argument of `init`. */
  function PortOf(port: Option<string>): (r: PortArg) {
    if port.Some? then PortText(port.value) else NoPort
  }

  /** `init_from_command`: `InvalidSyntax` for a command that starts with `init` but is no wrapper;
      otherwise `init` is run non-interactively on the pairs found, with a non-empty `env` value
      taking the place of `env_path`. */
  method InitFromCommand(command: string, envPath: Option<string>,
                         environ: map<string, string>, pluginDir: string)
    returns (r: Result<Saved, InitError>)
    ensures CommandInner(command).None? ==> r == Err(InvalidSyntax)
    ensures CommandInner(command).Some? ==>
      var pairs := PairsOf(FindAll(CommandInner(command).value));
      var usr, pwd := Get(pairs, "usr"), Get(pairs, "pwd");
      && (r.Err? <==> !Truthy(usr) || !Truthy(pwd))
      && (r.Err? ==> r.error == MissingCredentials)
      && (r.Ok? ==> r.value.path == EnvFilePath(if Truthy(Get(pairs, "env")) then Get(pairs, "env") else envPath, pluginDir))
      && (r.Ok? ==> r.value.content == EnvText(Entries(ResolveHost(Get(pairs, "host"), environ),
                                                       ResolvePort(PortOf(Get(pairs, "port")), environ),
                                                       usr.value, pwd.value, Get(pairs, "db"))))
  {
    var text := Strip(command);
    var inner: string;
    if StartsWithInit(text) {
      var m := WrapperInner(text);
      if m.None? {
        return Err(InvalidSyntax);
      }
      inner := m.value;
    } else {
      inner := text;
    }

    var pairs := CollectPairs(inner);

    var usr := Get(pairs, "usr");
    var pwd := Get(pairs, "pwd");
    var host := Get(pairs, "host");
    var port := Get(pairs, "port");
    var db := Get(pairs, "db");
    var env := Get(pairs, "env");
    var path := envPath;
    if Truthy(env) {
      path := env;
    }

    r := Init(usr, pwd, host, PortOf(port), db, path, environ, pluginDir);
  }

  // ---------------------------------------------------------------------------
  // Reading back a list of pairs written in the documented form

  /** One pair as a user writes it: the pattern's key `key` spelt `keyText` (in any ASCII case),
      a colon, and the value, either plain or between two `quote` characters. */
  datatype Pair = Pair(key: string, keyText: string, value: string, quote: Option<char>)

  /** A plain value is non-empty, holds no comma, and neither starts with a quote nor starts or ends
      with whitespace; a quoted value holds neither its quote character nor a newline. */
  predicate WellWritten(pr: Pair) {
    && pr.key in Keys && |pr.keyText| == |pr.key| && WordAt(pr.keyText, 0, pr.key)
    && LongS !in pr.keyText
    && match pr.quote
       case None =>
         pr.value != [] && ',' !in pr.value && pr.value[0] != '"' && pr.value[0] != '\'' &&
         !IsSpace(pr.value[0]) && !IsSpace(pr.value[|pr.value| - 1])
       case Some(c) => (c == '"' || c == '\'') && c !in pr.value && '\n' !in pr.value
  }

  predicate AllWellWritten(ps: seq<Pair>) {
    forall i :: 0 <= i < |ps| ==> WellWritten(ps[i])
  }

  function ValueText(pr: Pair): (r: string) {
    match pr.quote
    case None => pr.value
    case Some(c) => [c] + pr.value + [c]
  }

  function PairText(pr: Pair): (r: string) {
    pr.keyText + ":" + ValueText(pr)
  }

  /** The pairs written one after the other, separated by `, `. */
  function ListText(ps: seq<Pair>): (r: string) {
    if ps == [] then ""
    else if |ps| == 1 then PairText(ps[0])
    else PairText(ps[0]) + ", " + ListText(ps[1..])
  }

  /** The dictionary the pairs stand for, put in first to last into `acc`: each key with its value,
      later pairs overwriting earlier ones. */
  function PairDictFrom(ps: seq<Pair>, acc: map<string, string>): (r: map<string, string>)
    decreases |ps|
  {
    if ps == [] then acc else PairDictFrom(ps[1..], acc[ps[0].key := ps[0].value])
  }

  function PairDict(ps: seq<Pair>): (r: map<string, string>) {
    PairDictFrom(ps, map[])
  }

  /** The matches that a written list should give: each pair's key text and value text, the match
      ending just after the pair. */
  function Expected(ps: seq<Pair>): (r: seq<Match>)
    decreases |ps|
  {
    if ps == [] then []
    else [Match(ps[0].keyText, ValueText(ps[0]), |PairText(ps[0])|)] + Expected(ps[1..])
  }

  /** The two parts of a slice that holds a concatenation. */
  lemma {:induction false} SliceConcat(s: string, p: nat, a: string, b: string)
    requires p + |a| + |b| <= |s| && s[p..p + |a| + |b|] == a + b
    ensures s[p..p + |a|] == a && s[p + |a|..p + |a| + |b|] == b
  {
    assert s[p..p + |a|] == s[p..p + |a| + |b|][..|a|];
    assert s[p + |a|..p + |a| + |b|] == s[p..p + |a| + |b|][|a|..];
  }

  /** A key written in any ASCII case lowers to the pattern's key. */
  lemma {:induction false} KeyTextLowers(pr: Pair)
    requires WellWritten(pr)
    ensures LowerAscii(pr.keyText) == pr.key
  {
    var w :| 0 <= w < |Keys| && Keys[w] == pr.key;
    KeyNameOf(pr.keyText, 0, w);
    assert pr.keyText[0..|Keys[w]|] == pr.keyText;
    if LongS in LowerAscii(pr.keyText) {
      var j :| 0 <= j < |pr.keyText| && LowerAscii(pr.keyText)[j] == LongS;
      assert AsciiLower(pr.keyText[j]) == LongS;
    }
  }

  /** The key group matches a written key. */
  lemma {:induction false} KeyAtText(s: string, p: nat, pr: Pair)
    requires WellWritten(pr)
    requires p + |pr.keyText| <= |s| && s[p..p + |pr.keyText|] == pr.keyText
    ensures KeyAt(s, p).Some? && Keys[KeyAt(s, p).value] == pr.key
  {
    var w :| 0 <= w < |Keys| && Keys[w] == pr.key;
    assert WordAt(s, p, Keys[w]) by {
      forall i | 0 <= i < |pr.key| ensures MatchesIgnoreCase(s[p + i], Keys[w][i]) {
        assert s[p + i] == pr.keyText[i];
      }
    }
  }

  /** Cleaning a written value gives the value: a plain one is already stripped, a quoted one loses
      its quotes and keeps everything between them. */
  lemma {:induction false} CleanValueText(pr: Pair)
    requires WellWritten(pr)
    ensures CleanValue(ValueText(pr)) == pr.value
  {
    var v := ValueText(pr);
    StripKeepsEnds(v);
    if pr.quote.Some? {
      assert v[1..|v| - 1] == pr.value;
    }
  }

  lemma {:induction false} ValueTextStart(pr: Pair)
    requires WellWritten(pr)
    ensures ValueText(pr) != [] && !IsSpace(ValueText(pr)[0])
  {
  }

  /** The value group starting at `q` on a written value ends just after it, provided a comma or the
      end of the text follows. */
  lemma {:induction false} ValueEndText(s: string, q: nat, pr: Pair)
    requires WellWritten(pr)
    requires q + |ValueText(pr)| <= |s| && s[q..q + |ValueText(pr)|] == ValueText(pr)
    requires q + |ValueText(pr)| == |s| || s[q + |ValueText(pr)|] == ','
    ensures ValueEnd(s, q) == Some(q + |ValueText(pr)|)
  {
    var v := ValueText(pr);
    var e := q + |v|;
    assert forall k :: q <= k < e ==> s[k] == v[k - q];
    match pr.quote
    case None =>
      assert s[q] == pr.value[0];
      assert NextOf(s, q, ',') == e;
    case Some(c) =>
      assert s[q] == c && s[e - 1] == c;
      assert forall k :: q < k < e - 1 ==> s[k] == pr.value[k - q - 1];
      assert NextOf(s, q + 1, '\n') >= e - 1;
      assert ClosingQuote(s, q + 1, c) == Some(e - 1);
  }

  /** The value group right after the colon, when no whitespace comes between. */
  lemma {:induction false} ValueRightAfterColon(s: string, colon: nat, e: nat)
    requires colon + 1 < |s| && s[colon] == ':' && !IsSpace(s[colon + 1])
    requires ValueEnd(s, colon + 1) == Some(e)
    ensures ValueAfterColon(s, colon) == Some(Span(colon + 1, e))
  {
    assert SkipSpaces(s, colon + 1) == colon + 1;
  }

  /** The match at `p` once its key, colon and value group have been located. */
  lemma {:induction false} MatchAtParts(s: string, p: nat, w: nat, q: nat, e: nat)
    requires p <= |s| && KeyAt(s, p) == Some(w)
    requires p + |Keys[w]| < |s| && s[p + |Keys[w]|] == ':'
    requires q == p + |Keys[w]| + 1 && q < |s| && !IsSpace(s[q])
    requires ValueEnd(s, q) == Some(e)
    ensures MatchAt(s, p) == Some(Match(s[p..p + |Keys[w]|], s[q..e], e))
  {
    MatchWithParts(s, p, w, q, e);
  }

  /** The match with the `w`-th key at `p` once its colon and value group have been located. */
  lemma {:induction false} MatchWithParts(s: string, p: nat, w: nat, q: nat, e: nat)
    requires w < |Keys| && p + |Keys[w]| < |s| && s[p + |Keys[w]|] == ':'
    requires q == p + |Keys[w]| + 1 && q < |s| && !IsSpace(s[q])
    requires ValueEnd(s, q) == Some(e)
    ensures MatchWith(s, p, w) == Some(Match(s[p..p + |Keys[w]|], s[q..e], e))
  {
    var k := p + |Keys[w]|;
    assert SkipSpaces(s, k) == k;
    ValueRightAfterColon(s, k, e);
  }

  /** The pattern matches a written pair (key, colon, value) followed by a comma or the end of the
      text: the key group is the key as written, the value group the value as written, and the
      match ends just after it. */
  lemma {:induction false} PairMatch(s: string, p: nat, pr: Pair)
    requires WellWritten(pr)
    requires p + |PairText(pr)| <= |s|
    requires s[p..p + |pr.keyText|] == pr.keyText && s[p + |pr.keyText|] == ':'
    requires s[p + |pr.keyText| + 1..p + |PairText(pr)|] == ValueText(pr)
    requires p + |PairText(pr)| == |s| || s[p + |PairText(pr)|] == ','
    ensures MatchAt(s, p) == Some(Match(pr.keyText, ValueText(pr), p + |PairText(pr)|))
  {
    var n := |pr.keyText|;
    var v := ValueText(pr);
    var q := p + n + 1;
    var e := q + |v|;
    KeyAtText(s, p, pr);
    var w := KeyAt(s, p).value;
    ValueTextStart(pr);
    assert s[q] == v[0];
    ValueEndText(s, q, pr);
    MatchAtParts(s, p, w, q, e);
  }

  /** The pieces of a written pair inside a text. */
  lemma {:induction false} PairParts(s: string, p: nat, pr: Pair)
    requires p + |PairText(pr)| <= |s| && s[p..p + |PairText(pr)|] == PairText(pr)
    ensures s[p..p + |pr.keyText|] == pr.keyText && s[p + |pr.keyText|] == ':'
    ensures s[p + |pr.keyText| + 1..p + |PairText(pr)|] == ValueText(pr)
  {
    SliceConcat(s, p, pr.keyText + ":", ValueText(pr));
    SliceConcat(s, p, pr.keyText, ":");
  }

  /** A list of at least two pairs is the first pair, `, ` and the list of the others. */
  lemma {:induction false} ListTextCons(ps: seq<Pair>)
    requires |ps| >= 2
    ensures ListText(ps) == PairText(ps[0]) + ", " + ListText(ps[1..])
  {
  }

  /** No key of the pattern starts at a comma or at whitespace. */
  lemma {:induction false} NoKeyAt(s: string, p: nat)
    requires p < |s| && (s[p] == ',' || IsSpace(s[p]))
    ensures KeyAt(s, p).None?
  {
    KeyLetters();
    forall w | 0 <= w < |Keys| ensures !WordAt(s, p, Keys[w]) {
      assert 'a' <= Keys[w][0] <= 'z';
    }
  }

  /** No match starts at a comma or at whitespace. */
  lemma {:induction false} NoMatchAt(s: string, p: nat)
    requires p < |s| && (s[p] == ',' || IsSpace(s[p]))
    ensures MatchAt(s, p).None?
  {
    NoKeyAt(s, p);
  }

  /** `findall` passes over the separator `, ` without a match. */
  lemma {:induction false} FindAllOverSeparator(rest: string)
    ensures FindAll(", " + rest) == FindAll(rest)
  {
    var t := ", " + rest;
    NoMatchAt(t, 0);
    assert t[1..] == " " + rest;
    NoMatchAt(t[1..], 0);
    assert t[1..][1..] == rest;
  }

  /** A written pair at the start of a text, followed by a comma or the end, is matched there. */
  lemma {:induction false} PairMatchedAtStart(t: string, pr: Pair)
    requires WellWritten(pr)
    requires |PairText(pr)| <= |t| && t[..|PairText(pr)|] == PairText(pr)
    requires |PairText(pr)| == |t| || t[|PairText(pr)|] == ','
    ensures MatchAt(t, 0) == Some(Match(pr.keyText, ValueText(pr), |PairText(pr)|))
  {
    assert t[0..|PairText(pr)|] == PairText(pr);
    PairParts(t, 0, pr);
    PairMatch(t, 0, pr);
  }

  /** `findall` takes a known match at the start of the text and resumes at a known rest. */
  lemma {:induction false} FindAllStep(t: string, m: Match, u: string)
    requires t != [] && MatchAt(t, 0) == Some(m) && m.end <= |t| && t[m.end..] == u
    ensures FindAll(t) == [m] + FindAll(u)
  {
  }

  /** `findall` on a written pair followed by more text that starts with a comma. */
  lemma {:induction false} FindAllPairThenComma(pr: Pair, rest: string)
    requires WellWritten(pr) && rest != [] && rest[0] == ','
    ensures FindAll(PairText(pr) + rest) ==
      [Match(pr.keyText, ValueText(pr), |PairText(pr)|)] + FindAll(rest)
  {
    var t := PairText(pr) + rest;
    var e := |PairText(pr)|;
    assert t[..e] == PairText(pr) && t[e] == ',';
    PairMatchedAtStart(t, pr);
    assert t[e..] == rest;
    FindAllStep(t, Match(pr.keyText, ValueText(pr), e), rest);
  }

  /** `findall` on a written pair followed by `, ` and more text. */
  lemma {:induction false} FindAllPairThenSeparator(pr: Pair, rest: string)
    requires WellWritten(pr)
    ensures FindAll(PairText(pr) + ", " + rest) ==
      [Match(pr.keyText, ValueText(pr), |PairText(pr)|)] + FindAll(rest)
  {
    assert PairText(pr) + ", " + rest == PairText(pr) + (", " + rest);
    FindAllPairThenComma(pr, ", " + rest);
    FindAllOverSeparator(rest);
  }

  /** `findall` on a single written pair. */
  lemma {:induction false} FindAllLastPair(pr: Pair)
    requires WellWritten(pr)
    ensures FindAll(PairText(pr)) == [Match(pr.keyText, ValueText(pr), |PairText(pr)|)]
  {
    var t := PairText(pr);
    assert t[..|t|] == t;
    PairMatchedAtStart(t, pr);
    assert t[|t|..] == [];
    FindAllStep(t, Match(pr.keyText, ValueText(pr), |t|), []);
  }

  lemma {:induction false} AllWellWrittenTail(ps: seq<Pair>)
    requires ps != [] && AllWellWritten(ps)
    ensures WellWritten(ps[0]) && AllWellWritten(ps[1..])
  {
    forall i | 0 <= i < |ps| - 1 ensures WellWritten(ps[1..][i]) {
      assert ps[1..][i] == ps[i + 1];
    }
  }

  /** Scanning a written list of pairs finds exactly the expected matches, in order. */
  lemma {:induction false} ScanList(ps: seq<Pair>)
    requires AllWellWritten(ps)
    ensures FindAll(ListText(ps)) == Expected(ps)
    decreases |ps|
  {
    if ps != [] {
      AllWellWrittenTail(ps);
      if |ps| == 1 {
        FindAllLastPair(ps[0]);
      } else {
        ListTextCons(ps);
        FindAllPairThenSeparator(ps[0], ListText(ps[1..]));
        ScanList(ps[1..]);
      }
    }
  }

  /** Matches read one by one as the pairs, key by key and value by value, put in the dictionary
      what the pairs put in. */
  lemma {:induction false} FoldAgrees(found: seq<Match>, ps: seq<Pair>, acc: map<string, string>)
    requires |found| == |ps|
    requires forall i :: 0 <= i < |ps| ==> KeyName(found[i]) == ps[i].key && CleanValue(found[i].raw) == ps[i].value
    ensures PairsFrom(found, acc) == PairDictFrom(ps, acc)
    decreases |ps|
  {
    if ps != [] {
      assert forall i :: 0 <= i < |ps| - 1 ==> found[1..][i] == found[i + 1] && ps[1..][i] == ps[i + 1];
      FoldAgrees(found[1..], ps[1..], acc[ps[0].key := ps[0].value]);
    }
  }

  /** The expected matches hold, one for one, each pair's key text and value text. */
  lemma {:induction false} ExpectedShape(ps: seq<Pair>)
    ensures |Expected(ps)| == |ps|
    ensures forall i :: 0 <= i < |ps| ==> Expected(ps)[i].key == ps[i].keyText && Expected(ps)[i].raw == ValueText(ps[i])
    decreases |ps|
  {
    if ps != [] {
      ExpectedShape(ps[1..]);
      var rest := Expected(ps[1..]);
      assert Expected(ps) == [Match(ps[0].keyText, ValueText(ps[0]), |PairText(ps[0])|)] + rest;
      forall i | 1 <= i < |ps|
        ensures Expected(ps)[i].key == ps[i].keyText && Expected(ps)[i].raw == ValueText(ps[i])
      {
        assert Expected(ps)[i] == rest[i - 1] && ps[i] == ps[1..][i - 1];
      }
    }
  }

  /** A list of pairs written `key:value, key:value, ...` gives the dictionary of those pairs,
      whatever the case of the keys, with quoted values kept verbatim (commas and spaces included)
      and later pairs overwriting earlier ones. */
  lemma {:induction false} ListRead(ps: seq<Pair>)
    requires AllWellWritten(ps)
    ensures PairsOf(FindAll(ListText(ps))) == PairDict(ps)
  {
    ScanList(ps);
    var found := Expected(ps);
    ExpectedShape(ps);
    forall i | 0 <= i < |ps|
      ensures KeyName(found[i]) == ps[i].key && CleanValue(found[i].raw) == ps[i].value
    {
      KeyTextLowers(ps[i]);
      CleanValueText(ps[i]);
    }
    FoldAgrees(found, ps, map[]);
  }

  /** The keyword `init`, in any ASCII case, does not start with whitespace. */
  lemma {:induction false} KeywordStart(keyword: string)
    requires |keyword| == 4 && StartsWithInit(keyword)
    ensures !IsSpace(keyword[0])
  {
  }

  /** A command `init( ... )`, the keyword in any ASCII case, with any whitespace before and after
      the command and between the keyword and `(`, is accepted, and its pair list is the text between
      the parentheses, provided that holds no newline. */
  lemma {:induction false} WrapperAccepted(lead: string, keyword: string, ws: string, inner: string, trail: string)
    requires AllSpace(lead) && AllSpace(ws) && AllSpace(trail)
    requires |keyword| == 4 && StartsWithInit(keyword)
    requires '\n' !in inner
    ensures CommandInner(lead + keyword + ws + "(" + inner + ")" + trail) == Some(inner)
  {
    var text := WrapperText(lead, keyword, ws, inner, trail);
    var open := 4 + |ws|;
    assert text[open + 1..|text| - 1] == inner;
  }

  /** A wrapper whose parentheses enclose a newline is invalid syntax: `.` does not match it. */
  lemma {:induction false} NewlineInWrapperRejected(lead: string, keyword: string, ws: string, inner: string, trail: string)
    requires AllSpace(lead) && AllSpace(ws) && AllSpace(trail)
    requires |keyword| == 4 && StartsWithInit(keyword)
    requires '\n' in inner
    ensures CommandInner(lead + keyword + ws + "(" + inner + ")" + trail) == None
  {
    var text := WrapperText(lead, keyword, ws, inner, trail);
    var open := 4 + |ws|;
    assert text[open + 1..|text| - 1] == inner;
  }

  /** The stripped text of a wrapper, and where its parentheses are. */
  lemma {:induction false} WrapperText(lead: string, keyword: string, ws: string, inner: string, trail: string)
    returns (text: string)
    requires AllSpace(lead) && AllSpace(ws) && AllSpace(trail)
    requires |keyword| == 4 && StartsWithInit(keyword)
    ensures text == keyword + ws + "(" + inner + ")"
    ensures Strip(lead + keyword + ws + "(" + inner + ")" + trail) == text
    ensures StartsWithInit(text) && SkipSpaces(text, 4) == 4 + |ws| && text[4 + |ws|] == '('
    ensures |text| - 1 - TrailingSpaceCount(text) == |text| - 1 && text[|text| - 1] == ')'
  {
    text := keyword + ws + "(" + inner + ")";
    WrapperStrip(lead, keyword, ws, inner, trail, text);
    WrapperShape(keyword, ws, inner, text);
  }

  /** Stripping a padded wrapper leaves the wrapper. */
  lemma {:induction false} WrapperStrip(lead: string, keyword: string, ws: string, inner: string, trail: string,
                                        text: string)
    requires AllSpace(lead) && AllSpace(trail)
    requires |keyword| == 4 && StartsWithInit(keyword)
    requires text == keyword + ws + "(" + inner + ")"
    ensures Strip(lead + keyword + ws + "(" + inner + ")" + trail) == text
  {
    KeywordStart(keyword);
    assert text[0] == keyword[0] && text[|text| - 1] == ')';
    assert lead + keyword + ws + "(" + inner + ")" + trail == lead + text + trail;
    StripPadded(lead, text, trail);
  }

  /** Where the parentheses of a wrapper are. */
  lemma {:induction false} WrapperShape(keyword: string, ws: string, inner: string, text: string)
    requires AllSpace(ws)
    requires |keyword| == 4 && StartsWithInit(keyword)
    requires text == keyword + ws + "(" + inner + ")"
    ensures StartsWithInit(text) && SkipSpaces(text, 4) == 4 + |ws| && text[4 + |ws|] == '('
    ensures |text| - 1 - TrailingSpaceCount(text) == |text| - 1 && text[|text| - 1] == ')'
  {
    assert text[..4] == keyword;
    StartsWithKeyword(keyword, text);
    assert text[4..4 + |ws|] == ws && text[4 + |ws|] == '(';
    SkipSpacesOver(text, ws);
    assert text[|text| - 1] == ')';
  }

  /** A text that begins with the keyword starts with `init`. */
  lemma {:induction false} StartsWithKeyword(keyword: string, text: string)
    requires |keyword| == 4 && StartsWithInit(keyword)
    requires |text| >= 4 && text[..4] == keyword
    ensures StartsWithInit(text)
  {
    assert text[0] == keyword[0] && text[1] == keyword[1] && text[2] == keyword[2] && text[3] == keyword[3];
  }

  /** After four characters, `\s*` runs over the whitespace `ws` and stops at the character after it. */
  lemma {:induction false} SkipSpacesOver(text: string, ws: string)
    requires AllSpace(ws) && 4 + |ws| < |text| && text[4..4 + |ws|] == ws && !IsSpace(text[4 + |ws|])
    ensures SkipSpaces(text, 4) == 4 + |ws|
  {
    assert forall k :: 4 <= k < 4 + |ws| ==> text[k] == ws[k - 4];
  }

  /** A command that starts with `init` and, after any whitespace, continues with something other
      than `(`, such as `init usr:a, pwd:b` or `initx(...)`, is rejected as invalid syntax. */
  lemma {:induction false} InitWithoutParenthesisRejected(keyword: string, ws: string, rest: string)
    requires |keyword| == 4 && StartsWithInit(keyword) && AllSpace(ws)
    requires rest != [] && !IsSpace(rest[0]) && rest[0] != '('
    ensures CommandInner(keyword + ws + rest) == None
  {
    var command := keyword + ws + rest;
    var n := 4 + |ws|;
    KeywordStart(keyword);
    assert command[0] == keyword[0] && command[n] == rest[0];
    assert LeadingSpaceCount(command) == 0;
    var text := Strip(command);
    assert n < |text|;
    assert forall k :: 0 <= k <= n ==> text[k] == command[k];
    assert text[..4] == command[..4] == keyword;
    StartsWithKeyword(keyword, text);
    assert text[4..n] == command[4..n] == ws;
    SkipSpacesOver(text, ws);
  }

  /** A command that starts with `init` but whose last non-whitespace character is not `)` is
      rejected as invalid syntax. */
  lemma {:induction false} NoClosingParenthesisRejected(command: string)
    requires StartsWithInit(Strip(command))
    requires Strip(command)[|Strip(command)| - 1] != ')'
    ensures CommandInner(command) == None
  {
    var text := Strip(command);
    assert TrailingSpaceCount(text) == 0;
  }

  // ---------------------------------------------------------------------------
  // The example of the docstring of `init_from_command`

  /** The command of the example. */
  function ExampleCommand(): string {
    "init" + "(" + ExampleInner() + ")"
  }

  /** The text between its parentheses: `usr:john@gmail.com, pwd:1234, host:db, port:3307`. */
  function ExampleInner(): string {
    "usr:john@gmail.com" + ", " + ("pwd:1234" + ", " + ("host:db" + ", " + "port:3307"))
  }

  /** The settings it writes, one line each. */
  function ExampleSettings(): string {
    "MYSQL_HOST=db" + "\n" + ("MYSQL_PORT=3307" + "\n" + ("MYSQL_USER=john@gmail.com" + "\n" +
      ("MYSQL_PASSWORD=1234" + "\n" + "")))
  }

  /** The four pairs of the example, each key written in lower case and each value unquoted. */
  function ExamplePairs(): seq<Pair> {
    [Pair("usr", "usr", "john@gmail.com", None), Pair("pwd", "pwd", "1234", None),
     Pair("host", "host", "db", None), Pair("port", "port", "3307", None)]
  }

  /** The characters of the example's values: lower-case letters, digits, `@` and `.`. */
  predicate Tame(c: char) {
    'a' <= c <= 'z' || '0' <= c <= '9' || c == '@' || c == '.'
  }

  /** A value made of such characters is written as it stands, both in a command and in a settings file. */
  lemma {:induction false} TameValue(v: string)
    requires v != [] && forall i :: 0 <= i < |v| ==> Tame(v[i])
    ensures !NeedsQuotes(v) && ',' !in v
    ensures v[0] != '"' && v[0] != '\'' && !IsSpace(v[0]) && !IsSpace(v[|v| - 1])
  {
    assert Tame(v[0]) && Tame(v[|v| - 1]);
  }

  /** A key of the pattern written as it stands, with a plain value, is written in the documented form. */
  lemma {:induction false} PlainPairWritten(w: nat, v: string)
    requires w < |Keys|
    requires v != [] && ',' !in v && v[0] != '"' && v[0] != '\'' && !IsSpace(v[0]) && !IsSpace(v[|v| - 1])
    ensures WellWritten(Pair(Keys[w], Keys[w], v, None))
  {
    assert LongS !in Keys[w];
  }

  /** The example's values are written as they stand. */
  lemma ExampleValuesTame()
    ensures forall i :: 0 <= i < |"john@gmail.com"| ==> Tame("john@gmail.com"[i])
    ensures forall i :: 0 <= i < |"1234"| ==> Tame("1234"[i])
    ensures forall i :: 0 <= i < |"db"| ==> Tame("db"[i])
    ensures forall i :: 0 <= i < |"3307"| ==> Tame("3307"[i])
  {
  }

  lemma ExamplePairsWritten()
    ensures AllWellWritten(ExamplePairs())
  {
    var ps := ExamplePairs();
    ExampleValuesTame();
    TameValue("john@gmail.com");
    TameValue("1234");
    TameValue("db");
    TameValue("3307");
    PlainPairWritten(0, "john@gmail.com");
    PlainPairWritten(1, "1234");
    PlainPairWritten(2, "db");
    PlainPairWritten(3, "3307");
    assert ps == [Pair(Keys[0], Keys[0], "john@gmail.com", None), Pair(Keys[1], Keys[1], "1234", None),
                  Pair(Keys[2], Keys[2], "db", None), Pair(Keys[3], Keys[3], "3307", None)];
  }

  /** Four pairs written as a list. */
  lemma {:induction false} FourPairsText(a: Pair, b: Pair, c: Pair, d: Pair)
    ensures ListText([a, b, c, d]) == PairText(a) + ", " + (PairText(b) + ", " + (PairText(c) + ", " + PairText(d)))
  {
    assert ListText([d]) == PairText(d);
    assert [c, d][1..] == [d];
    assert ListText([c, d]) == PairText(c) + ", " + PairText(d);
    assert [b, c, d][1..] == [c, d];
    assert ListText([b, c, d]) == PairText(b) + ", " + (PairText(c) + ", " + PairText(d));
    assert [a, b, c, d][1..] == [b, c, d];
  }

  /** The dictionary four pairs stand for. */
  lemma {:induction false} FourPairsDict(a: Pair, b: Pair, c: Pair, d: Pair)
    ensures PairDict([a, b, c, d]) == map[a.key := a.value][b.key := b.value][c.key := c.value][d.key := d.value]
  {
    var m1 := map[][a.key := a.value];
    var m2 := m1[b.key := b.value];
    var m3 := m2[c.key := c.value];
    assert PairDictFrom([d], m3) == m3[d.key := d.value] by { assert [d][1..] == []; }
    assert PairDictFrom([c, d], m2) == PairDictFrom([d], m3) by { assert [c, d][1..] == [d]; }
    assert PairDictFrom([b, c, d], m1) == PairDictFrom([c, d], m2) by { assert [b, c, d][1..] == [c, d]; }
    assert PairDictFrom([a, b, c, d], map[]) == PairDictFrom([b, c, d], m1) by { assert [a, b, c, d][1..] == [b, c, d]; }
    assert m1 == map[a.key := a.value];
  }

  lemma ExampleListText()
    ensures ListText(ExamplePairs()) == ExampleInner()
  {
    var ps := ExamplePairs();
    FourPairsText(ps[0], ps[1], ps[2], ps[3]);
    assert ps == [ps[0], ps[1], ps[2], ps[3]];
    assert PairText(ps[0]) == "usr:john@gmail.com" && PairText(ps[1]) == "pwd:1234";
    assert PairText(ps[2]) == "host:db" && PairText(ps[3]) == "port:3307";
  }

  /** The example's list is on one line. */
  lemma {:induction false} ExampleOneLine(inner: string)
    requires inner == ExampleInner()
    ensures '\n' !in inner
  {
    assert '\n' !in "usr:john@gmail.com" && '\n' !in "pwd:1234" && '\n' !in "host:db" && '\n' !in "port:3307";
  }

  /** `init(...)` around a text on one line is accepted, and the text is what is read. */
  lemma {:induction false} InitWrapperAccepted(inner: string)
    requires '\n' !in inner
    ensures CommandInner("init" + "(" + inner + ")") == Some(inner)
  {
    assert StartsWithInit("init") by { assert LowerAscii("init") == "init"; }
    WrapperAccepted("", "init", "", inner, "");
    assert "" + "init" + "" == "init";
    assert "" + "init" + "" + "(" + inner + ")" == "init" + "(" + inner + ")";
    assert "" + "init" + "" + "(" + inner + ")" + "" == "init" + "(" + inner + ")";
  }

  /** The example's command is a wrapper around its list. */
  lemma {:induction false} ExampleWrapper(command: string, inner: string)
    requires command == ExampleCommand() && inner == ExampleInner()
    ensures CommandInner(command) == Some(inner)
  {
    ExampleOneLine(inner);
    InitWrapperAccepted(inner);
  }

  /** The example of the docstring of `init_from_command`: the wrapper is accepted and its four pairs
      are read as written. */
  lemma {:induction false} DocstringPairs(command: string, inner: string)
    requires command == ExampleCommand() && inner == ExampleInner()
    ensures CommandInner(command) == Some(inner)
    ensures PairsOf(FindAll(inner)) ==
      map["usr" := "john@gmail.com", "pwd" := "1234", "host" := "db", "port" := "3307"]
  {
    ExampleWrapper(command, inner);
    var ps := ExamplePairs();
    ExamplePairsWritten();
    ExampleListText();
    ListRead(ps);
    FourPairsDict(ps[0], ps[1], ps[2], ps[3]);
    assert ps == [ps[0], ps[1], ps[2], ps[3]];
  }

  /** A value without special characters is written as it stands. */
  lemma {:induction false} PlainLine(key: string, v: string)
    requires !NeedsQuotes(v)
    ensures EnvLine(Entry(key, v)) == key + "=" + v
  {
    QuoteUnchangedIff(v);
  }

  /** Four lines, each with its newline. */
  lemma {:induction false} FourLines(a: string, b: string, c: string, d: string)
    ensures Terminated([a, b, c, d]) == a + "\n" + (b + "\n" + (c + "\n" + (d + "\n" + "")))
  {
    assert Terminated([d]) == d + "\n" + Terminated([]) by { assert [d][1..] == []; }
    assert Terminated([c, d]) == c + "\n" + Terminated([d]) by { assert [c, d][1..] == [d]; }
    assert Terminated([b, c, d]) == b + "\n" + Terminated([c, d]) by { assert [b, c, d][1..] == [c, d]; }
    assert Terminated([a, b, c, d]) == a + "\n" + Terminated([b, c, d]) by { assert [a, b, c, d][1..] == [b, c, d]; }
  }

  lemma ExampleValuesPlain()
    ensures !NeedsQuotes("db") && !NeedsQuotes("3307") && !NeedsQuotes("john@gmail.com") && !NeedsQuotes("1234")
  {
    ExampleValuesTame();
    TameValue("john@gmail.com");
    TameValue("1234");
    TameValue("db");
    TameValue("3307");
  }

  /** The settings text of the docstring's example: every value is free of special characters, so
      none is quoted. */
  lemma ExampleSettingsText()
    ensures EnvText(Entries("db", "3307", "john@gmail.com", "1234", None)) == ExampleSettings()
  {
    var l1, l2, l3, l4 := "MYSQL_HOST=db", "MYSQL_PORT=3307", "MYSQL_USER=john@gmail.com", "MYSQL_PASSWORD=1234";
    ExampleServerLines();
    ExampleUserLines();
    EnvLinesOfEntries("db", "3307", "john@gmail.com", "1234", None);
    assert EnvLines(Entries("db", "3307", "john@gmail.com", "1234", None)) == [l1, l2, l3, l4];
    FourLines(l1, l2, l3, l4);
  }

  /** Each setting of the example on its line, unquoted: host and port. */
  lemma ExampleServerLines()
    ensures EnvLine(Entry("MYSQL_HOST", "db")) == "MYSQL_HOST=db"
    ensures EnvLine(Entry("MYSQL_PORT", "3307")) == "MYSQL_PORT=3307"
  {
    ExampleValuesPlain();
    PlainLine("MYSQL_HOST", "db");
    PlainLine("MYSQL_PORT", "3307");
  }

  /** User and password. */
  lemma ExampleUserLines()
    ensures EnvLine(Entry("MYSQL_USER", "john@gmail.com")) == "MYSQL_USER=john@gmail.com"
    ensures EnvLine(Entry("MYSQL_PASSWORD", "1234")) == "MYSQL_PASSWORD=1234"
  {
    ExampleValuesPlain();
    PlainLine("MYSQL_USER", "john@gmail.com");
    PlainLine("MYSQL_PASSWORD", "1234");
  }

  /** Host and port of the example are used as written, whatever the environment holds. */
  lemma {:induction false} ExampleHostPort(environ: map<string, string>)
    ensures ResolveHost(Some("db"), environ) == "db"
    ensures ResolvePort(PortOf(Some("3307")), environ) == "3307"
  {
    StripKeepsEnds("db");
    StripKeepsEnds("3307");
  }

  /** The values the example's command gives each key. */
  lemma {:induction false} ExampleValues(command: string)
    requires command == ExampleCommand()
    ensures CommandInner(command).Some?
    ensures var pairs := PairsOf(FindAll(CommandInner(command).value));
      && Get(pairs, "usr") == Some("john@gmail.com") && Get(pairs, "pwd") == Some("1234")
      && Get(pairs, "host") == Some("db") && Get(pairs, "port") == Some("3307")
      && Get(pairs, "db") == None && Get(pairs, "env") == None
  {
    var inner := ExampleInner();
    DocstringPairs(command, inner);
    ExampleMapValues(PairsOf(FindAll(inner)));
  }

  /** The values of the example's dictionary. */
  lemma {:induction false} ExampleMapValues(pairs: map<string, string>)
    requires pairs == map["usr" := "john@gmail.com", "pwd" := "1234", "host" := "db", "port" := "3307"]
    ensures Get(pairs, "usr") == Some("john@gmail.com") && Get(pairs, "pwd") == Some("1234")
    ensures Get(pairs, "host") == Some("db") && Get(pairs, "port") == Some("3307")
    ensures Get(pairs, "db") == None && Get(pairs, "env") == None
  {
  }

  /** What `init_from_command` is given for the example: user and password as written, host and port
      as written whatever the environment holds, no database and no `env` value. */
  lemma {:induction false} ExampleSettingsFound(command: string, environ: map<string, string>)
    requires command == ExampleCommand()
    ensures CommandInner(command).Some?
    ensures var pairs := PairsOf(FindAll(CommandInner(command).value));
      && Get(pairs, "usr") == Some("john@gmail.com") && Get(pairs, "pwd") == Some("1234")
      && !Truthy(Get(pairs, "env"))
      && EnvText(Entries(ResolveHost(Get(pairs, "host"), environ), ResolvePort(PortOf(Get(pairs, "port")), environ),
                         "john@gmail.com", "1234", Get(pairs, "db"))) == ExampleSettings()
  {
    ExampleValues(command);
    ExampleHostPort(environ);
    ExampleSettingsText();
  }

  /** Running `init_from_command` on the docstring's example writes the four settings, unquoted, to
      `.env` beside the plugin. */
  method DocstringExample(command: string, environ: map<string, string>, pluginDir: string)
    returns (r: Result<Saved, InitError>)
    requires command == ExampleCommand()
    ensures r == Ok(Saved(pluginDir + "/.env", ExampleSettings()))
  {
    ExampleSettingsFound(command, environ);
    r := InitFromCommand(command, None, environ, pluginDir);
  }
}
