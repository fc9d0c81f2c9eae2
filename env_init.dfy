/**
 * The non-interactive path of `init`: host and port resolved against their
 * defaults, `usr` and `pwd` validated, and the `.env` text assembled.  A small
 * reader of that text (`ParseEnv`) is the partner that shows the settings
 * can be read back.
 */
module EnvInit {
  import opened Wrappers
  import opened PyStr
  import opened EnvQuote

  /** The `port` argument of `init`: absent, a string, or a Python `int`. */
  datatype PortArg = NoPort | PortText(text: string) | PortNumber(n: int)

  /** The two `ValueError`s of the initializer. */
  datatype InitError =
    | MissingCredentials   // "usr and pwd are required in non_interactive mode"
    | InvalidSyntax        // "Invalid init command syntax"

  /** What `init` leaves behind: the file it wrote (and returns) and the text written to it. */
  datatype Saved = Saved(path: string, content: string)

  /** One `KEY=VALUE` setting. */
  datatype Entry = Entry(key: string, value: string)

  /** `os.environ.get("MYSQL_HOST", "localhost")`. */
  function DefaultHost(environ: map<string, string>): (r: string) {
    if "MYSQL_HOST" in environ then environ["MYSQL_HOST"] else "localhost"
  }

  /** `os.environ.get("MYSQL_PORT", "3306")`. */
  function DefaultPort(environ: map<string, string>): (r: string) {
    if "MYSQL_PORT" in environ then environ["MYSQL_PORT"] else "3306"
  }

  /** The file written: `env_path` when it is a non-empty string, otherwise `.env` beside the plugin. */
  function EnvFilePath(envPath: Option<string>, pluginDir: string): (r: string)
    ensures Truthy(envPath) ==> r == envPath.value
    ensures !Truthy(envPath) ==> r == pluginDir + "/.env"
  {
    if Truthy(envPath) then envPath.value else pluginDir + "/.env"
  }

  /** The host written: the stripped argument when it holds anything but whitespace, else the default. */
  function ResolveHost(host: Option<string>, environ: map<string, string>): (r: string)
    ensures host.Some? && !AllSpace(host.value) ==> r == Strip(host.value) && r != ""
    ensures host.None? || AllSpace(host.value) ==> r == DefaultHost(environ)
  {
    var stripped := Strip(if host.Some? then host.value else "");
    if stripped != "" then stripped else DefaultHost(environ)
  }

  /** `str(port)` for a port that is present. */
  function PortString(port: PortArg): (r: string)
    requires !port.NoPort?
  {
    match port
    case PortText(t) => t
    case PortNumber(n) => IntToStr(n)
  }

  lemma {:induction false} StripNoSpace(s: string)
    requires forall i :: 0 <= i < |s| ==> !IsSpace(s[i])
    ensures Strip(s) == s
  {
    assert LeadingSpaceCount(s) == 0;
  }

  /** The port written: the default only when no port is given; a given string is stripped
      (so an all-blank one stays empty), and an integer is written in decimal. */
  function ResolvePort(port: PortArg, environ: map<string, string>): (r: string)
    ensures port.NoPort? ==> r == DefaultPort(environ)
    ensures port.PortText? ==> r == Strip(port.text)
    ensures port.PortNumber? ==> r == IntToStr(port.n)
  {
    match port
    case NoPort => DefaultPort(environ)
    case PortText(t) => Strip(PortString(port))
    case PortNumber(n) =>
      StripNoSpace(IntToStr(n));
      Strip(PortString(port))
  }

  /** The settings in file order: host, port, user, password, then the database only when it is
      non-empty (`EntriesKeys` states their number and keys). */
  function Entries(host: string, port: string, usr: string, pwd: string, db: Option<string>): (r: seq<Entry>)
  {
    [Entry("MYSQL_HOST", host), Entry("MYSQL_PORT", port), Entry("MYSQL_USER", usr), Entry("MYSQL_PASSWORD", pwd)]
    + (if Truthy(db) then [Entry("MYSQL_DB", db.value)] else [])
  }

  /** `f"{key}={_quote_env_value(value)}"`. */
  function EnvLine(e: Entry): (r: string) {
    e.key + "=" + QuoteEnvValue(Some(e.value))
  }

  /** A setting's line is its key, `=`, then a text that decodes to its value. */
  lemma {:induction false} EnvLineDecodes(e: Entry)
    ensures var line := EnvLine(e);
      |e.key| < |line| && line[..|e.key|] == e.key && line[|e.key|] == '=' &&
      DecodeValue(line[|e.key| + 1..]) == e.value
  {
    var line := EnvLine(e);
    QuoteRoundTrip(e.value);
    assert line[..|e.key|] == e.key && line[|e.key| + 1..] == QuoteEnvValue(Some(e.value));
  }

  function EnvLines(es: seq<Entry>): (r: seq<string>)
  {
    seq(|es|, i requires 0 <= i < |es| => EnvLine(es[i]))
  }

  /** The `.env` text of a list of settings: one `KEY=VALUE` line each, every line ending in a newline. */
  function EnvText(es: seq<Entry>): (r: string) {
    Terminated(EnvLines(es))
  }

  lemma {:induction false} EnvLinesOfEntries(host: string, port: string, usr: string, pwd: string, db: Option<string>)
    ensures EnvLines(Entries(host, port, usr, pwd, db)) ==
      [EnvLine(Entry("MYSQL_HOST", host)), EnvLine(Entry("MYSQL_PORT", port)),
       EnvLine(Entry("MYSQL_USER", usr)), EnvLine(Entry("MYSQL_PASSWORD", pwd))]
      + (if Truthy(db) then [EnvLine(Entry("MYSQL_DB", db.value))] else [])
  {
    var es := Entries(host, port, usr, pwd, db);
    assert |EnvLines(es)| == |es|;
    assert forall i :: 0 <= i < |es| ==> EnvLines(es)[i] == EnvLine(es[i]);
  }

  /** Four settings, or five with a database; each key occurs once, and no key holds `=` or a newline,
      so every line of the file is told apart by its key. */
  lemma {:induction false} EntriesKeys(host: string, port: string, usr: string, pwd: string, db: Option<string>)
    ensures var es := Entries(host, port, usr, pwd, db);
      && |es| == (if Truthy(db) then 5 else 4)
      && (forall i, j :: 0 <= i < j < |es| ==> es[i].key != es[j].key)
      && (forall i :: 0 <= i < |es| ==> '=' !in es[i].key && '\n' !in es[i].key)
  {
    var es := Entries(host, port, usr, pwd, db);
    var keys := ["MYSQL_HOST", "MYSQL_PORT", "MYSQL_USER", "MYSQL_PASSWORD", "MYSQL_DB"];
    assert forall i :: 0 <= i < |es| ==> es[i].key == keys[i];
    KeysDistinct();
    KeysWritable();
    assert forall i :: 0 <= i < |es| ==> es[i].key in keys;
  }

  /** The keys are upper-case names, so none holds `=` or a newline. */
  lemma KeysWritable()
    ensures forall k :: k in ["MYSQL_HOST", "MYSQL_PORT", "MYSQL_USER", "MYSQL_PASSWORD", "MYSQL_DB"] ==>
      '=' !in k && '\n' !in k
  {
    var keys := ["MYSQL_HOST", "MYSQL_PORT", "MYSQL_USER", "MYSQL_PASSWORD", "MYSQL_DB"];
    forall i | 0 <= i < |keys| ensures '=' !in keys[i] && '\n' !in keys[i] {
      assert forall k :: 0 <= k < |keys[i]| ==> 'A' <= keys[i][k] <= 'Z' || keys[i][k] == '_';
    }
  }

  /** Non-interactive `init`: fails with `MissingCredentials` when `usr` or `pwd` is absent or
      empty; otherwise yields the file path and exactly the settings text of the resolved values. */
  method Init(usr: Option<string>, pwd: Option<string>, host: Option<string>, port: PortArg,
              db: Option<string>, envPath: Option<string>,
              environ: map<string, string>, pluginDir: string)
    returns (r: Result<Saved, InitError>)
    ensures r.Err? <==> !Truthy(usr) || !Truthy(pwd)
    ensures r.Err? ==> r.error == MissingCredentials
    ensures r.Ok? ==> r.value.path == EnvFilePath(envPath, pluginDir)
    ensures r.Ok? ==> (r.value.content ==
      EnvText(Entries(ResolveHost(host, environ), ResolvePort(port, environ), usr.value, pwd.value, db)))
  {
    var envFile := if Truthy(envPath) then envPath.value else pluginDir + "/.env";
    var defaultHost := DefaultHost(environ);
    var defaultPort := DefaultPort(environ);

    var h := Strip(if host.Some? then host.value else "");
    if h == "" {
      h := defaultHost;
    }
    var p: string;
    if port.NoPort? {
      p := defaultPort;
    } else {
      p := Strip(PortString(port));
    }
    assert h == ResolveHost(host, environ) && p == ResolvePort(port, environ);

    if !Truthy(usr) || !Truthy(pwd) {
      return Err(MissingCredentials);
    }

    var lines := [
      EnvLine(Entry("MYSQL_HOST", h)),
      EnvLine(Entry("MYSQL_PORT", p)),
      EnvLine(Entry("MYSQL_USER", usr.value)),
      EnvLine(Entry("MYSQL_PASSWORD", pwd.value))
    ];
    if Truthy(db) {
      lines := lines + [EnvLine(Entry("MYSQL_DB", db.value))];
    }

    var content := JoinLines(lines) + "\n";
    assert content == EnvText(Entries(h, p, usr.value, pwd.value, db)) by {
      EnvLinesOfEntries(h, p, usr.value, pwd.value, db);
      assert lines == EnvLines(Entries(h, p, usr.value, pwd.value, db));
      JoinThenNewline(lines);
    }
    r := Ok(Saved(envFile, content));
  }

  // ---------------------------------------------------------------------------
  // Reading the file back

  /** Index of the first `c` in `s`, or `|s|` when there is none. */
  function FirstIndex(s: string, c: char): (i: nat)
    ensures i <= |s|
    ensures i < |s| ==> s[i] == c
    ensures c !in s[..i]
  {
    if s == [] || s[0] == c then 0 else 1 + FirstIndex(s[1..], c)
  }

  /** One line of the file: the text before the first `=` is the key, the decoded rest its value;
      a line without `=` holds no setting. */
  function ParseLine(line: string): (r: Option<Entry>) {
    var i := FirstIndex(line, '=');
    if i < |line| then Some(Entry(line[..i], DecodeValue(line[i + 1..]))) else None
  }

  lemma {:induction false} FirstIndexAt(s: string, c: char, k: nat)
    requires k < |s| && s[k] == c && c !in s[..k]
    ensures FirstIndex(s, c) == k
  {
  }

  /** `acc` with the setting of `line`, if it holds one, put in. */
  function AddLine(acc: map<string, string>, line: string): (r: map<string, string>) {
    match ParseLine(line)
    case Some(e) => acc[e.key := e.value]
    case None => acc
  }

  /** Reads `text` line by line into `acc`, a later line overriding an earlier one with the same key. */
  function ReadLines(text: string, acc: map<string, string>): (r: map<string, string>)
    decreases |text|
  {
    if text == [] then acc
    else
      var i := FirstIndex(text, '\n');
      var next := AddLine(acc, text[..i]);
      if i < |text| then ReadLines(text[i + 1..], next) else next
  }

  /** A reader of the `.env` text. */
  function ParseEnv(text: string): (r: map<string, string>) {
    ReadLines(text, map[])
  }

  /** `acc` with the settings `es` put in one after the other. */
  function Apply(es: seq<Entry>, acc: map<string, string>): (r: map<string, string>) {
    if es == [] then acc else Apply(es[1..], acc[es[0].key := es[0].value])
  }

  predicate Writable(e: Entry) {
    '=' !in e.key && '\n' !in e.key && '\n' !in e.value
  }

  lemma {:induction false} ParseOneLine(e: Entry)
    requires Writable(e)
    ensures '\n' !in EnvLine(e)
    ensures ParseLine(EnvLine(e)) == Some(e)
  {
    var line := EnvLine(e);
    QuoteKeepsNewlines(e.value);
    QuoteRoundTrip(e.value);
    assert line[..|e.key|] == e.key;
    assert line[|e.key|] == '=';
    FirstIndexAt(line, '=', |e.key|);
    assert line[|e.key| + 1..] == QuoteEnvValue(Some(e.value));
  }

  lemma {:induction false} EnvTextCons(es: seq<Entry>)
    requires es != []
    ensures EnvText(es) == EnvLine(es[0]) + "\n" + EnvText(es[1..])
  {
    EnvLinesCons(es);
    TerminatedCons(EnvLines(es));
  }

  /** The lines of a non-empty list are its first setting's line, then the lines of the rest. */
  lemma {:induction false} EnvLinesCons(es: seq<Entry>)
    requires es != []
    ensures EnvLines(es)[0] == EnvLine(es[0]) && EnvLines(es)[1..] == EnvLines(es[1..])
  {
    var lines, tail := EnvLines(es), EnvLines(es[1..]);
    assert |lines[1..]| == |tail|;
    forall i | 0 <= i < |tail| ensures lines[1..][i] == tail[i] {
      assert tail[i] == EnvLine(es[1..][i]);
    }
  }

  /** The reader takes a text apart at its first newline. */
  lemma {:induction false} ReadLinesStep(line: string, rest: string, acc: map<string, string>)
    requires '\n' !in line
    ensures ReadLines(line + "\n" + rest, acc) == ReadLines(rest, AddLine(acc, line))
  {
    var text := line + "\n" + rest;
    assert text[..|line|] == line;
    FirstIndexAt(text, '\n', |line|);
    assert text[|line| + 1..] == rest;
  }

  /** Reading the written text puts in every setting that was written, in order. */
  lemma {:induction false} ReadEnvText(es: seq<Entry>, acc: map<string, string>)
    requires forall i :: 0 <= i < |es| ==> Writable(es[i])
    ensures ReadLines(EnvText(es), acc) == Apply(es, acc)
  {
    if es != [] {
      var line := EnvLine(es[0]);
      ParseOneLine(es[0]);
      EnvTextCons(es);
      ReadLinesStep(line, EnvText(es[1..]), acc);
      ReadEnvText(es[1..], acc[es[0].key := es[0].value]);
    }
  }

  lemma KeysDistinct()
    ensures "MYSQL_HOST" != "MYSQL_PORT" && "MYSQL_HOST" != "MYSQL_USER" && "MYSQL_HOST" != "MYSQL_PASSWORD"
    ensures "MYSQL_PORT" != "MYSQL_USER" && "MYSQL_PORT" != "MYSQL_PASSWORD" && "MYSQL_USER" != "MYSQL_PASSWORD"
    ensures "MYSQL_DB" != "MYSQL_HOST" && "MYSQL_DB" != "MYSQL_PORT" && "MYSQL_DB" != "MYSQL_USER" && "MYSQL_DB" != "MYSQL_PASSWORD"
  {
    assert "MYSQL_HOST"[6] == 'H' && "MYSQL_PORT"[6] == 'P' && "MYSQL_USER"[6] == 'U';
    assert "MYSQL_PASSWORD"[7] == 'A' && "MYSQL_PORT"[7] == 'O';
  }

  /** Reading back four or five written settings, for any keys that can be written. */
  lemma {:induction false} ReadBackSettings(keys: seq<string>, host: string, port: string, usr: string, pwd: string, db: Option<string>)
    requires |keys| == 5
    requires forall i :: 0 <= i < 5 ==> '\n' !in keys[i] && '=' !in keys[i]
    requires '\n' !in host && '\n' !in port && '\n' !in usr && '\n' !in pwd
    requires db.Some? ==> '\n' !in db.value
    ensures var es := [Entry(keys[0], host), Entry(keys[1], port), Entry(keys[2], usr), Entry(keys[3], pwd)]
                      + (if Truthy(db) then [Entry(keys[4], db.value)] else []);
      var m4 := map[keys[0] := host][keys[1] := port][keys[2] := usr][keys[3] := pwd];
      ParseEnv(EnvText(es)) == if Truthy(db) then m4[keys[4] := db.value] else m4
  {
    var es := [Entry(keys[0], host), Entry(keys[1], port), Entry(keys[2], usr), Entry(keys[3], pwd)]
              + (if Truthy(db) then [Entry(keys[4], db.value)] else []);
    ReadEnvText(es, map[]);
    var m1 := map[keys[0] := host];
    var m2 := m1[keys[1] := port];
    var m3 := m2[keys[2] := usr];
    var m4 := m3[keys[3] := pwd];
    assert Apply(es, map[]) == Apply(es[1..], m1);
    assert Apply(es[1..], m1) == Apply(es[2..], m2) by { assert es[1..][1..] == es[2..]; }
    assert Apply(es[2..], m2) == Apply(es[3..], m3) by { assert es[2..][1..] == es[3..]; }
    assert Apply(es[3..], m3) == Apply(es[4..], m4) by { assert es[3..][1..] == es[4..]; }
    if Truthy(db) {
      assert Apply(es[4..], m4) == Apply(es[5..], m4[keys[4] := db.value]) by { assert es[4..][1..] == es[5..]; }
    }
  }

  /** Every value `init` writes can be read back from the file: host, port, user and password,
      and the database exactly when a non-empty one was given.  This holds for values without a
      newline; the source does not quote or escape a newline. */
  lemma {:induction false} SettingsReadBack(host: string, port: string, usr: string, pwd: string, db: Option<string>)
    requires '\n' !in host && '\n' !in port && '\n' !in usr && '\n' !in pwd
    requires db.Some? ==> '\n' !in db.value
    ensures ParseEnv(EnvText(Entries(host, port, usr, pwd, db))) ==
      var written := map["MYSQL_HOST" := host]["MYSQL_PORT" := port]["MYSQL_USER" := usr]["MYSQL_PASSWORD" := pwd];
      if Truthy(db) then written["MYSQL_DB" := db.value] else written
  {
    var keys := ["MYSQL_HOST", "MYSQL_PORT", "MYSQL_USER", "MYSQL_PASSWORD", "MYSQL_DB"];
    ReadBackSettings(keys, host, port, usr, pwd, db);
  }

  /** A newline inside a value is written as it is (it is not a character that causes quoting), so
      when the file is read the value is cut short at the newline and the rest forms a line of its
      own, which holds no setting when it has no `=`. */
  lemma {:induction false} NewlineCutsValue(host: string, port: string, a: string, b: string, pwd: string)
    requires '\n' !in host && '\n' !in port && '\n' !in pwd
    requires '\n' !in a && '\n' !in b && !NeedsQuotes(a) && !NeedsQuotes(b)
    ensures Get(ParseEnv(EnvText(Entries(host, port, a + "\n" + b, pwd, None))), "MYSQL_USER") == Some(a)
  {
    KeysDistinct();
    var keys := ["MYSQL_HOST", "MYSQL_PORT", "MYSQL_USER", "MYSQL_PASSWORD"];
    NewlineCutsValueAt(keys, host, port, a, b, pwd);
    assert Entries(host, port, a + "\n" + b, pwd, None) ==
      [Entry(keys[0], host), Entry(keys[1], port), Entry(keys[2], a + "\n" + b), Entry(keys[3], pwd)];
  }

  lemma {:induction false} NewlineCutsValueAt(keys: seq<string>, host: string, port: string, a: string, b: string, pwd: string)
    requires |keys| == 4 && keys[2] != keys[3]
    requires forall i :: 0 <= i < 4 ==> '\n' !in keys[i] && '=' !in keys[i]
    requires '\n' !in host && '\n' !in port && '\n' !in pwd
    requires '\n' !in a && '\n' !in b && !NeedsQuotes(a) && !NeedsQuotes(b)
    ensures var es := [Entry(keys[0], host), Entry(keys[1], port), Entry(keys[2], a + "\n" + b), Entry(keys[3], pwd)];
      Get(ParseEnv(EnvText(es)), keys[2]) == Some(a)
  {
    var h, p, u, w := Entry(keys[0], host), Entry(keys[1], port), Entry(keys[2], a), Entry(keys[3], pwd);
    var es := [h, p, Entry(keys[2], a + "\n" + b), w];
    var tail := b + "\n" + EnvText([w]);
    NewlineSplitsText(h, p, keys[2], a, b, w);
    ParseOneLine(h);
    ParseOneLine(p);
    ParseOneLine(u);
    var m1 := map[keys[0] := host];
    var m3 := m1[keys[1] := port][keys[2] := a];
    ReadLinesStep(EnvLine(h), EnvLine(p) + "\n" + (EnvLine(u) + "\n" + tail), map[]);
    ReadLinesStep(EnvLine(p), EnvLine(u) + "\n" + tail, m1);
    ReadLinesStep(EnvLine(u), tail, m1[keys[1] := port]);
    assert '=' !in b by {
      assert forall i :: 0 <= i < |b| ==> b[i] != '=';
    }
    LineWithoutSettingIgnored(b, EnvText([w]), m3);
    ReadEnvText([w], m3);
    assert Apply([w], m3) == m3[keys[3] := pwd];
  }

  /** The text of four settings whose third value holds a newline. */
  lemma {:induction false} NewlineSplitsText(h: Entry, p: Entry, key: string, a: string, b: string, w: Entry)
    requires !NeedsQuotes(a) && !NeedsQuotes(b)
    ensures EnvText([h, p, Entry(key, a + "\n" + b), w]) ==
      EnvLine(h) + "\n" + (EnvLine(p) + "\n" + (EnvLine(Entry(key, a)) + "\n" + (b + "\n" + EnvText([w]))))
  {
    var u := Entry(key, a + "\n" + b);
    var lineU, lineA, rest := EnvLine(u), EnvLine(Entry(key, a)), EnvText([w]);
    assert lineU == lineA + "\n" + b by {
      NoQuotesAcrossNewline(a, b);
    }
    var t3 := EnvText([u, w]);
    assert t3 == lineU + "\n" + rest by {
      EnvTextCons([u, w]);
      assert [u, w][1..] == [w];
    }
    assert t3 == lineA + "\n" + (b + "\n" + rest);
    var t2 := EnvText([p, u, w]);
    assert t2 == EnvLine(p) + "\n" + t3 by {
      EnvTextCons([p, u, w]);
      assert [p, u, w][1..] == [u, w];
    }
    assert EnvText([h, p, u, w]) == EnvLine(h) + "\n" + t2 by {
      EnvTextCons([h, p, u, w]);
      assert [h, p, u, w][1..] == [p, u, w];
    }
  }

  lemma {:induction false} NoQuotesAcrossNewline(a: string, b: string)
    requires !NeedsQuotes(a) && !NeedsQuotes(b)
    ensures !NeedsQuotes(a + "\n" + b)
  {
    forall i | 0 <= i < |a + "\n" + b| ensures !IsSpecial((a + "\n" + b)[i]) {
      if i > |a| {
        assert (a + "\n" + b)[i] == b[i - |a| - 1];
      }
    }
  }

  /** A line without `=`, such as the rest of a value after its newline, holds no setting. */
  lemma {:induction false} LineWithoutSettingIgnored(b: string, rest: string, acc: map<string, string>)
    requires '\n' !in b && '=' !in b
    ensures ReadLines(b + "\n" + rest, acc) == ReadLines(rest, acc)
  {
    ReadLinesStep(b, rest, acc);
  }

  /** An integer port is written as its decimal digits, unquoted, and reads back as that integer. */
  lemma {:induction false} NumericPortReadBack(n: nat, environ: map<string, string>)
    ensures var p := ResolvePort(PortNumber(n), environ);
      QuoteEnvValue(Some(p)) == p && DecimalValue(p) == n
  {
    var p := ResolvePort(PortNumber(n), environ);
    assert !NeedsQuotes(p) by {
      forall i | 0 <= i < |p| ensures !IsSpecial(p[i]) {
        assert '0' <= p[i] <= '9';
      }
    }
    DigitsOfRoundTrip(n);
  }
}
