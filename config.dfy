/**
 * The server configuration (`GeminiConfig`): settings read from an INI
 * document with defaults, and a redirects table that is reloaded from its own
 * file once a time-to-live has passed.
 *
 * The wall clock is a parameter `now`, in nanoseconds of a monotonic clock
 * (`Instant`). Reading and parsing a file is a parameter
 * `load: string -> Option<IniDocument>`, which gives `None` when either
 * `read_to_string` or `IniDocument::from_string` fails.
 */
module Config {
  import opened Wrappers
  import opened Text
  import opened Ini

  type u16 = x: int | 0 <= x < 0x1_0000
  type u64 = x: int | 0 <= x < 0x1_0000_0000_0000_0000

  /** Keys of the main configuration document (all in the top-level section ""). */
  const PRIVATE_KEY_FILE: string := "private_key_file"
  const CERT_CHAIN_FILE: string := "cert_chain_file"
  const CONTENT_FOLDER: string := "content_root"
  const HOSTNAME: string := "hostname"
  const PORT: string := "port"
  const INDEX: string := "index"
  const REDIRECTS_FILE: string := "redirects_file"
  const REDIRECTS_TTL: string := "redirects_ttl"

  /** Keys of the redirects document, whose sections are request paths. */
  const REDIRECT_DESTINATION: string := "destination"
  const REDIRECT_IS_PERMANENT: string := "permanent"

  const DEFAULT_REDIRECTS_TTL: u64 := 30 * 60
  const DEFAULT_PORT: u16 := 1965
  const DEFAULT_INDEX: string := "index.gmi"
  const DEFAULT_CONTENT_FOLDER: string := "content"
  const DEFAULT_CERT: string := "cert.pem"
  const DEFAULT_KEY: string := "key.pem"
  const DEFAULT_HOSTNAME: string := "localhost"

  const NANOS_PER_SECOND: nat := 1_000_000_000

  /** The top-level document has no entry for `key`. */
  predicate Unset(ini: IniDocument, key: string) {
    forall e :: e in ini ==> !(e.section == "" && e.key == key)
  }

  /** A top-level setting: its first configured value, else the default. */
  function Setting(ini: IniDocument, key: string, default: string): (v: string)
    ensures Unset(ini, key) ==> v == default
    ensures !Unset(ini, key) ==> Entry("", key, v) in ini
  {
    match Get(ini, key, "")
    case Some(s) => s
    case None => default
  }

  /** `content_folder`. */
  function ContentFolder(ini: IniDocument): (v: string)
    ensures Unset(ini, CONTENT_FOLDER) ==> v == DEFAULT_CONTENT_FOLDER
    ensures !Unset(ini, CONTENT_FOLDER) ==> Entry("", CONTENT_FOLDER, v) in ini
  {
    Setting(ini, CONTENT_FOLDER, DEFAULT_CONTENT_FOLDER)
  }

  /** `certificate_file`. */
  function CertificateFile(ini: IniDocument): (v: string)
    ensures Unset(ini, CERT_CHAIN_FILE) ==> v == DEFAULT_CERT
    ensures !Unset(ini, CERT_CHAIN_FILE) ==> Entry("", CERT_CHAIN_FILE, v) in ini
  {
    Setting(ini, CERT_CHAIN_FILE, DEFAULT_CERT)
  }

  /** `private_key_file`. */
  function PrivateKeyFile(ini: IniDocument): (v: string)
    ensures Unset(ini, PRIVATE_KEY_FILE) ==> v == DEFAULT_KEY
    ensures !Unset(ini, PRIVATE_KEY_FILE) ==> Entry("", PRIVATE_KEY_FILE, v) in ini
  {
    Setting(ini, PRIVATE_KEY_FILE, DEFAULT_KEY)
  }

  /** `hostname`. */
  function Hostname(ini: IniDocument): (v: string)
    ensures Unset(ini, HOSTNAME) ==> v == DEFAULT_HOSTNAME
    ensures !Unset(ini, HOSTNAME) ==> Entry("", HOSTNAME, v) in ini
  {
    Setting(ini, HOSTNAME, DEFAULT_HOSTNAME)
  }

  /** `index`. */
  function Index(ini: IniDocument): (v: string)
    ensures Unset(ini, INDEX) ==> v == DEFAULT_INDEX
    ensures !Unset(ini, INDEX) ==> Entry("", INDEX, v) in ini
  {
    Setting(ini, INDEX, DEFAULT_INDEX)
  }

  /**
   * Rust's `str::parse` for an unsigned integer type with `bound` values: an
   * optional `+`, then one or more decimal digits whose value is below `bound`.
   */
  function ParseUnsigned(s: string, bound: nat): (r: Option<nat>)
    ensures r.Some? ==> r.value < bound
    ensures r.Some? ==> |s| > 0 && (s[0] == '+' || IsDigit(s[0]))
    ensures r.Some? ==> |Numeral(s)| > 0 && AllDigits(Numeral(s))
  {
    var digits := Numeral(s);
    if |digits| > 0 && AllDigits(digits) && ParseDecimal(digits) < bound then Some(ParseDecimal(digits))
    else None
  }

  /** The text after an optional leading `+`. */
  function Numeral(s: string): string {
    if |s| > 0 && s[0] == '+' then s[1..] else s
  }

  /** Every value in range reads back from its decimal rendering, with or without a `+`. */
  lemma ParseUnsignedDigits(n: nat, bound: nat)
    requires n < bound
    ensures ParseUnsigned(Digits(n), bound) == Some(n)
    ensures ParseUnsigned("+" + Digits(n), bound) == Some(n)
  {
    ParseDigits(n);
    assert ("+" + Digits(n))[1..] == Digits(n);
  }

  /** A value at or beyond the type's range does not parse, however many zeros lead it and with or without a `+`. */
  lemma ParseUnsignedRejectsOverflow(zeros: string, n: nat, bound: nat)
    requires AllZeros(zeros)
    requires n >= bound
    ensures ParseUnsigned(Digits(n), bound) == None
    ensures ParseUnsigned(zeros + Digits(n), bound) == None
    ensures ParseUnsigned("+" + zeros + Digits(n), bound) == None
  {
    ParseDigits(n);
    ParseDecimalLeadingZeros(zeros, Digits(n));
    var z := zeros + Digits(n);
    assert "+" + zeros + Digits(n) == "+" + z;
    assert IsDigit(z[0]);
    assert Numeral(z) == z;
    assert Numeral("+" + z) == z;
    assert Digits(n)[0] != '+';
  }

  /** Text with no digits, or with anything but a digit after the optional `+`, does not parse. */
  lemma ParseUnsignedRejectsMalformed(s: string, bound: nat)
    requires |Numeral(s)| == 0 || exists i :: 0 <= i < |Numeral(s)| && !IsDigit(Numeral(s)[i])
    ensures ParseUnsigned(s, bound) == None
  {
  }

  /** Leading zeros are accepted and do not change the value, with or without a `+`. */
  lemma ParseUnsignedLeadingZeros(zeros: string, n: nat, bound: nat)
    requires AllZeros(zeros)
    requires n < bound
    ensures ParseUnsigned(zeros + Digits(n), bound) == Some(n)
    ensures ParseUnsigned("+" + zeros + Digits(n), bound) == Some(n)
  {
    ParseDigits(n);
    ParseDecimalLeadingZeros(zeros, Digits(n));
    var z := zeros + Digits(n);
    assert "+" + zeros + Digits(n) == "+" + z;
    ParseNumeral(z, bound);
  }

  /** A numeral in range parses to its value, with or without a `+`. */
  lemma ParseNumeral(z: string, bound: nat)
    requires |z| > 0 && AllDigits(z) && ParseDecimal(z) < bound
    ensures ParseUnsigned(z, bound) == Some(ParseDecimal(z))
    ensures ParseUnsigned("+" + z, bound) == Some(ParseDecimal(z))
  {
    assert IsDigit(z[0]);
    assert Numeral(z) == z;
    assert Numeral("+" + z) == z;
  }

  /** `"0080"` is port 80, while `"0abc"`, `"+"` and `""` are not numbers. */
  lemma PortTextExamples()
    ensures ParseUnsigned("0080", 0x1_0000) == Some(80)
    ensures ParseUnsigned("0abc", 0x1_0000) == None
    ensures ParseUnsigned("+", 0x1_0000) == None
    ensures ParseUnsigned("", 0x1_0000) == None
  {
    ParseUnsignedLeadingZeros("00", 80, 0x1_0000);
    assert "00" + Digits(80) == "0080";
    assert !IsDigit("0abc"[1]);
  }

  /**
   * The numeric settings parse when present; otherwise `GeminiConfig::new`
   * panics through `expect`.
   */
  predicate NumbersParse(ini: IniDocument) {
    (Get(ini, PORT, "").Some? ==> ParseUnsigned(Get(ini, PORT, "").value, 0x1_0000).Some?) &&
    (Get(ini, REDIRECTS_TTL, "").Some? ==> ParseUnsigned(Get(ini, REDIRECTS_TTL, "").value, 0x1_0000_0000_0000_0000).Some?)
  }

  /** The `port` computed at construction. */
  function Port(ini: IniDocument): (p: u16)
    requires NumbersParse(ini)
    ensures Unset(ini, PORT) ==> p == DEFAULT_PORT
    ensures !Unset(ini, PORT) ==> exists s :: Entry("", PORT, s) in ini && ParseUnsigned(s, 0x1_0000) == Some(p as nat)
  {
    match Get(ini, PORT, "")
    case Some(s) => ParseUnsigned(s, 0x1_0000).value
    case None => DEFAULT_PORT
  }

  /** The `redirects_ttl` computed at construction, in seconds. */
  function RedirectsTtl(ini: IniDocument): (t: u64)
    requires NumbersParse(ini)
    ensures Unset(ini, REDIRECTS_TTL) ==> t == DEFAULT_REDIRECTS_TTL
    ensures !Unset(ini, REDIRECTS_TTL) ==>
      exists s :: Entry("", REDIRECTS_TTL, s) in ini && ParseUnsigned(s, 0x1_0000_0000_0000_0000) == Some(t as nat)
  {
    match Get(ini, REDIRECTS_TTL, "")
    case Some(s) => ParseUnsigned(s, 0x1_0000_0000_0000_0000).value
    case None => DEFAULT_REDIRECTS_TTL
  }

  /** An empty configuration document yields every default. */
  lemma EmptyConfigDefaults()
    ensures NumbersParse(Empty)
    ensures Port(Empty) == 1965 && RedirectsTtl(Empty) == 1800
    ensures Index(Empty) == "index.gmi" && ContentFolder(Empty) == "content"
    ensures Hostname(Empty) == "localhost" && CertificateFile(Empty) == "cert.pem" && PrivateKeyFile(Empty) == "key.pem"
  {
  }

  /** A value configured for a key is the value of that setting, whatever its default. */
  lemma ConfiguredValueOverrides(rest: IniDocument, key: string, v: string, default: string)
    ensures Setting([Entry("", key, v)] + rest, key, default) == v
  {
  }

  /** A configured port in range is used in place of 1965. */
  lemma ConfiguredPortOverrides(rest: IniDocument, n: nat)
    requires n < 0x1_0000
    requires NumbersParse([Entry("", PORT, Digits(n))] + rest)
    ensures Port([Entry("", PORT, Digits(n))] + rest) == n
  {
    ParseUnsignedDigits(n, 0x1_0000);
  }

  /** Rust's `bool::from_str`: exactly `true` or `false`. */
  function ParseBool(s: string): Option<bool> {
    if s == "true" then Some(true) else if s == "false" then Some(false) else None
  }

  /** The value of a `permanent` entry: absent counts as permanent, text that does not parse as not. */
  function Permanence(v: Option<string>): (p: bool)
    ensures p <==> v == None || v == Some("true")
  {
    match v
    case None => true
    case Some(s) => match ParseBool(s) case Some(b) => b case None => false
  }

  /**
   * The lookup part of `check_redirect`: the destination of the first entry
   * whose section equals `path` ignoring ASCII case, paired with the
   * permanence read from the section spelled exactly as `path`.
   */
  function Lookup(table: IniDocument, path: string): (r: Option<(string, bool)>)
    ensures r.Some? <==> exists e :: e in table && EqualsIgnoreCase(e.section, path) && e.key == REDIRECT_DESTINATION
    ensures r.Some? ==> exists e :: e in table && EqualsIgnoreCase(e.section, path) && e.key == REDIRECT_DESTINATION && e.value == r.value.0
    ensures r.Some? ==> (r.value.1 <==> Get(table, REDIRECT_IS_PERMANENT, path) in {None, Some("true")})
  {
    var dest := GetCaseInsensitive(table, REDIRECT_DESTINATION, path);
    var permanent := Permanence(Get(table, REDIRECT_IS_PERMANENT, path));
    match dest
    case Some(d) => Some((d, permanent))
    case None => None
  }

  /** Paths that differ only in ASCII case find the same destination. */
  lemma DestinationIgnoresCase(table: IniDocument, p1: string, p2: string)
    requires EqualsIgnoreCase(p1, p2)
    ensures Lookup(table, p1).Some? <==> Lookup(table, p2).Some?
    ensures Lookup(table, p1).Some? ==> Lookup(table, p1).value.0 == Lookup(table, p2).value.0
  {
    CaseInsensitiveLookupAgrees(table, REDIRECT_DESTINATION, p1, p2);
  }

  /**
   * The permanence lookup does not ignore case: a `permanent = false` under
   * `[/Old]` applies to a request for `/Old` but not to one for `/old`, which
   * still finds the destination and so is redirected permanently.
   */
  lemma PermanenceIsCaseSensitive()
    ensures var table := [Entry("/Old", REDIRECT_DESTINATION, "/new"), Entry("/Old", REDIRECT_IS_PERMANENT, "false")];
      Lookup(table, "/Old") == Some(("/new", false)) && Lookup(table, "/old") == Some(("/new", true))
  {
    var table := [Entry("/Old", REDIRECT_DESTINATION, "/new"), Entry("/Old", REDIRECT_IS_PERMANENT, "false")];
    assert Lowercase("/Old") == "/old" == Lowercase("/old");
    assert GetCaseInsensitive(table, REDIRECT_DESTINATION, "/old") == Some("/new");
    assert Get(table, REDIRECT_IS_PERMANENT, "/old") == None;
  }

  /** The mutable part of a `GeminiConfig`: the redirects table and when it was last (re)loaded. */
  datatype RedirectState = RedirectState(table: IniDocument, lastUpdate: nat)

  /** Whole seconds elapsed since `since`, as `Instant::elapsed().as_secs()` (never negative). */
  function ElapsedSecs(since: nat, now: nat): (secs: nat)
    ensures now <= since ==> secs == 0
    // The elapsed nanoseconds lie in the whole second `secs` counts.
    ensures now > since ==> secs * NANOS_PER_SECOND <= now - since < (secs + 1) * NANOS_PER_SECOND
  {
    if now <= since then 0 else (now - since) / NANOS_PER_SECOND
  }

  /** The reload test `elapsed().as_secs() > ttl` holds exactly from `ttl + 1` whole seconds on. */
  lemma ReloadThreshold(since: nat, now: nat, ttl: nat)
    ensures ElapsedSecs(since, now) > ttl <==> now >= since + (ttl + 1) * NANOS_PER_SECOND
  {
  }

  /** `update_redirects`: a document that loads replaces the whole table; a failed load keeps it. */
  function Reload(table: IniDocument, loaded: Option<IniDocument>): (t: IniDocument)
    ensures loaded.Some? ==> t == loaded.value
    ensures loaded.None? ==> t == table
  {
    if loaded.Some? then loaded.value else table
  }

  /** The state a new `GeminiConfig` starts in: an empty table, loaded once if a redirects file is configured. */
  function InitialState(ini: IniDocument, now: nat, load: string -> Option<IniDocument>): (st: RedirectState)
    ensures st.lastUpdate == now
    ensures Unset(ini, REDIRECTS_FILE) ==> st.table == Empty
    // With a redirects file, the table is what loading it gives, and stays empty if the load fails.
    ensures !Unset(ini, REDIRECTS_FILE) ==> st.table == Reload(Empty, load(Setting(ini, REDIRECTS_FILE, "")))
    ensures st.table != Empty ==> load(Setting(ini, REDIRECTS_FILE, "")) == Some(st.table)
  {
    match Get(ini, REDIRECTS_FILE, "")
    case Some(file) => RedirectState(Reload(Empty, load(file)), now)
    case None => RedirectState(Empty, now)
  }

  /**
   * `check_redirect` as a state transition: with a redirects file configured,
   * reload once more than `ttl` whole seconds have passed (resetting the clock
   * whether or not the load succeeded), then look `path` up in the table.
   */
  function RedirectTransition(ini: IniDocument, ttl: nat, st: RedirectState, path: string, now: nat,
                              load: string -> Option<IniDocument>): (r: (RedirectState, Option<(string, bool)>))
    // Without a redirects file nothing happens and nothing is found.
    ensures Unset(ini, REDIRECTS_FILE) ==> r == (st, None)
    // With one, the answer comes from the table as it stands after any reload.
    ensures !Unset(ini, REDIRECTS_FILE) ==> r.1 == Lookup(r.0.table, path)
    // The clock is reset exactly when a reload is due, whatever the load gives.
    ensures r.0.lastUpdate == (if !Unset(ini, REDIRECTS_FILE) && ElapsedSecs(st.lastUpdate, now) > ttl then now else st.lastUpdate)
    // The table changes only to a document loaded from the configured file at a due reload.
    ensures r.0.table != st.table ==>
      ElapsedSecs(st.lastUpdate, now) > ttl && load(Setting(ini, REDIRECTS_FILE, "")) == Some(r.0.table)
    // A due reload installs whatever the configured file loads to, and a failed load keeps the old table.
    ensures !Unset(ini, REDIRECTS_FILE) && ElapsedSecs(st.lastUpdate, now) > ttl ==>
      r.0.table == Reload(st.table, load(Setting(ini, REDIRECTS_FILE, "")))
    ensures load(Setting(ini, REDIRECTS_FILE, "")).None? ==> r.0.table == st.table
  {
    match Get(ini, REDIRECTS_FILE, "")
    case None => (st, None)
    case Some(file) =>
      var st' := if ElapsedSecs(st.lastUpdate, now) > ttl then RedirectState(Reload(st.table, load(file)), now) else st;
      (st', Lookup(st'.table, path))
  }

  /** A second lookup at the same instant reloads nothing, whatever the paths. */
  lemma RedirectStateSettles(ini: IniDocument, ttl: nat, st: RedirectState, p1: string, p2: string, now: nat,
                             load: string -> Option<IniDocument>)
    ensures var st1 := RedirectTransition(ini, ttl, st, p1, now, load).0;
      RedirectTransition(ini, ttl, st1, p2, now, load).0 == st1
  {
  }

  /** Once a due reload succeeds, a path the new file redirects is redirected to the new destination. */
  lemma ReloadedRedirectApplies(ini: IniDocument, ttl: nat, st: RedirectState, path: string, now: nat,
                                load: string -> Option<IniDocument>, destination: string)
    requires !Unset(ini, REDIRECTS_FILE)
    requires ElapsedSecs(st.lastUpdate, now) > ttl
    requires load(Setting(ini, REDIRECTS_FILE, "")).Some?
    requires GetCaseInsensitive(load(Setting(ini, REDIRECTS_FILE, "")).value, REDIRECT_DESTINATION, path) == Some(destination)
    ensures RedirectTransition(ini, ttl, st, path, now, load).1.Some?
    ensures RedirectTransition(ini, ttl, st, path, now, load).1.value.0 == destination
  {
  }

  /** Once a due reload succeeds, an entry missing from the new file no longer redirects. */
  lemma RemovedRedirectDisappears(ini: IniDocument, ttl: nat, st: RedirectState, path: string, now: nat,
                                  load: string -> Option<IniDocument>)
    requires !Unset(ini, REDIRECTS_FILE)
    requires ElapsedSecs(st.lastUpdate, now) > ttl
    requires load(Setting(ini, REDIRECTS_FILE, "")).Some?
    requires forall e :: e in load(Setting(ini, REDIRECTS_FILE, "")).value ==> e.key != REDIRECT_DESTINATION
    ensures RedirectTransition(ini, ttl, st, path, now, load).1 == None
  {
  }

  /**
   * `GeminiConfig`: the settings document and the numbers parsed from it at
   * construction, and the redirects table with its last-update time, which
   * `check_redirect` replaces in place.
   */
  class GeminiConfig {
    const ini: IniDocument
    const port: u16
    const redirectsTtl: u64
    var redirectsTable: IniDocument
    var redirectsLastUpdate: nat

    function State(): RedirectState
      reads this
    {
      RedirectState(redirectsTable, redirectsLastUpdate)
    }

    /** `GeminiConfig::new` on an already loaded document, at time `now`. */
    constructor (document: IniDocument, now: nat, load: string -> Option<IniDocument>)
      requires NumbersParse(document)
      ensures ini == document && port == Port(document) && redirectsTtl == RedirectsTtl(document)
      ensures State() == InitialState(document, now, load)
    {
      ini := document;
      port := Port(document);
      redirectsTtl := RedirectsTtl(document);
      redirectsLastUpdate := now;
      redirectsTable := Empty;
      new;
      var file := Get(ini, REDIRECTS_FILE, "");
      if file.Some? {
        UpdateRedirects(file.value, load);
      }
    }

    /** `update_redirects(path)`: replace the table by the document loaded from `path`, if it loads. */
    method UpdateRedirects(path: string, load: string -> Option<IniDocument>)
      modifies this`redirectsTable
      ensures redirectsTable == Reload(old(redirectsTable), load(path))
    {
      match load(path) {
        case Some(document) => redirectsTable := document;
        case None =>
      }
    }

    /** `check_redirect(path)` at time `now`. */
    method CheckRedirect(path: string, now: nat, load: string -> Option<IniDocument>) returns (r: Option<(string, bool)>)
      modifies this
      ensures (State(), r) == RedirectTransition(ini, redirectsTtl, old(State()), path, now, load)
    {
      var file := Get(ini, REDIRECTS_FILE, "");
      if file.None? {
        return None;
      }
      if ElapsedSecs(redirectsLastUpdate, now) > redirectsTtl {
        UpdateRedirects(file.value, load);
        redirectsLastUpdate := now;
      }
      r := Lookup(redirectsTable, path);
    }
  }
}
