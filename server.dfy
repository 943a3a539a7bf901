/**
 * src/server.rs: turning one request line into a response. The URL is parsed
 * and checked against the configured hostname, its path percent-decoded,
 * looked up in the redirects table, then resolved under the content root and
 * read from the filesystem; the result is framed as a status line followed by
 * the body, or as the error's status line alone.
 *
 * The libraries the server calls are the fields of a `Library` value and the
 * filesystem is a `FileSystem` value; neither is given any property beyond
 * being a function.
 */
module Server {
  import opened Wrappers
  import opened Text
  import opened Ini
  import opened Utils
  import opened Config

  /** The parts of a parsed URL the server looks at. */
  datatype Uri = Uri(hostname: string, path: string)

  /** The library functions the request pipeline calls. */
  datatype Library = Library(
    // `Uri::new`
    parseUri: string -> Result<Uri, GeminiError>,
    // `percent_decode_str(p).decode_utf8()`: `None` when the decoded bytes are not UTF-8
    decodePath: string -> Option<string>,
    // `normalise_path`
    normalisePath: string -> string,
    // `from_path(p).first_or_octet_stream()`, rendered as text
    mimeOf: string -> string,
    // `String::from_utf8_lossy`
    lossyDecode: seq<u8> -> string,
    // `str::as_bytes`
    asBytes: string -> seq<u8>)

  /** `Path::exists`, `Path::is_dir` and `std::fs::read` (`None` when the read fails). */
  datatype FileSystem = FileSystem(pathExists: string -> bool, isDir: string -> bool, read: string -> Option<seq<u8>>)

  // ---------------------------------------------------------------------------
  // Paths
  // ---------------------------------------------------------------------------

  predicate IsAbsolute(p: string) {
    |p| > 0 && p[0] == '/'
  }

  /**
   * `PathBuf::join` on Unix: an absolute path replaces the base; otherwise it is
   * appended, with a '/' between unless the base is empty or already ends in one.
   */
  function Join(base: string, p: string): (r: string)
    ensures IsAbsolute(p) ==> r == p
    ensures !IsAbsolute(p) ==> r == base + Separator(base) + p
    ensures !IsAbsolute(p) ==> base <= r && r[|r| - |p|..] == p
  {
    if IsAbsolute(p) then p else base + Separator(base) + p
  }

  /** The separator `Join` puts between a base and a relative path. */
  function Separator(base: string): string {
    if |base| > 0 && base[|base| - 1] != '/' then "/" else ""
  }

  /** `process_url`: the percent-decoded path of a URL for this host. */
  function ProcessUrl(ini: IniDocument, lib: Library, u: string): (r: Result<string, GeminiError>)
    // An unparsable URL fails with the parser's own error.
    ensures lib.parseUri(u).Failure? ==> r == Failure(lib.parseUri(u).error)
    // A URL for any other host is a bad request with an empty meta.
    ensures lib.parseUri(u).Success? && lib.parseUri(u).value.hostname != Hostname(ini) ==> r == Failure(BadRequest(""))
    // A success is the decoded path of a URL naming exactly the configured host.
    ensures r.Success? <==> lib.parseUri(u).Success? && lib.parseUri(u).value.hostname == Hostname(ini) &&
                            lib.decodePath(lib.parseUri(u).value.path).Some?
    ensures r.Success? ==> lib.decodePath(lib.parseUri(u).value.path) == Some(r.value)
    // Every failure after parsing is `bad_request("")`.
    ensures r.Failure? && lib.parseUri(u).Success? ==> r.error == BadRequest("")
  {
    match lib.parseUri(u)
    case Failure(e) => Failure(e)
    case Success(url) =>
      if url.hostname != Hostname(ini) then Failure(BadRequest(""))
      else match lib.decodePath(url.path)
        case None => Failure(BadRequest(""))
        case Some(path) => Success(path)
  }

  /**
   * `pre_postfix_path`: the normalised path joined to the content root, with
   * the index file name joined on when that location is a directory.
   */
  function PrePostfixPath(ini: IniDocument, lib: Library, fs: FileSystem, p: string): (r: string)
    // An absolute index name replaces the path of every directory.
    ensures IsAbsolute(Index(ini)) && fs.isDir(Join(ContentFolder(ini), lib.normalisePath(p))) ==> r == Index(ini)
    // Whatever the index name, a location that is not a directory is served as it is.
    ensures var located := Join(ContentFolder(ini), lib.normalisePath(p));
      !fs.isDir(located) ==> r == located
    // A directory gets a relative index name appended, with one '/' unless its path is empty or ends in one.
    ensures var located := Join(ContentFolder(ini), lib.normalisePath(p));
      fs.isDir(located) && !IsAbsolute(Index(ini)) ==> r == located + Separator(located) + Index(ini)
    // A relative normalised path is appended to the content root in the same way.
    ensures var root := ContentFolder(ini);
      !IsAbsolute(lib.normalisePath(p)) && !fs.isDir(Join(root, lib.normalisePath(p))) ==>
        r == root + Separator(root) + lib.normalisePath(p)
  {
    var root := ContentFolder(ini);
    var located := Join(root, lib.normalisePath(p));
    if fs.isDir(located) then Join(located, Index(ini)) else located
  }

  /**
   * Consequences for the served path: with relative names throughout it begins
   * with the content root, an absolute normalised path leaves the root behind,
   * and a non-empty relative index name ends the path exactly for directories.
   */
  lemma ResolvedPathShape(ini: IniDocument, lib: Library, fs: FileSystem, p: string)
    ensures var r := PrePostfixPath(ini, lib, fs, p);
      !IsAbsolute(lib.normalisePath(p)) && !IsAbsolute(Index(ini)) ==> ContentFolder(ini) <= r
    ensures var r := PrePostfixPath(ini, lib, fs, p);
      IsAbsolute(lib.normalisePath(p)) && !fs.isDir(lib.normalisePath(p)) ==> r == lib.normalisePath(p)
    ensures var r, located := PrePostfixPath(ini, lib, fs, p), Join(ContentFolder(ini), lib.normalisePath(p));
      !IsAbsolute(Index(ini)) && |Index(ini)| > 0 ==>
        && (r != located <==> fs.isDir(located))
        && (fs.isDir(located) ==> located <= r && |r| >= |located| + |Index(ini)| && r[|r| - |Index(ini)|..] == Index(ini))
  {
    var root, r := ContentFolder(ini), PrePostfixPath(ini, lib, fs, p);
    var located := Join(root, lib.normalisePath(p));
    if !IsAbsolute(lib.normalisePath(p)) && !IsAbsolute(Index(ini)) && fs.isDir(located) {
      assert r[..|root|] == located[..|root|] == root;
    }
  }

  // ---------------------------------------------------------------------------
  // The request pipeline
  // ---------------------------------------------------------------------------

  const INTERNAL_ERROR: string := "internal server error"

  /**
   * `process_request` as a function of the configuration, the redirects state
   * before the call and the clock: the state after the call and the result,
   * either a MIME type with the file's bytes or a protocol error.
   */
  function Respond(ini: IniDocument, ttl: nat, lib: Library, fs: FileSystem, st: RedirectState,
                   request: string, now: nat, load: string -> Option<IniDocument>)
    : (r: (RedirectState, Result<(string, seq<u8>), GeminiError>))
    // A request whose URL is rejected changes nothing and fails as `process_url` does.
    ensures ProcessUrl(ini, lib, request).Failure? ==> r == (st, Failure(ProcessUrl(ini, lib, request).error))
    // Otherwise the redirects state evolves exactly as `check_redirect` on the decoded path.
    ensures ProcessUrl(ini, lib, request).Success? ==>
      r.0 == RedirectTransition(ini, ttl, st, ProcessUrl(ini, lib, request).value, now, load).0
    // A success carries the full contents of the resolved file and its guessed MIME type.
    ensures r.1.Success? ==>
      var path := PrePostfixPath(ini, lib, fs, ProcessUrl(ini, lib, request).value);
      fs.pathExists(path) && fs.read(path) == Some(r.1.value.1) && r.1.value.0 == lib.mimeOf(path)
  {
    match ProcessUrl(ini, lib, request)
    case Failure(e) => (st, Failure(e))
    case Success(path) =>
      var (st', redirect) := RedirectTransition(ini, ttl, st, path, now, load);
      match redirect
      case Some((destination, permanent)) => (st', Failure(Redirect(destination, permanent)))
      case None =>
        var resolved := PrePostfixPath(ini, lib, fs, path);
        if !fs.pathExists(resolved) then (st', Failure(NotFound()))
        else match fs.read(resolved)
          case None => (st', Failure(TemporaryFailure(INTERNAL_ERROR)))
          case Some(data) => (st', Success((lib.mimeOf(resolved), data)))
  }

  /** The stage of `process_request` at which a request stops. */
  datatype Stage = UrlRejected | Redirected | Missing | Unreadable | Served

  /** Which stage a request stops at, read off the inputs without running the pipeline. */
  function StageOf(ini: IniDocument, ttl: nat, lib: Library, fs: FileSystem, st: RedirectState,
                   request: string, now: nat, load: string -> Option<IniDocument>): (stage: Stage)
    ensures var r := Respond(ini, ttl, lib, fs, st, request, now, load).1;
      && (stage == UrlRejected <==> ProcessUrl(ini, lib, request).Failure?)
      && (stage == Redirected ==> r.Failure? && r.error.code in {30, 31})
      && (stage == Missing ==> r == Failure(NotFound()))
      && (stage == Unreadable ==> r == Failure(TemporaryFailure(INTERNAL_ERROR)))
      && (stage == Served <==> r.Success?)
  {
    var url := ProcessUrl(ini, lib, request);
    if url.Failure? then UrlRejected
    else if RedirectTransition(ini, ttl, st, url.value, now, load).1.Some? then Redirected
    else
      var resolved := PrePostfixPath(ini, lib, fs, url.value);
      if !fs.pathExists(resolved) then Missing
      else if fs.read(resolved).None? then Unreadable
      else Served
  }

  /**
   * The status of the response identifies the stage at which the request
   * stopped: 59 for a rejected host or path, 30 or 31 for a redirect, 51 for a
   * missing file, 40 for a failed read, success only when the file was read.
   * A URL the parser rejects carries the parser's error.
   */
  lemma StatusIdentifiesStage(ini: IniDocument, ttl: nat, lib: Library, fs: FileSystem, st: RedirectState,
                              request: string, now: nat, load: string -> Option<IniDocument>)
    requires lib.parseUri(request).Success?
    ensures var r := Respond(ini, ttl, lib, fs, st, request, now, load).1;
      var stage := StageOf(ini, ttl, lib, fs, st, request, now, load);
      && (stage == UrlRejected <==> r.Failure? && r.error == BadRequest(""))
      && (stage == Redirected <==> r.Failure? && r.error.code in {30, 31})
      && (stage == Missing <==> r == Failure(NotFound()))
      && (stage == Unreadable <==> r == Failure(TemporaryFailure(INTERNAL_ERROR)))
      && (stage == Served <==> r.Success?)
  {
  }

  /** A request for another host is answered `59` before anything else is consulted, and changes nothing. */
  lemma WrongHostRejectedFirst(ini: IniDocument, ttl: nat, lib: Library, fs: FileSystem, st: RedirectState,
                               request: string, now: nat, load: string -> Option<IniDocument>)
    requires lib.parseUri(request).Success? && lib.parseUri(request).value.hostname != Hostname(ini)
    ensures Respond(ini, ttl, lib, fs, st, request, now, load) == (st, Failure(BadRequest("")))
    ensures ToString(BadRequest("")) == "59 \r\n"
  {
  }

  /**
   * A redirect wins over everything the filesystem would say: the response is
   * the same whatever the filesystem holds.
   */
  lemma RedirectIgnoresFileSystem(ini: IniDocument, ttl: nat, lib: Library, fs1: FileSystem, fs2: FileSystem,
                                  st: RedirectState, request: string, now: nat, load: string -> Option<IniDocument>)
    requires ProcessUrl(ini, lib, request).Success?
    requires RedirectTransition(ini, ttl, st, ProcessUrl(ini, lib, request).value, now, load).1.Some?
    ensures Respond(ini, ttl, lib, fs1, st, request, now, load) == Respond(ini, ttl, lib, fs2, st, request, now, load)
    ensures var rd := RedirectTransition(ini, ttl, st, ProcessUrl(ini, lib, request).value, now, load).1.value;
      Respond(ini, ttl, lib, fs1, st, request, now, load).1 == Failure(Redirect(rd.0, rd.1))
  {
  }

  /** A file that does not exist is `51` whatever reading it would give: the read is never attempted. */
  lemma MissingFileIsNotRead(ini: IniDocument, ttl: nat, lib: Library, fs: FileSystem,
                             read2: string -> Option<seq<u8>>, st: RedirectState, request: string, now: nat,
                             load: string -> Option<IniDocument>)
    requires StageOf(ini, ttl, lib, fs, st, request, now, load) == Missing
    ensures Respond(ini, ttl, lib, fs, st, request, now, load).1 == Failure(NotFound())
    ensures Respond(ini, ttl, lib, fs.(read := read2), st, request, now, load)
         == Respond(ini, ttl, lib, fs, st, request, now, load)
  {
  }

  /** A file that exists but cannot be read is a temporary failure (40), never `not found`. */
  lemma UnreadableIsTemporaryFailure(ini: IniDocument, ttl: nat, lib: Library, fs: FileSystem, st: RedirectState,
                                     request: string, now: nat, load: string -> Option<IniDocument>)
    requires StageOf(ini, ttl, lib, fs, st, request, now, load) == Unreadable
    ensures Respond(ini, ttl, lib, fs, st, request, now, load).1 == Failure(TemporaryFailure(INTERNAL_ERROR))
    ensures ToString(Respond(ini, ttl, lib, fs, st, request, now, load).1.error) == "40 " + INTERNAL_ERROR + "\r\n"
  {
    var e := TemporaryFailure(INTERNAL_ERROR);
    assert Respond(ini, ttl, lib, fs, st, request, now, load).1 == Failure(e);
  }

  /** The redirect lookup sees the decoded path itself, not the normalised or resolved one. */
  lemma RedirectUsesDecodedPath(ini: IniDocument, ttl: nat, lib1: Library, lib2: Library, fs: FileSystem,
                                st: RedirectState, request: string, now: nat, load: string -> Option<IniDocument>)
    requires lib1.parseUri == lib2.parseUri && lib1.decodePath == lib2.decodePath
    requires ProcessUrl(ini, lib1, request).Success?
    requires RedirectTransition(ini, ttl, st, ProcessUrl(ini, lib1, request).value, now, load).1.Some?
    ensures Respond(ini, ttl, lib1, fs, st, request, now, load) == Respond(ini, ttl, lib2, fs, st, request, now, load)
  {
    assert ProcessUrl(ini, lib1, request) == ProcessUrl(ini, lib2, request);
  }

  // ---------------------------------------------------------------------------
  // Framing
  // ---------------------------------------------------------------------------

  /** The header of a successful response. */
  function SuccessHeader(mime: string): (line: string)
    ensures line == ToString(GeminiError(20, mime))
    ensures ParseStatusLine(line) == Some(GeminiError(20, mime))
  {
    assert Digits(20) == Digits(2) + [DigitChar(0)];
    "20 " + mime + "\r\n"
  }

  /** The bytes written for a result: header then body on success, the error's status line otherwise. */
  function Frame(lib: Library, res: Result<(string, seq<u8>), GeminiError>): (bytes: seq<u8>)
    // On success the header bytes come first and the body follows them byte for byte.
    ensures res.Success? ==> var h := lib.asBytes(SuccessHeader(res.value.0));
      h <= bytes && bytes[|h|..] == res.value.1
    // An error is its status line and nothing else.
    ensures res.Failure? ==> bytes == lib.asBytes(ToString(res.error))
  {
    match res
    case Success((mime, data)) => lib.asBytes(SuccessHeader(mime)) + data
    case Failure(e) => lib.asBytes(ToString(e))
  }

  // ---------------------------------------------------------------------------
  // Reading the request
  // ---------------------------------------------------------------------------

  /** Size of the request buffer. */
  const BUFFER_SIZE: nat := 1026

  const NUL: char := '\0'

  /** The zero-initialised buffer after one `read` that delivered `incoming`. */
  function ReadBuffer(incoming: seq<u8>): (buf: seq<u8>)
    ensures |buf| == BUFFER_SIZE
    ensures forall i :: 0 <= i < |buf| ==> buf[i] == (if i < |incoming| then incoming[i] else 0)
  {
    seq(BUFFER_SIZE, i requires 0 <= i < BUFFER_SIZE => if i < |incoming| then incoming[i] else 0)
  }

  /** Number of NULs at the start of `s`. */
  function LeadingNuls(s: string): (n: nat)
    ensures n <= |s|
    ensures forall k :: 0 <= k < n ==> s[k] == NUL
    ensures n < |s| ==> s[n] != NUL
    decreases |s|
  {
    if |s| > 0 && s[0] == NUL then 1 + LeadingNuls(s[1..]) else 0
  }

  /** Number of NULs at the end of `s`. */
  function TrailingNuls(s: string): (n: nat)
    ensures n <= |s|
    ensures forall k :: |s| - n <= k < |s| ==> s[k] == NUL
    ensures n < |s| ==> s[|s| - n - 1] != NUL
    decreases |s|
  {
    if |s| > 0 && s[|s| - 1] == NUL then 1 + TrailingNuls(s[..|s| - 1]) else 0
  }

  predicate AllNul(s: string) {
    forall k :: 0 <= k < |s| ==> s[k] == NUL
  }

  /** `trim_matches('\0')`: `s` without the NULs at either end. */
  function TrimNul(s: string): (t: string)
    ensures |t| > 0 ==> t[0] != NUL && t[|t| - 1] != NUL
    ensures exists a, b :: AllNul(a) && AllNul(b) && s == a + t + b
  {
    var i := LeadingNuls(s);
    var n := TrailingNuls(s[i..]);
    NulPaddingSplit(s, i, n);
    var a, t, b := s[..i], s[i..|s| - n], s[|s| - n..];
    assert AllNul(a) && AllNul(b) && s == a + t + b;
    t
  }

  /** Cutting off a NUL-only prefix of `s` and a NUL-only suffix of the remainder leaves NUL-only outer parts. */
  lemma NulPaddingSplit(s: string, i: nat, n: nat)
    requires i <= |s| && n <= |s| - i
    requires forall k :: 0 <= k < i ==> s[k] == NUL
    requires forall k :: |s[i..]| - n <= k < |s[i..]| ==> s[i..][k] == NUL
    requires i < |s| ==> s[i] != NUL
    requires n < |s| - i ==> s[i..][|s| - i - n - 1] != NUL
    ensures AllNul(s[..i]) && AllNul(s[|s| - n..]) && s == s[..i] + s[i..|s| - n] + s[|s| - n..]
    ensures var t := s[i..|s| - n]; |t| > 0 ==> t[0] != NUL && t[|t| - 1] != NUL
  {
    var rest, a, b := s[i..], s[..i], s[|s| - n..];
    forall k | 0 <= k < |a|
      ensures a[k] == NUL
    {
      assert a[k] == s[k];
    }
    forall k | 0 <= k < |b|
      ensures b[k] == NUL
    {
      assert b[k] == rest[|rest| - n + k];
    }
    assert s == a + s[i..|s| - n] + b;
  }

  /** Text with no NUL at either end is recovered from any NUL padding around it. */
  lemma {:induction false} TrimNulPadded(a: string, t: string, b: string)
    requires AllNul(a) && AllNul(b)
    requires |t| > 0 ==> t[0] != NUL && t[|t| - 1] != NUL
    ensures TrimNul(a + t + b) == t
  {
    var s := a + t + b;
    if |t| > 0 {
      LeadingNulsPadded(a, t + b);
      assert a + t + b == a + (t + b);
      assert s[|a|..] == t + b;
      TrailingNulsPadded(t, b);
    } else {
      assert s == a + b;
      LeadingNulsAll(s);
    }
  }

  lemma {:induction false} LeadingNulsPadded(a: string, rest: string)
    requires AllNul(a) && |rest| > 0 && rest[0] != NUL
    ensures LeadingNuls(a + rest) == |a|
    decreases |a|
  {
    if |a| > 0 {
      assert (a + rest)[1..] == a[1..] + rest;
      LeadingNulsPadded(a[1..], rest);
    } else {
      assert a + rest == rest;
    }
  }

  lemma {:induction false} TrailingNulsPadded(t: string, b: string)
    requires AllNul(b) && |t| > 0 && t[|t| - 1] != NUL
    ensures TrailingNuls(t + b) == |b|
    decreases |b|
  {
    if |b| > 0 {
      assert (t + b)[..|t + b| - 1] == t + b[..|b| - 1];
      TrailingNulsPadded(t, b[..|b| - 1]);
    } else {
      assert t + b == t;
    }
  }

  lemma {:induction false} LeadingNulsAll(s: string)
    requires AllNul(s)
    ensures LeadingNuls(s) == |s|
    decreases |s|
  {
    if |s| > 0 {
      LeadingNulsAll(s[1..]);
    }
  }

  /** Trimming twice trims no more than once. */
  lemma TrimNulIdempotent(s: string)
    ensures TrimNul(TrimNul(s)) == TrimNul(s)
  {
    var t := TrimNul(s);
    assert t == [] + t + [];
    TrimNulPadded([], t, []);
  }

  /** The request text: the lossily decoded buffer with NULs trimmed from both ends. */
  function RequestText(lib: Library, incoming: seq<u8>): (text: string)
    ensures |text| > 0 ==> text[0] != NUL && text[|text| - 1] != NUL
    ensures exists a, b :: AllNul(a) && AllNul(b) && lib.lossyDecode(ReadBuffer(incoming)) == a + text + b
  {
    TrimNul(lib.lossyDecode(ReadBuffer(incoming)))
  }

  // ---------------------------------------------------------------------------
  // The server object
  // ---------------------------------------------------------------------------

  /** `Server`, without its listener and TLS acceptor. */
  class Server {
    const config: GeminiConfig
    const lib: Library

    constructor (config: GeminiConfig, lib: Library)
      ensures this.config == config && this.lib == lib
    {
      this.config := config;
      this.lib := lib;
    }

    /** `process_request`: consults the redirects table (possibly reloading it) and the filesystem. */
    method ProcessRequest(request: string, now: nat, fs: FileSystem, load: string -> Option<IniDocument>)
      returns (r: Result<(string, seq<u8>), GeminiError>)
      modifies config
      ensures (config.State(), r) == Respond(config.ini, config.redirectsTtl, lib, fs, old(config.State()), request, now, load)
    {
      var url := ProcessUrl(config.ini, lib, request);
      if url.Failure? {
        return Failure(url.error);
      }
      var redirect := config.CheckRedirect(url.value, now, load);
      if redirect.Some? {
        return Failure(Redirect(redirect.value.0, redirect.value.1));
      }
      var path := PrePostfixPath(config.ini, lib, fs, url.value);
      if !fs.pathExists(path) {
        return Failure(NotFound());
      }
      var mime := lib.mimeOf(path);
      var data := fs.read(path);
      if data.None? {
        return Failure(TemporaryFailure(INTERNAL_ERROR));
      }
      return Success((mime, data.value));
    }

    /**
     * `handle_connection`: read once into a zeroed 1026-byte buffer, answer the
     * trimmed request text, and return the bytes written to the stream.
     */
    method HandleConnection(incoming: seq<u8>, now: nat, fs: FileSystem, load: string -> Option<IniDocument>)
      returns (written: seq<u8>)
      modifies config
      ensures var r := Respond(config.ini, config.redirectsTtl, lib, fs, old(config.State()), RequestText(lib, incoming), now, load);
        config.State() == r.0 && written == Frame(lib, r.1)
    {
      var buf := new u8[BUFFER_SIZE](_ => 0);
      var n := if |incoming| < BUFFER_SIZE then |incoming| else BUFFER_SIZE;
      forall i | 0 <= i < n {
        buf[i] := incoming[i];
      }
      assert buf[..] == ReadBuffer(incoming);
      var request := TrimNul(lib.lossyDecode(buf[..]));
      var response := ProcessRequest(request, now, fs, load);
      match response {
        case Success((mime, data)) =>
          written := lib.asBytes(SuccessHeader(mime));
          written := written + data;
        case Failure(e) =>
          written := lib.asBytes(ToString(e));
      }
    }
  }
}
