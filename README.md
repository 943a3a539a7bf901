# kepler request handling, modelled in Dafny

kepler is a small Gemini server. A client sends one URL over TLS. The server
answers with a status line, followed by the file's bytes on success. This
project models how kepler handles a request:

- **Protocol errors** (`src/utils.rs`). A `GeminiError` is a status code
  plus a meta text. Its wire form is `"<code> <meta>\r\n"`. The codes are
  59 (bad request), 51 (not found), 40 (temporary failure), and 30 or 31 for
  a temporary or permanent redirect. The traversal detector
  `does_path_backtrack` is modelled too: it walks a path's components with a
  depth counter. Its unit tests are restated as lemmas.
- **Configuration** (`src/config.rs`). `GeminiConfig` holds a settings
  document with defaults. It also holds a redirects table that
  `check_redirect` reloads in place once more than the TTL (in whole
  seconds) has passed since the last reload. Destinations are looked up
  with the request path as a section name, ignoring ASCII case. The
  permanence flag is looked up with the exact spelling.
- **The request pipeline** (`src/server.rs`). The steps run in order:
  1. parse the URL;
  2. require the exact configured hostname;
  3. percent-decode the path;
  4. consult the redirects;
  5. join the normalised path to the content root;
  6. append the index file for directories;
  7. check that the file exists, then read it.

  The response is framed as `"20 <mime>\r\n"` plus the body, or as the
  error's status line alone. The request text is the 1026-byte read buffer,
  lossily decoded, with NULs trimmed from both ends.

Layout:
- `wrappers.dfy`: `Option` and `Result`.
- `text.dfy`: decimal rendering and parsing, and ASCII lower-casing.
- `ini.dfy`: the INI document as a list of `(section, key, value)` entries. A lookup finds the first matching entry.
- `utils.dfy` and `utils_tests.dfy`: `src/utils.rs` and its tests.
- `config.dfy`: `src/config.rs`.
- `server.dfy`: `src/server.rs`.

Modelling choices:
- **Clock.** The clock is a parameter `now`, in nanoseconds. A whole-second elapsed time is `(now - last) / 10^9`, and 0 if the clock did not advance.
- **File loading.** Reading and parsing a file is a parameter `load: string -> Option<IniDocument>`. It gives `None` when either step fails.
- **Library functions.** These are fields of a `Library` value with no assumed properties:
  - `Uri::new`
  - `normalise_path`
  - percent-decoding
  - MIME guessing
  - `String::from_utf8_lossy`
  - `str::as_bytes`
- **Filesystem.** `exists`, `is_dir` and `read` are the fields of a `FileSystem` value.
- **`GeminiConfig` and `Server` are classes.** `GeminiConfig`'s redirects table and last-update time are fields that `CheckRedirect` and `UpdateRedirects` overwrite. Each method is proved to leave the state that a specification function (`RedirectTransition`, `Respond`) gives. `HandleConnection` fills a zeroed 1026-element array.

Behaviour of the code worth knowing when reading the model:
- A reload that fails still resets the last-update time (`src/config.rs:77-80`). The old table stays in use until the next reload is due.
- A `permanent` value that does not parse as a boolean gives a temporary redirect (`src/config.rs:85`). Only an absent entry or exactly `true` is permanent.
- Connections are handled one at a time, inline in the accept loop (`src/server.rs:41`). So no locking is modelled.
- NULs are trimmed from both ends of the request (`src/server.rs:50`).

## Model

| member | source | states |
|---|---|---|
| Utils.DoesPathBacktrack | src/utils.rs:4-21 | answers true exactly when some prefix of the path's components has a negative depth, i.e. the counter went below zero at some point |
| Utils.DepthIsBalance | src/utils.rs:6-13 | the counter after a walk is the number of normal components minus the number of `..` components |
| Utils.BacktracksIffMoreParents | src/utils.rs:6-20 | a path backtracks iff some prefix has more `..` than normal components |
| Utils.BacktrackingIsSticky | src/utils.rs:15-17 | once a walk has backtracked, any extension of it backtracks too (the early return) |
| Utils.PrefixBacktracks | src/utils.rs:15-17 | a walk whose prefix ends below the start backtracks whatever follows |
| Utils.DepthAppend | src/utils.rs:7-13 | the depth of a concatenated walk is the sum of the depths |
| Utils.NeutralComponentIrrelevant | src/utils.rs:8-13 | inserting a root or `.` component anywhere never changes the verdict |
| Utils.SegmentsCons | src/utils.rs:7 | Unix component splitting peels off one `/`-terminated segment |
| Utils.SegmentsLast | src/utils.rs:7 | a final segment without `/` is classified on its own |
| Utils.SegmentEndPrefix | src/utils.rs:7 | a segment ends at the first `/` |
| Utils.RootComponents | src/utils.rs:7 | a leading `/` yields the root component |
| Utils.NameSegment | src/utils.rs:7-9 | a name segment yields one normal component |
| Utils.ParentSegment | src/utils.rs:7-12 | a `..` segment yields a parent component |
| Utils.CurDirSegment | src/utils.rs:7 | a `.` segment after the start yields nothing |
| Utils.ClimbTwiceDepth | src/utils.rs:85 | root, name, `..`, `..` ends below the start |
| Utils.RootParentDepth | src/utils.rs:87 | root, `..` ends below the start |
| Utils.RedirectCode | src/utils.rs:63-70 | the code is 30 or 31, and 31 exactly when permanent |
| Utils.ToString | src/utils.rs:33-35 | the status line reads back, code and meta, as the same error |
| Utils.StatusLineRoundTrip | src/utils.rs:33-35 | decimal code, space, meta, CRLF parses back to the code and meta |
| Utils.SpaceIndexAfterDigits | src/utils.rs:34 | the first space of a status line is the one after the digits |
| Utils.BadRequest | src/utils.rs:37-42 | serialises as `"59 " + meta + CRLF` |
| Utils.NotFound | src/utils.rs:43-48 | serialises as `"51 \r\n"` |
| Utils.Redirect | src/utils.rs:49-54 | serialises as `"31 "` (permanent) or `"30 "` then the new URL and CRLF |
| Utils.TemporaryFailure | src/utils.rs:55-60 | serialises as `"40 " + meta + CRLF` |
| UtilsTests.TwoNamesComponents | src/utils.rs:81 | `/a/b` has components root, a, b |
| UtilsTests.NameThenName | src/utils.rs:81 | `a/b` splits into two normal components |
| UtilsTests.TwoNamesStayInside | src/utils.rs:81 | `/a/b` never backtracks, for any names |
| UtilsTests.DownUpComponents | src/utils.rs:82 | `/a/../b` has components root, a, `..`, b |
| UtilsTests.NameParentName | src/utils.rs:82 | `a/../b` splits into name, parent, name |
| UtilsTests.ParentThenName | src/utils.rs:82 | `../b` splits into parent, name |
| UtilsTests.DownUpStaysInside | src/utils.rs:82 | `/a/../b` never backtracks |
| UtilsTests.LeadingParentComponents | src/utils.rs:84 | `/../rest` starts with root, parent |
| UtilsTests.LeadingParentBacktracks | src/utils.rs:84 | `/../rest` backtracks whatever `rest` is |
| UtilsTests.TwoParentSegments | src/utils.rs:85 | `../../rest` starts with two parents |
| UtilsTests.DoubleParentComponents | src/utils.rs:85 | `/a/../../rest` starts root, a, `..`, `..` |
| UtilsTests.NameThenTwoParents | src/utils.rs:85 | `a/../../rest` starts name, parent, parent |
| UtilsTests.DoubleParentBacktracks | src/utils.rs:85 | `/a/../../rest` backtracks |
| UtilsTests.TwoCurDirSegments | src/utils.rs:86 | `././rest` has the components of `rest` |
| UtilsTests.CurDirsComponents | src/utils.rs:86 | `/a/././../../rest` starts root, a, `..`, `..` |
| UtilsTests.NameThenCurDirs | src/utils.rs:86 | two `.` segments after a name leave the split unchanged: `a/././rest` splits as `a/rest` |
| UtilsTests.CurDirsDoNotHideBacktrack | src/utils.rs:86 | `.` components do not stop `/a/././../../rest` from backtracking |
| UtilsTests.CurDirThenParentComponents | src/utils.rs:87 | `/./../rest` starts root, parent |
| UtilsTests.CurDirThenParentBacktracks | src/utils.rs:87 | `/./../rest` backtracks |
| UtilsTests.PlainPathTest | src/utils.rs:81 | `/foo/bar` does not backtrack |
| UtilsTests.ReturningPathTest | src/utils.rs:82 | `/foo/../bar` does not backtrack |
| UtilsTests.LeadingParentTest | src/utils.rs:84 | `/../foo/bar` backtracks |
| UtilsTests.DoubleParentTest | src/utils.rs:85 | `/foo/../../bar` backtracks |
| UtilsTests.CurDirsTest | src/utils.rs:86 | `/foo/././../../../` backtracks |
| UtilsTests.CurDirThenParentTest | src/utils.rs:87 | `/./../` backtracks |
| Text.Digits | src/utils.rs:34 | the decimal rendering of a code is digits only, with no leading zero |
| Text.ParseDigits | src/utils.rs:34 | reading a decimal rendering back gives the number |
| Text.LowercaseIsFolded | src/config.rs:84 | folded text has no upper-case ASCII letter left, and folding again changes nothing |
| Text.EqualsIgnoreCaseCharwise | src/config.rs:84 | two strings are equal ignoring case iff they have the same length and agree position by position up to ASCII case |
| Text.LetterCaseFolding | src/config.rs:84 | an upper-case letter matches only itself and its lower-case form |
| Text.EqualsIgnoreCaseIsEquivalence | src/config.rs:84 | ignoring case is reflexive, symmetric and transitive |
| Ini.Get | src/config.rs:85 | `None` iff no entry has the exact section and key; a found value belongs to such an entry |
| Ini.GetCaseInsensitive | src/config.rs:84 | `None` iff no entry has the key under a section equal ignoring ASCII case; a found value comes from such an entry |
| Ini.CaseInsensitiveLookupAgrees | src/config.rs:84 | section names that differ only in case find the same value |
| Ini.ExactMatchFoundIgnoringCase | src/config.rs:84-85 | anything the exact lookup finds, the case-insensitive one finds too |
| Config.Setting | src/config.rs:53-67 | an unset key gives the default; a set key gives a value configured for it |
| Config.ContentFolder | src/config.rs:53-55 | `"content"` unless `content_root` is configured, then a configured value |
| Config.CertificateFile | src/config.rs:56-58 | `"cert.pem"` unless `cert_chain_file` is configured |
| Config.PrivateKeyFile | src/config.rs:59-61 | `"key.pem"` unless `private_key_file` is configured |
| Config.Hostname | src/config.rs:62-64 | `"localhost"` unless `hostname` is configured |
| Config.Index | src/config.rs:65-67 | `"index.gmi"` unless `index` is configured |
| Config.ParseUnsigned | src/config.rs:20-21 | a parsed number is in the type's range, and the text after an optional `+` is one or more digits |
| Config.ParseUnsignedDigits | src/config.rs:20-21 | every in-range number parses back from its decimal form, with or without `+` |
| Config.ParseUnsignedRejectsOverflow | src/config.rs:20-21 | an out-of-range number does not parse, whatever zeros lead it and with or without `+` (the `expect` would panic) |
| Config.ParseUnsignedRejectsMalformed | src/config.rs:20-21 | text with no digits, or with anything but a digit after the optional `+`, does not parse |
| Config.ParseUnsignedLeadingZeros | src/config.rs:20-21 | leading zeros are accepted and leave the value unchanged, with or without `+` |
| Config.PortTextExamples | src/config.rs:20 | `"0080"` reads as 80; `"0abc"`, `"+"` and `""` are rejected |
| Config.Port | src/config.rs:20 | 1965 when unset, else the parsed value of a configured entry |
| Config.RedirectsTtl | src/config.rs:21 | 1800 when unset, else the parsed value of a configured entry |
| Config.EmptyConfigDefaults | src/config.rs:102-108 | an empty document gives every default |
| Config.ConfiguredValueOverrides | src/config.rs:53-67 | a configured value wins over any default |
| Config.ConfiguredPortOverrides | src/config.rs:20 | a configured port replaces 1965 |
| Config.Permanence | src/config.rs:85 | permanent iff the entry is absent or exactly `true` |
| Config.Lookup | src/config.rs:82-86 | found iff a destination entry exists under the path ignoring case; the destination is that entry's value; permanence comes from the exact-case section |
| Config.DestinationIgnoresCase | src/config.rs:84 | paths differing only in ASCII case get the same destination |
| Config.PermanenceIsCaseSensitive | src/config.rs:84-85 | `permanent = false` under `[/Old]` applies to `/Old` but not `/old`, which is redirected permanently |
| Config.ElapsedSecs | src/config.rs:76-77 | the whole seconds counted are those in which the elapsed nanoseconds lie; no time has elapsed when the clock did not advance |
| Config.ReloadThreshold | src/config.rs:76-77 | a reload is due exactly once `ttl + 1` whole seconds have passed |
| Config.Reload | src/config.rs:34-48 | a loaded document replaces the whole table; a failed load keeps it |
| Config.InitialState | src/config.rs:22-31 | the clock starts at construction; with no redirects file the table is empty; with one, the table is what loading it gives, and empty if the load fails |
| Config.RedirectTransition | src/config.rs:68-87 | no redirects file: no change and no answer; otherwise the answer comes from the table after any reload; the clock resets exactly when a reload is due, whatever the load gives; a due reload installs the loaded document, and a failed load keeps the old table; the table changes at no other time |
| Config.RedirectStateSettles | src/config.rs:76-80 | a second lookup at the same instant reloads nothing |
| Config.RemovedRedirectDisappears | src/config.rs:77-86 | after a due, successful reload, a path absent from the new file is not redirected |
| Config.ReloadedRedirectApplies | src/config.rs:77-86 | after a due, successful reload, a path the new file redirects goes to the new destination |
| Config.GeminiConfig.constructor | src/config.rs:17-33 | stores the document and parsed numbers, and starts in `InitialState` |
| Config.GeminiConfig.UpdateRedirects | src/config.rs:34-48 | the table becomes `Reload` of the old table and the load result |
| Config.GeminiConfig.CheckRedirect | src/config.rs:68-87 | the new state and the answer are those of `RedirectTransition` from the old state |
| Server.Join | src/server.rs:96-99 | an absolute path replaces the base; a relative one is the base, one `/` only where needed, then the path, so the base is a prefix and the path a suffix |
| Server.ProcessUrl | src/server.rs:81-92 | a parser error passes through; success iff the host matches exactly and the path decodes, giving the decoded path; every other failure is `bad_request("")` |
| Server.PrePostfixPath | src/server.rs:94-104 | a location that is not a directory is served as it is, which for a relative normalised path is the content root, one `/` where needed, then the path; a directory gets a relative index name appended after one `/` where needed, and an absolute index name replaces the directory's path |
| Server.ResolvedPathShape | src/server.rs:94-104 | with relative names the served path's text begins with the content root; an absolute normalised path discards the root; a non-empty relative index name is joined on exactly for directories and ends the path |
| Server.Respond | src/server.rs:64-79 | a rejected URL changes nothing; otherwise the redirect state evolves as `check_redirect` on the decoded path; a success carries the resolved file's full contents and its MIME type |
| Server.StageOf | src/server.rs:64-79 | the step a request stops at fixes the outcome: URL rejected iff `process_url` fails, a redirect gives 30 or 31, a missing file 51, a failed read 40, and success iff the file was read |
| Server.StatusIdentifiesStage | src/server.rs:64-92 | for a parsed URL, the response says which step stopped the request: 59 URL rejected, 30/31 redirected, 51 missing, 40 unreadable, success served |
| Server.WrongHostRejectedFirst | src/server.rs:84-87 | another host gives `"59 \r\n"` with the state unchanged, whatever the filesystem and table hold |
| Server.RedirectIgnoresFileSystem | src/server.rs:67-70 | a redirect is answered the same on every filesystem |
| Server.MissingFileIsNotRead | src/server.rs:73-75 | a missing file gives 51 whatever a read would give |
| Server.UnreadableIsTemporaryFailure | src/server.rs:77 | an existing file that cannot be read gives `"40 internal server error\r\n"` |
| Server.RedirectUsesDecodedPath | src/server.rs:66-71 | the redirect answer does not depend on normalisation, MIME guessing or framing |
| Server.SuccessHeader | src/server.rs:55 | the success header is the status line of code 20 with the MIME type as meta |
| Server.Frame | src/server.rs:53-60 | success: the header bytes then exactly the body; error: the status line alone |
| Server.ReadBuffer | src/server.rs:48-49 | 1026 bytes: what was read, then zeros |
| Server.LeadingNuls | src/server.rs:50 | counts exactly the NULs before the first other character |
| Server.TrailingNuls | src/server.rs:50 | counts exactly the NULs after the last other character |
| Server.TrimNul | src/server.rs:50 | the result is the input minus NUL-only runs at both ends, and has no NUL at either end |
| Server.TrimNulPadded | src/server.rs:50 | text without NULs at its ends is recovered from any NUL padding |
| Server.LeadingNulsPadded | src/server.rs:50 | NUL padding before a non-NUL is counted exactly |
| Server.TrailingNulsPadded | src/server.rs:50 | NUL padding after a non-NUL is counted exactly |
| Server.LeadingNulsAll | src/server.rs:50 | an all-NUL text is trimmed away entirely |
| Server.TrimNulIdempotent | src/server.rs:50 | trimming twice equals trimming once |
| Server.RequestText | src/server.rs:48-50 | the request text has no NUL at either end and is the decoded buffer minus NUL runs at both ends |
| Server.Server.constructor | src/server.rs:29-31 | keeps the configuration it is given |
| Server.Server.ProcessRequest | src/server.rs:64-79 | the configuration's new redirect state and the result are those of `Respond` from the old state |
| Server.Server.HandleConnection | src/server.rs:47-62 | answers the trimmed text of the read buffer; the bytes written are the framing of `Respond`'s result, and the configuration ends in `Respond`'s state |

## Left out

- TLS, the TCP listener, `Server::new` and the accept loop `run_server`, and `src/main.rs`. These are process and transport setup.
- Logging through `println!`, `eprintln!` and `log`.
- `Uri::new` and `normalise_path` are not part of this model. They are uninterpreted functions with no properties. So is every library function: percent-decoding, MIME guessing, `String::from_utf8_lossy`, `str::as_bytes`, and INI parsing.
- Server.Server.HandleConnection: a single `read` call is taken to deliver `incoming`. A read error reads as no bytes. Each `write` is taken to write its whole buffer, while `stream.write` may write less. Write and flush errors are ignored, as kepler ignores them.
- Config.Port and Config.RedirectsTtl: the `expect` panics on an unparsable number are preconditions (`NumbersParse`), not modelled failures. A missing or unparsable configuration file makes `GeminiConfig::new` panic before it starts and is not modelled: the constructor takes the parsed document.
- Config.ElapsedSecs: `Instant` is a nanosecond count. A clock that goes backwards reads as no time elapsed.
- Text.EqualsIgnoreCase: section names are compared ignoring ASCII case only. Full Unicode case folding is not modelled.
- Config.RedirectTransition: the second clock reading in `check_redirect`, taken after the reload (`src/config.rs:79`), is treated as the same instant as the first, so the time a reload takes is not modelled.
- Server.PrePostfixPath: a resolved path whose text begins with the content root need not lie inside it. A normalised path such as `../etc` gives `content/../etc`. Containment depends on `normalise_path`, which is not part of this model.
- Windows path prefixes and separators: paths and joins follow Unix rules.
