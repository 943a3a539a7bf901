/**
 * src/utils.rs: the traversal detector `does_path_backtrack` and the protocol
 * error value `GeminiError` with its wire form.
 */
module Utils {
  import opened Wrappers
  import opened Text

  /** Rust's `u8`. */
  type u8 = x: int | 0 <= x < 0x100

  // ---------------------------------------------------------------------------
  // Path components and the traversal detector
  // ---------------------------------------------------------------------------

  /** The components `std::path::Path::components` yields on Unix. */
  datatype Component = RootDir | CurDir | ParentDir | Normal(name: string)

  /** Length of the first '/'-separated segment of `s`. */
  function SegmentEnd(s: string): (i: nat)
    ensures i <= |s|
    ensures i < |s| ==> s[i] == '/'
  {
    if s == [] || s[0] == '/' then 0 else 1 + SegmentEnd(s[1..])
  }

  /** The component one segment stands for; `atStart` is true only for the first segment of a relative path. */
  function Classify(segment: string, atStart: bool): seq<Component> {
    if segment == "" then []
    else if segment == "." then (if atStart then [CurDir] else [])
    else if segment == ".." then [ParentDir]
    else [Normal(segment)]
  }

  function Segments(s: string, atStart: bool): seq<Component>
    decreases |s|
  {
    if s == [] then []
    else
      var i := SegmentEnd(s);
      Classify(s[..i], atStart) + Segments(if i < |s| then s[i + 1..] else [], false)
  }

  /**
   * `Path::components` on Unix: a leading '/' is the root, empty segments and
   * "." are skipped except for a "." that begins a relative path.
   */
  function Components(p: string): seq<Component> {
    if |p| > 0 && p[0] == '/' then [RootDir] + Segments(p[1..], false)
    else Segments(p, true)
  }

  /** How far one component moves the counter `steps_forward`. */
  function Step(c: Component): int {
    match c
    case Normal(_) => 1
    case ParentDir => -1
    case _ => 0
  }

  /** The value of `steps_forward` after walking the components `cs`. */
  function Depth(cs: seq<Component>): int {
    if cs == [] then 0 else Depth(cs[..|cs| - 1]) + Step(cs[|cs| - 1])
  }

  /** Some prefix of the walk leaves the starting directory. */
  ghost predicate Backtracks(cs: seq<Component>) {
    exists k :: 0 <= k <= |cs| && Depth(cs[..k]) < 0
  }

  /** `does_path_backtrack`: walks the components and answers true the moment the depth goes below zero. */
  method DoesPathBacktrack(p: string) returns (b: bool)
    ensures b <==> Backtracks(Components(p))
  {
    var cs := Components(p);
    var stepsForward := 0;
    for i := 0 to |cs|
      invariant stepsForward == Depth(cs[..i])
      invariant forall k :: 0 <= k <= i ==> Depth(cs[..k]) >= 0
    {
      assert cs[..i + 1][..i] == cs[..i];
      if cs[i].Normal? {
        stepsForward := stepsForward + 1;
      } else if cs[i] == ParentDir {
        stepsForward := stepsForward - 1;
      }
      if stepsForward < 0 {
        return true;
      }
    }
    assert cs[..|cs|] == cs;
    return false;
  }

  function NormalCount(cs: seq<Component>): nat {
    if cs == [] then 0 else NormalCount(cs[..|cs| - 1]) + (if cs[|cs| - 1].Normal? then 1 else 0)
  }

  function ParentCount(cs: seq<Component>): nat {
    if cs == [] then 0 else ParentCount(cs[..|cs| - 1]) + (if cs[|cs| - 1] == ParentDir then 1 else 0)
  }

  /** The depth is the number of normal components minus the number of ".." components. */
  lemma {:induction false} DepthIsBalance(cs: seq<Component>)
    ensures Depth(cs) == NormalCount(cs) - ParentCount(cs)
  {
    if cs != [] {
      DepthIsBalance(cs[..|cs| - 1]);
    }
  }

  /** A path backtracks iff some prefix of its components has more ".." than normal components. */
  lemma BacktracksIffMoreParents(cs: seq<Component>)
    ensures Backtracks(cs) <==> exists k :: 0 <= k <= |cs| && ParentCount(cs[..k]) > NormalCount(cs[..k])
  {
    forall k | 0 <= k <= |cs|
      ensures Depth(cs[..k]) < 0 <==> ParentCount(cs[..k]) > NormalCount(cs[..k])
    {
      DepthIsBalance(cs[..k]);
    }
  }

  /** Once a walk has backtracked, extending it by more components cannot undo it (the early return). */
  lemma BacktrackingIsSticky(cs: seq<Component>, more: seq<Component>)
    requires Backtracks(cs)
    ensures Backtracks(cs + more)
  {
    var k :| 0 <= k <= |cs| && Depth(cs[..k]) < 0;
    assert (cs + more)[..k] == cs[..k];
  }

  /** Depth of a concatenation is the sum of the depths. */
  lemma {:induction false} DepthAppend(a: seq<Component>, b: seq<Component>)
    ensures Depth(a + b) == Depth(a) + Depth(b)
    decreases |b|
  {
    if b == [] {
      assert a + b == a;
    } else {
      var b' := b[..|b| - 1];
      assert (a + b)[..|a + b| - 1] == a + b';
      DepthAppend(a, b');
    }
  }

  /** Root and "." components leave the counter unchanged: inserting one never changes the verdict. */
  lemma NeutralComponentIrrelevant(a: seq<Component>, c: Component, b: seq<Component>)
    requires c == RootDir || c == CurDir
    ensures Backtracks(a + [c] + b) <==> Backtracks(a + b)
  {
    var with, without := a + [c] + b, a + b;
    // Prefix k of `without` corresponds to prefix (k <= |a| ? k : k + 1) of `with`.
    forall k | 0 <= k <= |without| && Depth(without[..k]) < 0
      ensures Backtracks(with)
    {
      if k <= |a| {
        assert with[..k] == without[..k];
      } else {
        assert with[..k + 1] == a + [c] + b[..k - |a|];
        assert without[..k] == a + b[..k - |a|];
        DepthAppend(a + [c], b[..k - |a|]);
        DepthAppend(a, b[..k - |a|]);
        DepthAppend(a, [c]);
        assert Depth(with[..k + 1]) < 0;
      }
    }
    forall k | 0 <= k <= |with| && Depth(with[..k]) < 0
      ensures Backtracks(without)
    {
      if k <= |a| {
        assert with[..k] == without[..k];
      } else {
        assert with[..k] == a + [c] + b[..k - |a| - 1];
        assert without[..k - 1] == a + b[..k - |a| - 1];
        DepthAppend(a + [c], b[..k - |a| - 1]);
        DepthAppend(a, b[..k - |a| - 1]);
        DepthAppend(a, [c]);
        assert Depth(without[..k - 1]) < 0;
      }
    }
  }

  /** Peeling one '/'-terminated segment off the front of `s`. */
  lemma SegmentsCons(segment: string, rest: string, atStart: bool)
    requires forall k :: 0 <= k < |segment| ==> segment[k] != '/'
    ensures Segments(segment + "/" + rest, atStart) == Classify(segment, atStart) + Segments(rest, false)
  {
    var s := segment + "/" + rest;
    assert SegmentEnd(s) == |segment| by {
      assert s == segment + ("/" + rest);
      SegmentEndPrefix(segment, "/" + rest);
    }
    assert s[..|segment|] == segment;
    assert s[|segment| + 1..] == rest;
  }

  /** A last segment without a trailing '/'. */
  lemma SegmentsLast(segment: string, atStart: bool)
    requires segment != []
    requires forall k :: 0 <= k < |segment| ==> segment[k] != '/'
    ensures Segments(segment, atStart) == Classify(segment, atStart)
  {
    assert SegmentEnd(segment) == |segment| by {
      SegmentEndPrefix(segment, []);
    }
    assert segment[..|segment|] == segment;
  }

  lemma {:induction false} SegmentEndPrefix(segment: string, rest: string)
    requires forall k :: 0 <= k < |segment| ==> segment[k] != '/'
    requires rest == [] || rest[0] == '/'
    ensures SegmentEnd(segment + rest) == |segment|
  {
    if segment == [] {
      assert segment + rest == rest;
    } else {
      assert (segment + rest)[1..] == segment[1..] + rest;
      SegmentEndPrefix(segment[1..], rest);
    }
  }

  /** A file or directory name: one segment that is neither empty, "." nor "..". */
  predicate IsName(s: string) {
    s != "" && s != "." && s != ".." && forall k :: 0 <= k < |s| ==> s[k] != '/'
  }

  lemma RootComponents(rest: string)
    ensures Components("/" + rest) == [RootDir] + Segments(rest, false)
  {
    assert ("/" + rest)[1..] == rest;
  }

  lemma NameSegment(a: string, rest: string)
    requires IsName(a)
    ensures Segments(a + "/" + rest, false) == [Normal(a)] + Segments(rest, false)
  {
    SegmentsCons(a, rest, false);
  }

  lemma ParentSegment(rest: string)
    ensures Segments("../" + rest, false) == [ParentDir] + Segments(rest, false)
  {
    assert "../" + rest == ".." + "/" + rest;
    SegmentsCons("..", rest, false);
  }

  lemma CurDirSegment(rest: string)
    ensures Segments("./" + rest, false) == Segments(rest, false)
  {
    assert "./" + rest == "." + "/" + rest;
    SegmentsCons(".", rest, false);
  }

  /** A walk whose prefix already left the starting directory backtracks, whatever follows. */
  lemma PrefixBacktracks(prefix: seq<Component>, rest: seq<Component>)
    requires Depth(prefix) < 0
    ensures Backtracks(prefix + rest)
  {
    assert (prefix + rest)[..|prefix|] == prefix;
  }

  /** The walk root, name, "..", ".." ends below the start. */
  lemma ClimbTwiceDepth(a: string)
    ensures Depth([RootDir, Normal(a), ParentDir, ParentDir]) < 0
  {
    var climb := [RootDir, Normal(a), ParentDir, ParentDir];
    var c1, c2, c3 := [RootDir], [RootDir, Normal(a)], [RootDir, Normal(a), ParentDir];
    assert c2[..1] == c1 && c3[..2] == c2 && climb[..3] == c3;
    assert Depth(c1) == 0 && Depth(c2) == 1 && Depth(c3) == 0;
  }

  /** The walk root, ".." ends below the start. */
  lemma RootParentDepth()
    ensures Depth([RootDir, ParentDir]) < 0
  {
    assert [RootDir, ParentDir][..1] == [RootDir];
  }

  // ---------------------------------------------------------------------------
  // Protocol errors
  // ---------------------------------------------------------------------------

  const TEMP_FAIL: u8 := 40
  const NOT_FOUND: u8 := 51
  const BAD_REQUEST: u8 := 59

  /** A protocol error: a status code and its meta text. */
  datatype GeminiError = GeminiError(code: u8, meta: string)

  /** The private `redirect(permanent)`: the status code of a redirect. */
  function RedirectCode(permanent: bool): (code: u8)
    ensures code == 30 || code == 31
    ensures code == 31 <==> permanent
  {
    if permanent then 31 else 30
  }

  /** `to_string`: the status line sent to the client. */
  function ToString(e: GeminiError): (line: string)
    ensures ParseStatusLine(line) == Some(e)
  {
    StatusLineRoundTrip(e.code, e.meta);
    Digits(e.code) + " " + e.meta + "\r\n"
  }

  /** Index of the first space of `s`, or `|s|` when there is none. */
  function SpaceIndex(s: string): (i: nat)
    ensures i <= |s|
    ensures i < |s| ==> s[i] == ' '
    ensures forall k :: 0 <= k < i ==> s[k] != ' '
  {
    if s == [] || s[0] == ' ' then 0 else 1 + SpaceIndex(s[1..])
  }

  /**
   * How a client reads a status line: decimal code up to the first space, meta
   * up to the closing CRLF. The inverse of `ToString`.
   */
  function ParseStatusLine(line: string): Option<GeminiError> {
    var i := SpaceIndex(line);
    if 0 < i && i + 3 <= |line| && AllDigits(line[..i]) && line[|line| - 2..] == "\r\n"
       && ParseDecimal(line[..i]) < 0x100
    then Some(GeminiError(ParseDecimal(line[..i]), line[i + 1..|line| - 2]))
    else None
  }

  lemma StatusLineRoundTrip(code: u8, meta: string)
    ensures ParseStatusLine(Digits(code) + " " + meta + "\r\n") == Some(GeminiError(code, meta))
  {
    var d := Digits(code);
    var line := d + " " + meta + "\r\n";
    assert line[..|d|] == d;
    assert line[|d|] == ' ';
    assert SpaceIndex(line) == |d| by {
      SpaceIndexAfterDigits(d, " " + meta + "\r\n");
    }
    ParseDigits(code);
    assert line[|d| + 1..|line| - 2] == meta;
    assert line[|line| - 2..] == "\r\n";
  }

  lemma {:induction false} SpaceIndexAfterDigits(d: string, rest: string)
    requires AllDigits(d)
    requires |rest| > 0 && rest[0] == ' '
    ensures SpaceIndex(d + rest) == |d|
  {
    if d != [] {
      assert (d + rest)[1..] == d[1..] + rest;
      SpaceIndexAfterDigits(d[1..], rest);
    } else {
      assert d + rest == rest;
    }
  }

  /** `bad_request`: status 59 with the given meta. */
  function BadRequest(meta: string): (e: GeminiError)
    ensures ToString(e) == "59 " + meta + "\r\n"
  {
    GeminiError(BAD_REQUEST, meta)
  }

  /** `not_found`: status 51 with an empty meta. */
  function NotFound(): (e: GeminiError)
    ensures ToString(e) == "51 \r\n"
  {
    GeminiError(NOT_FOUND, "")
  }

  /** `redirect`: status 31 when permanent, 30 otherwise; the meta is the new URL. */
  function Redirect(newUrl: string, permanent: bool): (e: GeminiError)
    ensures ToString(e) == (if permanent then "31 " else "30 ") + newUrl + "\r\n"
  {
    GeminiError(RedirectCode(permanent), newUrl)
  }

  /** `temporary_failure`: status 40 with the given meta. */
  function TemporaryFailure(meta: string): (e: GeminiError)
    ensures ToString(e) == "40 " + meta + "\r\n"
  {
    GeminiError(TEMP_FAIL, meta)
  }
}
