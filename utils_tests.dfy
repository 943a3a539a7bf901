/**
 * The unit test `test_path_backtrack` of src/utils.rs, stated as lemmas about
 * the traversal detector's specification. Each case is first proved for any
 * names in place of "foo" and "bar" (and, for the paths that climb out, for
 * anything that follows the climb), then instantiated with the test's paths.
 */
module UtilsTests {
  import opened Utils

  // "/foo/bar": two names, never above the start.

  lemma {:induction false} TwoNamesComponents(a: string, b: string)
    requires IsName(a) && IsName(b)
    ensures Components("/" + (a + "/" + b)) == [RootDir, Normal(a), Normal(b)]
  {
    RootComponents(a + "/" + b);
    NameThenName(a, b);
  }

  lemma {:induction false} NameThenName(a: string, b: string)
    requires IsName(a) && IsName(b)
    ensures Segments(a + "/" + b, false) == [Normal(a), Normal(b)]
  {
    NameSegment(a, b);
    SegmentsLast(b, false);
  }

  lemma {:induction false} TwoNamesStayInside(a: string, b: string)
    requires IsName(a) && IsName(b)
    ensures !Backtracks(Components("/" + (a + "/" + b)))
  {
    TwoNamesComponents(a, b);
    var cs := [RootDir, Normal(a), Normal(b)];
    var c1, c2 := [RootDir], [RootDir, Normal(a)];
    assert c2[..1] == c1 && cs[..2] == c2 && cs[..1] == c1 && cs[..3] == cs;
    assert Depth(c1) == 0 && Depth(c2) == 1 && Depth(cs) == 2;
    assert forall k :: 0 <= k <= |cs| ==> Depth(cs[..k]) >= 0;
  }

  // "/foo/../bar": a name, its parent, a name; the depth returns to zero but never below.

  lemma {:induction false} DownUpComponents(a: string, b: string)
    requires IsName(a) && IsName(b)
    ensures Components("/" + (a + "/" + ("../" + b))) == [RootDir, Normal(a), ParentDir, Normal(b)]
  {
    RootComponents(a + "/" + ("../" + b));
    NameParentName(a, b);
  }

  lemma {:induction false} NameParentName(a: string, b: string)
    requires IsName(a) && IsName(b)
    ensures Segments(a + "/" + ("../" + b), false) == [Normal(a), ParentDir, Normal(b)]
  {
    NameSegment(a, "../" + b);
    ParentThenName(b);
  }

  lemma {:induction false} ParentThenName(b: string)
    requires IsName(b)
    ensures Segments("../" + b, false) == [ParentDir, Normal(b)]
  {
    ParentSegment(b);
    SegmentsLast(b, false);
  }

  lemma {:induction false} DownUpStaysInside(a: string, b: string)
    requires IsName(a) && IsName(b)
    ensures !Backtracks(Components("/" + (a + "/" + ("../" + b))))
  {
    DownUpComponents(a, b);
    var cs := [RootDir, Normal(a), ParentDir, Normal(b)];
    var c1, c2, c3 := [RootDir], [RootDir, Normal(a)], [RootDir, Normal(a), ParentDir];
    assert c2[..1] == c1 && c3[..2] == c2 && cs[..3] == c3;
    assert cs[..0] == [] && cs[..1] == c1 && cs[..2] == c2 && cs[..4] == cs;
    assert Depth(c1) == 0 && Depth(c2) == 1 && Depth(c3) == 0 && Depth(cs) == 1;
    assert forall k :: 0 <= k <= |cs| ==> Depth(cs[..k]) >= 0;
  }

  // "/../foo/bar": the first step climbs out of the root.

  lemma {:induction false} LeadingParentComponents(rest: string)
    ensures Components("/" + ("../" + rest)) == [RootDir, ParentDir] + Segments(rest, false)
  {
    RootComponents("../" + rest);
    ParentSegment(rest);
  }

  lemma {:induction false} LeadingParentBacktracks(rest: string)
    ensures Backtracks(Components("/" + ("../" + rest)))
  {
    LeadingParentComponents(rest);
    RootParentDepth();
    PrefixBacktracks([RootDir, ParentDir], Segments(rest, false));
  }

  // "/foo/../../bar": one name, two climbs.

  lemma {:induction false} TwoParentSegments(rest: string)
    ensures Segments("../" + ("../" + rest), false) == [ParentDir, ParentDir] + Segments(rest, false)
  {
    ParentSegment("../" + rest);
    ParentSegment(rest);
  }

  lemma {:induction false} DoubleParentComponents(a: string, rest: string)
    requires IsName(a)
    ensures Components("/" + (a + "/" + ("../" + ("../" + rest))))
         == [RootDir, Normal(a), ParentDir, ParentDir] + Segments(rest, false)
  {
    var tail := a + "/" + ("../" + ("../" + rest));
    RootComponents(tail);
    NameThenTwoParents(a, rest);
    assert [RootDir] + ([Normal(a), ParentDir, ParentDir] + Segments(rest, false))
        == [RootDir, Normal(a), ParentDir, ParentDir] + Segments(rest, false);
  }

  lemma {:induction false} NameThenTwoParents(a: string, rest: string)
    requires IsName(a)
    ensures Segments(a + "/" + ("../" + ("../" + rest)), false)
         == [Normal(a), ParentDir, ParentDir] + Segments(rest, false)
  {
    NameSegment(a, "../" + ("../" + rest));
    TwoParentSegments(rest);
  }

  lemma {:induction false} DoubleParentBacktracks(a: string, rest: string)
    requires IsName(a)
    ensures Backtracks(Components("/" + (a + "/" + ("../" + ("../" + rest)))))
  {
    DoubleParentComponents(a, rest);
    ClimbTwiceDepth(a);
    PrefixBacktracks([RootDir, Normal(a), ParentDir, ParentDir], Segments(rest, false));
  }

  // "/foo/././../../../": the "." components do not hide the climb.

  lemma {:induction false} TwoCurDirSegments(rest: string)
    ensures Segments("./" + ("./" + rest), false) == Segments(rest, false)
  {
    CurDirSegment("./" + rest);
    CurDirSegment(rest);
  }

  lemma {:induction false} CurDirsComponents(a: string, rest: string)
    requires IsName(a)
    ensures Components("/" + (a + "/" + ("./" + ("./" + ("../" + ("../" + rest))))))
         == [RootDir, Normal(a), ParentDir, ParentDir] + Segments(rest, false)
  {
    var tail := a + "/" + ("./" + ("./" + ("../" + ("../" + rest))));
    RootComponents(tail);
    NameThenCurDirs(a, "../" + ("../" + rest));
    NameThenTwoParents(a, rest);
  }

  lemma {:induction false} NameThenCurDirs(a: string, rest: string)
    requires IsName(a)
    ensures Segments(a + "/" + ("./" + ("./" + rest)), false) == Segments(a + "/" + rest, false)
  {
    NameSegment(a, "./" + ("./" + rest));
    TwoCurDirSegments(rest);
    NameSegment(a, rest);
  }

  lemma {:induction false} CurDirsDoNotHideBacktrack(a: string, rest: string)
    requires IsName(a)
    ensures Backtracks(Components("/" + (a + "/" + ("./" + ("./" + ("../" + ("../" + rest)))))))
  {
    CurDirsComponents(a, rest);
    ClimbTwiceDepth(a);
    PrefixBacktracks([RootDir, Normal(a), ParentDir, ParentDir], Segments(rest, false));
  }

  // "/./../": a "." then a climb out of the root.

  lemma {:induction false} CurDirThenParentComponents(rest: string)
    ensures Components("/" + ("./" + ("../" + rest))) == [RootDir, ParentDir] + Segments(rest, false)
  {
    RootComponents("./" + ("../" + rest));
    CurDirSegment("../" + rest);
    ParentSegment(rest);
  }

  lemma {:induction false} CurDirThenParentBacktracks(rest: string)
    ensures Backtracks(Components("/" + ("./" + ("../" + rest))))
  {
    CurDirThenParentComponents(rest);
    RootParentDepth();
    PrefixBacktracks([RootDir, ParentDir], Segments(rest, false));
  }

  // The six verdicts `test_path_backtrack` fixes, on the test's own paths.

  lemma {:induction false} PlainPathTest()
    ensures !Backtracks(Components("/foo/bar"))
  {
    assert "/foo/bar" == "/" + ("foo" + "/" + "bar");
    TwoNamesStayInside("foo", "bar");
  }

  lemma {:induction false} ReturningPathTest()
    ensures !Backtracks(Components("/foo/../bar"))
  {
    assert "/foo/../bar" == "/" + ("foo" + "/" + ("../" + "bar"));
    DownUpStaysInside("foo", "bar");
  }

  lemma {:induction false} LeadingParentTest()
    ensures Backtracks(Components("/../foo/bar"))
  {
    assert "/../foo/bar" == "/" + ("../" + "foo/bar");
    LeadingParentBacktracks("foo/bar");
  }

  lemma {:induction false} DoubleParentTest()
    ensures Backtracks(Components("/foo/../../bar"))
  {
    assert "/foo/../../bar" == "/" + ("foo" + "/" + ("../" + ("../" + "bar")));
    DoubleParentBacktracks("foo", "bar");
  }

  lemma {:induction false} CurDirsTest()
    ensures Backtracks(Components("/foo/././../../../"))
  {
    assert "/foo/././../../../" == "/" + ("foo" + "/" + ("./" + ("./" + ("../" + ("../" + "../")))));
    CurDirsDoNotHideBacktrack("foo", "../");
  }

  lemma {:induction false} CurDirThenParentTest()
    ensures Backtracks(Components("/./../"))
  {
    assert "/./../" == "/" + ("./" + ("../" + ""));
    CurDirThenParentBacktracks("");
  }
}
