/**
 * The diff classifier of the review report: it walks one pull request's diff
 * tree (file diff, hunk, segment, line, in that nesting) and keeps each added
 * or removed line whose trimmed text starts with one of four OpenAPI markers,
 * tagged with the marker's category.
 */
module DiffClassifier {
  import opened Text
  import opened Stash

  datatype ObjectType = ZALLY | PATH | AUDIENCE | PERMISSION

  /** One classified line: the segment's type as received, the category, the untrimmed text. */
  datatype Diff = Diff(typ: string, objectType: ObjectType, line: string)

  datatype Line = Line(source: u64, destination: u64, line: string, truncated: bool)

  datatype Segment = Segment(typ: string, lines: seq<Line>)

  datatype Hunk = Hunk(segments: seq<Segment>)

  datatype PullRequestDiff = PullRequestDiff(hunks: seq<Hunk>)

  /** The body of `pull-requests/<id>/diff`: one `PullRequestDiff` per changed file. */
  datatype PullRequestDiffs = PullRequestDiffs(fromHash: string, toHash: string, diffs: seq<PullRequestDiff>)

  const PathMarker := "/"
  const ZallyMarker := "x-zally-ignore"
  const PermissionMarker := "x-has-authority"
  const AudienceMarker := "x-audience"

  /** The prefix that announces each category. */
  function Marker(c: ObjectType): string
  {
    match c
    case PATH => PathMarker
    case ZALLY => ZallyMarker
    case PERMISSION => PermissionMarker
    case AUDIENCE => AudienceMarker
  }

  /** A segment is classified only when its type is ADDED or REMOVED, ignoring ASCII case. */
  predicate IsChangeType(typ: string)
  {
    EqIgnoreAsciiCase("ADDED", typ) || EqIgnoreAsciiCase("REMOVED", typ)
  }

  /** The order in which the markers are tested. */
  const Priority := [PATH, ZALLY, PERMISSION, AUDIENCE]

  /** The first category of `order` whose marker starts `s`. */
  function FirstMatch(s: string, order: seq<ObjectType>): (r: Option<ObjectType>)
    ensures r.Some? ==> r.value in order && StartsWith(s, Marker(r.value))
  {
    if order == [] then None
    else if StartsWith(s, Marker(order[0])) then Some(order[0])
    else FirstMatch(s, order[1..])
  }

  /** The category of a line: the first marker, in priority order, that starts its trimmed text. */
  function Categorize(text: string): Option<ObjectType>
  {
    FirstMatch(TrimStart(text), Priority)
  }

  /** Unrolls the priority search into the source's chain of `else if` tests. */
  lemma CategorizeChain(text: string)
    ensures Categorize(text) ==
      var trimmed := TrimStart(text);
      if StartsWith(trimmed, PathMarker) then Some(PATH)
      else if StartsWith(trimmed, ZallyMarker) then Some(ZALLY)
      else if StartsWith(trimmed, PermissionMarker) then Some(PERMISSION)
      else if StartsWith(trimmed, AudienceMarker) then Some(AUDIENCE)
      else None
  {
    var trimmed := TrimStart(text);
    var rest1, rest2, rest3 := [ZALLY, PERMISSION, AUDIENCE], [PERMISSION, AUDIENCE], [AUDIENCE];
    assert Priority[1..] == rest1 && rest1[1..] == rest2 && rest2[1..] == rest3 && rest3[1..] == [];
    assert FirstMatch(trimmed, rest3) == if StartsWith(trimmed, AudienceMarker) then Some(AUDIENCE) else None;
    assert FirstMatch(trimmed, rest2) == if StartsWith(trimmed, PermissionMarker) then Some(PERMISSION) else FirstMatch(trimmed, rest3);
    assert FirstMatch(trimmed, rest1) == if StartsWith(trimmed, ZallyMarker) then Some(ZALLY) else FirstMatch(trimmed, rest2);
  }

  /** A line of the tree together with the type of the segment it belongs to. */
  datatype TaggedLine = TaggedLine(typ: string, line: Line)

  /** What one line contributes to the report: nothing, or one `Diff`. */
  function LineDiffs(t: TaggedLine): (r: seq<Diff>)
    ensures |r| <= 1
    ensures r != [] ==> r[0].typ == t.typ && r[0].line == t.line.line
  {
    if IsChangeType(t.typ) then
      match Categorize(t.line.line)
      case Some(c) => [Diff(t.typ, c, t.line.line)]
      case None => []
    else []
  }

  /** The traversal order: every line of the tree, file by file, hunk by hunk, segment by segment. */
  function LinesOf(typ: string, lines: seq<Line>): (r: seq<TaggedLine>)
    ensures |r| == |lines|
    ensures forall i :: 0 <= i < |lines| ==> r[i] == TaggedLine(typ, lines[i])
  {
    if lines == [] then [] else LinesOf(typ, lines[..|lines| - 1]) + [TaggedLine(typ, lines[|lines| - 1])]
  }

  function SegmentsLines(segments: seq<Segment>): seq<TaggedLine>
  {
    if segments == [] then []
    else
      var last := segments[|segments| - 1];
      SegmentsLines(segments[..|segments| - 1]) + LinesOf(last.typ, last.lines)
  }

  function HunksLines(hunks: seq<Hunk>): seq<TaggedLine>
  {
    if hunks == [] then [] else HunksLines(hunks[..|hunks| - 1]) + SegmentsLines(hunks[|hunks| - 1].segments)
  }

  function FilesLines(files: seq<PullRequestDiff>): seq<TaggedLine>
  {
    if files == [] then [] else FilesLines(files[..|files| - 1]) + HunksLines(files[|files| - 1].hunks)
  }

  function Traversal(response: PullRequestDiffs): seq<TaggedLine>
  {
    FilesLines(response.diffs)
  }

  /** The per-line contributions, concatenated in order. */
  function Select(ts: seq<TaggedLine>): seq<Diff>
  {
    if ts == [] then [] else Select(ts[..|ts| - 1]) + LineDiffs(ts[|ts| - 1])
  }

  /** What the classifier produces for one pull request's diff. */
  function ResponseDiffs(response: PullRequestDiffs): seq<Diff>
  {
    Select(Traversal(response))
  }

  /** `d` is what the line `t` contributes. */
  predicate Emits(t: TaggedLine, d: Diff)
  {
    IsChangeType(t.typ) && d.typ == t.typ && d.line == t.line.line && Categorize(t.line.line) == Some(d.objectType)
  }

  function CountChanged(ts: seq<TaggedLine>): (n: nat)
    ensures n <= |ts|
  {
    if ts == [] then 0 else CountChanged(ts[..|ts| - 1]) + (if IsChangeType(ts[|ts| - 1].typ) then 1 else 0)
  }

  /**
   * `list_all_reviews`, apis.rs lines 452 to 497: four nested loops over the diff tree
   * that append one `Diff` per recognised line of an added or removed segment.
   */
  method CollectDiffs(response: PullRequestDiffs) returns (diffs: seq<Diff>)
    ensures diffs == ResponseDiffs(response)
  {
    diffs := [];
    for i := 0 to |response.diffs|
      invariant diffs == Select(FilesLines(response.diffs[..i]))
    {
      var diff := response.diffs[i];
      ghost var doneFiles := diffs;
      for j := 0 to |diff.hunks|
        invariant diffs == doneFiles + Select(HunksLines(diff.hunks[..j]))
      {
        var hunk := diff.hunks[j];
        ghost var doneHunks := diffs;
        for k := 0 to |hunk.segments|
          invariant diffs == doneHunks + Select(SegmentsLines(hunk.segments[..k]))
        {
          var segment := hunk.segments[k];
          diffs := AppendSegment(diffs, segment);
          SegmentsStep(hunk.segments, k);
          AppendAssociative(doneHunks, Select(SegmentsLines(hunk.segments[..k])), Select(LinesOf(segment.typ, segment.lines)));
        }
        assert hunk.segments[..|hunk.segments|] == hunk.segments;
        HunksStep(diff.hunks, j);
        AppendAssociative(doneFiles, Select(HunksLines(diff.hunks[..j])), Select(SegmentsLines(hunk.segments)));
      }
      assert diff.hunks[..|diff.hunks|] == diff.hunks;
      FilesStep(response.diffs, i);
    }
    assert response.diffs[..|response.diffs|] == response.diffs;
  }

  /**
   * The body of the segment loop, apis.rs lines 455 to 494: the type test, then the
   * first-match prefix test on each line's trimmed text.
   */
  method AppendSegment(diffs: seq<Diff>, segment: Segment) returns (r: seq<Diff>)
    ensures r == diffs + Select(LinesOf(segment.typ, segment.lines))
  {
    r := diffs;
    if EqIgnoreAsciiCase("ADDED", segment.typ) || EqIgnoreAsciiCase("REMOVED", segment.typ) {
      for l := 0 to |segment.lines|
        invariant r == diffs + Select(LinesOf(segment.typ, segment.lines[..l]))
      {
        var line := segment.lines[l];
        var trimmed := TrimStart(line.line);
        LineDiffsChain(segment.typ, line);
        ghost var before := r;
        if StartsWith(trimmed, PathMarker) {
          r := r + [Diff(segment.typ, PATH, line.line)];
        } else if StartsWith(trimmed, ZallyMarker) {
          r := r + [Diff(segment.typ, ZALLY, line.line)];
        } else if StartsWith(trimmed, PermissionMarker) {
          r := r + [Diff(segment.typ, PERMISSION, line.line)];
        } else if StartsWith(trimmed, AudienceMarker) {
          r := r + [Diff(segment.typ, AUDIENCE, line.line)];
        }
        assert r == before + LineDiffs(TaggedLine(segment.typ, line));
        PrefixStep(segment.typ, segment.lines, l);
        AppendAssociative(diffs, Select(LinesOf(segment.typ, segment.lines[..l])), LineDiffs(TaggedLine(segment.typ, line)));
      }
      assert segment.lines[..|segment.lines|] == segment.lines;
    } else {
      UnchangedSegmentIsSilent(segment.typ, segment.lines);
    }
  }

  // Steps of the loop invariants: one more element of a level appends its lines.

  /** In an added or removed segment, a line contributes what the source's `else if` chain pushes. */
  lemma LineDiffsChain(typ: string, line: Line)
    requires IsChangeType(typ)
    ensures LineDiffs(TaggedLine(typ, line)) ==
      var trimmed := TrimStart(line.line);
      if StartsWith(trimmed, PathMarker) then [Diff(typ, PATH, line.line)]
      else if StartsWith(trimmed, ZallyMarker) then [Diff(typ, ZALLY, line.line)]
      else if StartsWith(trimmed, PermissionMarker) then [Diff(typ, PERMISSION, line.line)]
      else if StartsWith(trimmed, AudienceMarker) then [Diff(typ, AUDIENCE, line.line)]
      else []
  {
    CategorizeChain(line.line);
  }

  lemma AppendAssociative<T>(a: seq<T>, b: seq<T>, c: seq<T>)
    ensures (a + b) + c == a + (b + c)
  {
  }

  lemma PrefixStep(typ: string, lines: seq<Line>, l: nat)
    requires l < |lines|
    ensures Select(LinesOf(typ, lines[..l + 1])) == Select(LinesOf(typ, lines[..l])) + LineDiffs(TaggedLine(typ, lines[l]))
  {
    assert lines[..l + 1][..l] == lines[..l];
  }

  lemma SegmentsStep(segments: seq<Segment>, k: nat)
    requires k < |segments|
    ensures Select(SegmentsLines(segments[..k + 1]))
         == Select(SegmentsLines(segments[..k])) + Select(LinesOf(segments[k].typ, segments[k].lines))
  {
    assert segments[..k + 1][..k] == segments[..k];
    SelectAppend(SegmentsLines(segments[..k]), LinesOf(segments[k].typ, segments[k].lines));
  }

  lemma HunksStep(hunks: seq<Hunk>, j: nat)
    requires j < |hunks|
    ensures Select(HunksLines(hunks[..j + 1])) == Select(HunksLines(hunks[..j])) + Select(SegmentsLines(hunks[j].segments))
  {
    assert hunks[..j + 1][..j] == hunks[..j];
    SelectAppend(HunksLines(hunks[..j]), SegmentsLines(hunks[j].segments));
  }

  lemma FilesStep(files: seq<PullRequestDiff>, i: nat)
    requires i < |files|
    ensures Select(FilesLines(files[..i + 1])) == Select(FilesLines(files[..i])) + Select(HunksLines(files[i].hunks))
  {
    assert files[..i + 1][..i] == files[..i];
    SelectAppend(FilesLines(files[..i]), HunksLines(files[i].hunks));
  }

  // Properties of the classifier.

  /** The report of a concatenation is the concatenation of the reports: lines only append. */
  lemma {:induction false} SelectAppend(a: seq<TaggedLine>, b: seq<TaggedLine>)
    ensures Select(a + b) == Select(a) + Select(b)
  {
    if b == [] {
      assert a + b == a;
    } else {
      var init, last := b[..|b| - 1], b[|b| - 1];
      assert (a + b)[..|a + b| - 1] == a + init && (a + b)[|a + b| - 1] == last;
      assert Select(a + b) == Select(a + init) + LineDiffs(last);
      SelectAppend(a, init);
      AppendAssociative(Select(a), Select(init), LineDiffs(last));
    }
  }

  /** A segment that is neither ADDED nor REMOVED contributes nothing, whatever its lines say. */
  lemma {:induction false} UnchangedSegmentIsSilent(typ: string, lines: seq<Line>)
    requires !IsChangeType(typ)
    ensures Select(LinesOf(typ, lines)) == []
  {
    if lines != [] {
      assert LinesOf(typ, lines)[..|lines| - 1] == LinesOf(typ, lines[..|lines| - 1]);
      UnchangedSegmentIsSilent(typ, lines[..|lines| - 1]);
    }
  }

  /** A line contributes `d` exactly when it emits it. */
  lemma LineDiffsEmits(t: TaggedLine, d: Diff)
    ensures d in LineDiffs(t) <==> Emits(t, d)
  {
  }

  /** Every `Diff` of the report is emitted by some line of the traversal. */
  lemma {:induction false} SelectSound(ts: seq<TaggedLine>, d: Diff)
    requires d in Select(ts)
    ensures exists i :: 0 <= i < |ts| && Emits(ts[i], d)
  {
    var init, last := ts[..|ts| - 1], ts[|ts| - 1];
    assert Select(ts) == Select(init) + LineDiffs(last);
    if d in Select(init) {
      SelectSound(init, d);
      var i :| 0 <= i < |init| && Emits(init[i], d);
      assert ts[i] == init[i];
    } else {
      LineDiffsEmits(last, d);
      assert Emits(ts[|ts| - 1], d);
    }
  }

  /** Every `Diff` a line of the traversal emits is in the report. */
  lemma {:induction false} SelectComplete(ts: seq<TaggedLine>, i: nat, d: Diff)
    requires i < |ts| && Emits(ts[i], d)
    ensures d in Select(ts)
  {
    var init, last := ts[..|ts| - 1], ts[|ts| - 1];
    assert Select(ts) == Select(init) + LineDiffs(last);
    if i < |init| {
      assert init[i] == ts[i];
      SelectComplete(init, i, d);
    } else {
      LineDiffsEmits(last, d);
    }
  }

  /** A `Diff` is in the report exactly when some line of the traversal emits it. */
  lemma SelectMembership(ts: seq<TaggedLine>, d: Diff)
    ensures d in Select(ts) <==> exists i :: 0 <= i < |ts| && Emits(ts[i], d)
  {
    if d in Select(ts) {
      SelectSound(ts, d);
    }
    if exists i :: 0 <= i < |ts| && Emits(ts[i], d) {
      var i :| 0 <= i < |ts| && Emits(ts[i], d);
      SelectComplete(ts, i, d);
    }
  }

  /** At most one `Diff` per line of an added or removed segment. */
  lemma {:induction false} SelectBound(ts: seq<TaggedLine>)
    ensures |Select(ts)| <= CountChanged(ts) <= |ts|
  {
    if ts != [] {
      SelectBound(ts[..|ts| - 1]);
    }
  }

  /** The four markers exclude one another, so the order of the tests does not change the outcome. */
  lemma MarkersExclusive(s: string, c: ObjectType, c': ObjectType)
    requires StartsWith(s, Marker(c)) && StartsWith(s, Marker(c'))
    ensures c == c'
  {
    assert s[0] == Marker(c)[0] && s[0] == Marker(c')[0];
    if c != PATH && c' != PATH {
      assert s[2] == Marker(c)[2] && s[2] == Marker(c')[2];
    }
  }

  /** Each recognised line gets the one category whose marker starts its trimmed text. */
  lemma CategorizeByMarker(text: string, c: ObjectType)
    ensures Categorize(text) == Some(c) <==> StartsWith(TrimStart(text), Marker(c))
  {
    var trimmed := TrimStart(text);
    CategorizeChain(text);
    if StartsWith(trimmed, Marker(c)) {
      match Categorize(text)
      case Some(c') =>
        assert StartsWith(trimmed, Marker(c'));
        MarkersExclusive(trimmed, c, c');
      case None =>
    }
  }

  /** A line is dropped exactly when its trimmed text starts with none of the markers. */
  lemma CategorizeNone(text: string)
    ensures Categorize(text) == None <==> forall c: ObjectType :: !StartsWith(TrimStart(text), Marker(c))
  {
    if Categorize(text) == None {
      forall c: ObjectType ensures !StartsWith(TrimStart(text), Marker(c)) {
        CategorizeByMarker(text, c);
      }
    } else {
      CategorizeByMarker(text, Categorize(text).value);
    }
  }

  /** The test looks at the left-trimmed text: leading whitespace changes nothing. */
  lemma LeadingWhitespaceIgnored(ws: string, text: string)
    requires AllWhitespace(ws)
    ensures Categorize(ws + text) == Categorize(text)
  {
    TrimStartSkipsWhitespace(ws, text);
  }

  /** Upper, lower or mixed case: ADDED and REMOVED are the only types that are classified. */
  lemma ChangeTypeIgnoresCase(typ: string)
    ensures IsChangeType(typ) <==> AsciiLowercase(typ) == "added" || AsciiLowercase(typ) == "removed"
  {
    EqIgnoreAsciiCaseIsLowercaseEquality("ADDED", typ);
    EqIgnoreAsciiCaseIsLowercaseEquality("REMOVED", typ);
    assert AsciiLowercase("ADDED") == "added";
    assert AsciiLowercase("REMOVED") == "removed";
  }

  lemma CategorizePathExample()
    ensures Categorize("/pets") == Some(PATH)
  {
    assert LeadingWhitespace("/pets") == 0;
    assert StartsWith("/pets", PathMarker);
    CategorizeByMarker("/pets", PATH);
  }

  lemma CategorizeAudienceExample()
    ensures Categorize("x-audience: public") == Some(AUDIENCE)
  {
    assert LeadingWhitespace("x-audience: public") == 0;
    assert StartsWith("x-audience: public", AudienceMarker);
    CategorizeByMarker("x-audience: public", AUDIENCE);
  }

  lemma CategorizeOtherExample()
    ensures Categorize("no-op") == None
  {
    assert LeadingWhitespace("no-op") == 0;
    assert "no-op"[..1] != PathMarker;
    CategorizeNone("no-op");
  }

  /** A tree with a single segment reports that segment's lines. */
  lemma SingleSegmentTree(fromHash: string, toHash: string, segment: Segment)
    ensures ResponseDiffs(PullRequestDiffs(fromHash, toHash, [PullRequestDiff([Hunk([segment])])])) ==
            Select(LinesOf(segment.typ, segment.lines))
  {
    var ts := LinesOf(segment.typ, segment.lines);
    var segments, hunks, files := [segment], [Hunk([segment])], [PullRequestDiff([Hunk([segment])])];
    assert segments[..0] == [] && hunks[..0] == [] && files[..0] == [];
    assert SegmentsLines(segments) == SegmentsLines([]) + ts == ts;
    assert HunksLines(hunks) == HunksLines([]) + SegmentsLines(segments) == ts;
    assert FilesLines(files) == FilesLines([]) + HunksLines(hunks) == ts;
  }

  lemma SelectThree(a: TaggedLine, b: TaggedLine, c: TaggedLine)
    ensures Select([a, b, c]) == LineDiffs(a) + LineDiffs(b) + LineDiffs(c)
  {
    assert [a, b, c][..2] == [a, b] && [a, b][..1] == [a] && [a][..0] == [];
    assert Select([a]) == Select([]) + LineDiffs(a) == LineDiffs(a);
    assert Select([a, b]) == Select([a]) + LineDiffs(b);
    assert Select([a, b, c]) == Select([a, b]) + LineDiffs(c);
  }

  /**
   * A change segment of three lines, the first two recognised and the third
   * not, reports the first two in order.
   */
  lemma ThreeLineSegment(typ: string, first: Line, second: Line, third: Line, c1: ObjectType, c2: ObjectType)
    requires IsChangeType(typ)
    requires Categorize(first.line) == Some(c1) && Categorize(second.line) == Some(c2) && Categorize(third.line) == None
    ensures ResponseDiffs(PullRequestDiffs("a", "b", [PullRequestDiff([Hunk([Segment(typ, [first, second, third])])])])) ==
            [Diff(typ, c1, first.line), Diff(typ, c2, second.line)]
  {
    var lines := [first, second, third];
    SingleSegmentTree("a", "b", Segment(typ, lines));
    assert LinesOf(typ, lines) == [TaggedLine(typ, first), TaggedLine(typ, second), TaggedLine(typ, third)];
    SelectThree(TaggedLine(typ, first), TaggedLine(typ, second), TaggedLine(typ, third));
  }

  /**
   * One added segment holding a path, an audience annotation and an
   * unrelated line: the path and the audience are reported, in that order.
   */
  lemma AddedSegmentExample()
    ensures var lines := [Line(1, 1, "/pets", false), Line(2, 2, "x-audience: public", false), Line(3, 3, "no-op", false)];
            var response := PullRequestDiffs("a", "b", [PullRequestDiff([Hunk([Segment("ADDED", lines)])])]);
            ResponseDiffs(response) == [Diff("ADDED", PATH, "/pets"), Diff("ADDED", AUDIENCE, "x-audience: public")]
  {
    EqIgnoreAsciiCaseReflexive("ADDED");
    CategorizePathExample();
    CategorizeAudienceExample();
    CategorizeOtherExample();
    ThreeLineSegment("ADDED", Line(1, 1, "/pets", false), Line(2, 2, "x-audience: public", false), Line(3, 3, "no-op", false), PATH, AUDIENCE);
  }
}
