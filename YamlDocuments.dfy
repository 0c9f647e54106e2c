/**
  `splitYAMLDocuments` (internal/verify/verify.go): a multi-document YAML
  text is cut into documents line by line. A line is a document marker
  when it reads `---` once the white space around it is trimmed (a
  line-based reading of the document markers of section 9.1.2 of YAML
  1.2). The other lines between two markers form a document, each line
  followed by a newline; a run with no lines forms none.
 */
module YamlDocuments {
  import opened Strings
  import opened Sorting

  predicate IsMarker(line: string)
  {
    TrimSpace(line) == "---"
  }

  /** The splitter's state: the documents finished so far, and the text
      of the document being built. */
  datatype Splitter = Splitter(documents: seq<string>, current: string)

  /** The effect of one line: a marker finishes a non-empty current
      document; any other line is added to it with its newline. */
  function SplitStep(st: Splitter, line: string): Splitter
  {
    if IsMarker(line) then
      if |st.current| > 0 then Splitter(st.documents + [st.current], "") else st
    else st.(current := st.current + line + "\n")
  }

  /** The state after the lines, in order. */
  function SplitLines(lines: seq<string>): Splitter
  {
    if |lines| == 0 then Splitter([], "")
    else SplitStep(SplitLines(lines[..|lines| - 1]), lines[|lines| - 1])
  }

  /** After the last line, a non-empty current document is finished too. */
  function Flush(st: Splitter): seq<string>
  {
    if |st.current| > 0 then st.documents + [st.current] else st.documents
  }

  /** The documents of a text. The text is cut into lines at every
      newline, so a final newline leaves an empty last line, which adds a
      newline to the last document. */
  function Documents(content: string): seq<string>
  {
    Flush(SplitLines(Split(content, '\n')))
  }

  /** `splitYAMLDocuments`: a builder for the current document, reset
      whenever a marker finishes it. */
  method SplitYamlDocuments(content: string) returns (documents: seq<string>)
    ensures documents == Documents(content)
  {
    documents := [];
    var current := "";
    var lines := Split(content, '\n');
    for i := 0 to |lines|
      invariant documents == SplitLines(lines[..i]).documents
      invariant current == SplitLines(lines[..i]).current
    {
      assert lines[..i + 1][..i] == lines[..i];
      var line := lines[i];
      if IsMarker(line) {
        if |current| > 0 {
          documents := documents + [current];
          current := "";
        }
        continue;
      }
      current := current + line;
      current := current + "\n";
    }
    assert lines[..|lines|] == lines;
    if |current| > 0 {
      documents := documents + [current];
    }
  }

  // ---------------------------------------------------------------------
  // Reference definition: the runs of lines between markers
  // ---------------------------------------------------------------------

  /** Every line of `run` is a line of `lines` and not a marker. */
  ghost predicate LinesFrom(run: seq<string>, lines: seq<string>)
  {
    forall l | l in run :: l in lines && !IsMarker(l)
  }

  /** The runs of non-marker lines that the markers separate, empty runs
      included: one more run than there are markers. */
  ghost function Runs(lines: seq<string>): (r: seq<seq<string>>)
    ensures |r| > 0
    ensures forall run | run in r :: LinesFrom(run, lines)
  {
    if |lines| == 0 then [[]]
    else
      var init := lines[..|lines| - 1];
      var s := Runs(init);
      var line := lines[|lines| - 1];
      assert forall l | l in init :: l in lines;
      assert forall run | run in s :: LinesFrom(run, lines);
      if IsMarker(line) then s + [[]]
      else
        var last := s[|s| - 1];
        assert last in s;
        assert forall run | run in s[..|s| - 1] :: run in s;
        s[..|s| - 1] + [last + [line]]
  }

  /** The runs that hold at least one line, in order. */
  ghost function NonEmpty(runs: seq<seq<string>>): (r: seq<seq<string>>)
    ensures forall run | run in r :: |run| > 0 && run in runs
  {
    if |runs| == 0 then []
    else
      var init := NonEmpty(runs[..|runs| - 1]);
      var last := runs[|runs| - 1];
      assert forall run | run in runs[..|runs| - 1] :: run in runs;
      if |last| > 0 then init + [last] else init
  }

  lemma TerminatedEmpty(lines: seq<string>)
    ensures |Terminated(lines)| == 0 <==> |lines| == 0
  {
  }

  lemma TerminatedSnoc(lines: seq<string>, line: string)
    ensures Terminated(lines + [line]) == Terminated(lines) + line + "\n"
  {
    TerminatedAppend(lines, [line]);
    assert [line][1..] == [];
  }

  /** One more line: a marker opens a new run, any other line extends
      the open one. */
  lemma RunsSnoc(lines: seq<string>, x: string)
    ensures var s := Runs(lines);
      Runs(lines + [x]) == if IsMarker(x) then s + [[]] else s[..|s| - 1] + [s[|s| - 1] + [x]]
  {
    assert (lines + [x])[..|lines|] == lines;
  }

  /** Lines that are not markers extend the open run. */
  lemma {:induction false} RunsExtend(lines: seq<string>, more: seq<string>)
    requires forall l | l in more :: !IsMarker(l)
    ensures var s := Runs(lines);
      Runs(lines + more) == s[..|s| - 1] + [s[|s| - 1] + more]
    decreases |more|
  {
    var s := Runs(lines);
    if |more| == 0 {
      assert lines + more == lines;
      LastGrows(s, [], []);
    } else {
      var m := |more|;
      var x := more[m - 1];
      var init := more[..m - 1];
      assert x in more;
      InitLast(more);
      assert lines + init + [x] == lines + more;
      RunsExtend(lines, init);
      RunsSnoc(lines + init, x);
      LastGrows(s, init, [x]);
    }
  }

  /** Filling a new, empty last run. */
  lemma FillEmptyRun<T>(init: seq<seq<T>>, last: seq<T>)
    ensures var s := init + [[]];
      s[..|s| - 1] + [s[|s| - 1] + last] == init + [last]
  {
    var s := init + [[]];
    assert s[..|s| - 1] == init;
    assert s[|s| - 1] + last == last;
  }

  lemma DashesAreMarker()
    ensures IsMarker("---")
  {
    assert TrimSpace("---") == "---";
  }

  /** Extending the last run twice extends it by both pieces. */
  lemma LastGrows<T>(s: seq<seq<T>>, a: seq<T>, b: seq<T>)
    requires |s| > 0
    ensures var t := s[..|s| - 1] + [s[|s| - 1] + a];
      t[..|t| - 1] + [t[|t| - 1] + b] == s[..|s| - 1] + [s[|s| - 1] + (a + b)]
    ensures s[..|s| - 1] + [s[|s| - 1] + []] == s
  {
    var t := s[..|s| - 1] + [s[|s| - 1] + a];
    assert t[..|t| - 1] == s[..|s| - 1];
    assert (s[|s| - 1] + a) + b == s[|s| - 1] + (a + b);
    assert s[|s| - 1] + [] == s[|s| - 1];
  }

  /** Runs that all hold lines are all kept. */
  lemma {:induction false} NonEmptyAll(runs: seq<seq<string>>)
    requires forall run | run in runs :: |run| > 0
    ensures NonEmpty(runs) == runs
  {
    if |runs| > 0 {
      assert forall run | run in runs[..|runs| - 1] :: run in runs;
      NonEmptyAll(runs[..|runs| - 1]);
      assert runs[|runs| - 1] in runs;
      InitLast(runs);
    }
  }

  /** The splitter's state after some lines: the non-empty runs closed by
      a marker are the finished documents, and the open run is the current
      one. */
  lemma {:induction false} SplitLinesRuns(lines: seq<string>)
    ensures var s := Runs(lines);
      SplitLines(lines).documents == Map(Terminated, NonEmpty(s[..|s| - 1]))
      && SplitLines(lines).current == Terminated(s[|s| - 1])
  {
    if |lines| > 0 {
      var init := lines[..|lines| - 1];
      var line := lines[|lines| - 1];
      var s := Runs(init);
      SplitLinesRuns(init);
      var last := s[|s| - 1];
      if IsMarker(line) {
        assert Runs(lines) == s + [[]];
        assert (s + [[]])[..|s|] == s;
        InitLast(s);
        TerminatedEmpty(last);
        if |last| > 0 {
          MapSnoc(Terminated, NonEmpty(s[..|s| - 1]), last);
        }
      } else {
        var s' := s[..|s| - 1] + [last + [line]];
        assert Runs(lines) == s';
        assert s'[..|s'| - 1] == s[..|s| - 1];
        TerminatedSnoc(last, line);
      }
    }
  }

  /** The documents are exactly the non-empty runs of lines between
      markers, each line followed by a newline. */
  lemma DocumentsAreRuns(content: string)
    ensures Documents(content) == Map(Terminated, NonEmpty(Runs(Split(content, '\n'))))
  {
    var lines := Split(content, '\n');
    var s := Runs(lines);
    SplitLinesRuns(lines);
    var last := s[|s| - 1];
    InitLast(s);
    TerminatedEmpty(last);
    if |last| > 0 {
      MapSnoc(Terminated, NonEmpty(s[..|s| - 1]), last);
    }
  }

  /** The text of one non-empty run of newline-free, non-marker lines. */
  lemma RunClean(run: seq<string>)
    requires |run| > 0
    requires forall l | l in run :: '\n' !in l && !IsMarker(l)
    ensures var d := Terminated(run);
      |d| > 0 && d[|d| - 1] == '\n' && forall l | l in Split(d, '\n') :: !IsMarker(l)
  {
    TerminatedSnoc(run[..|run| - 1], run[|run| - 1]);
    InitLast(run);
    SplitTerminated(run);
    assert TrimSpace("") == "";
  }

  /** Where an element of a mapped sequence comes from. */
  lemma MapIndex<T, U>(f: T -> U, s: seq<T>, y: U) returns (k: nat)
    requires y in Map(f, s)
    ensures k < |s| && y == f(s[k])
  {
    k :| k < |Map(f, s)| && Map(f, s)[k] == y;
  }

  lemma RunsClean(runs: seq<seq<string>>)
    requires forall run | run in runs :: |run| > 0 && forall l | l in run :: '\n' !in l && !IsMarker(l)
    ensures forall d | d in Map(Terminated, runs) ::
      |d| > 0 && d[|d| - 1] == '\n' && forall l | l in Split(d, '\n') :: !IsMarker(l)
  {
    forall d | d in Map(Terminated, runs)
      ensures |d| > 0 && d[|d| - 1] == '\n' && forall l | l in Split(d, '\n') :: !IsMarker(l)
    {
      var k := MapIndex(Terminated, runs, d);
      assert runs[k] in runs;
      RunClean(runs[k]);
    }
  }

  /** No document is empty, consecutive markers included, and no line of a
      document is a marker. */
  lemma DocumentsClean(content: string)
    ensures forall d | d in Documents(content) ::
      |d| > 0 && d[|d| - 1] == '\n' && forall l | l in Split(d, '\n') :: !IsMarker(l)
  {
    var lines := Split(content, '\n');
    var runs := NonEmpty(Runs(lines));
    DocumentsAreRuns(content);
    forall run | run in runs
      ensures |run| > 0 && forall l | l in run :: '\n' !in l && !IsMarker(l)
    {
      assert LinesFrom(run, lines);
    }
    RunsClean(runs);
  }

  // ---------------------------------------------------------------------
  // Nothing but the markers is lost
  // ---------------------------------------------------------------------

  /** The lines that are not markers, in order. */
  ghost function NonMarkers(lines: seq<string>): seq<string>
  {
    if |lines| == 0 then []
    else
      var init := NonMarkers(lines[..|lines| - 1]);
      if IsMarker(lines[|lines| - 1]) then init else init + [lines[|lines| - 1]]
  }

  ghost function Flatten(runs: seq<seq<string>>): seq<string>
  {
    if |runs| == 0 then [] else Flatten(runs[..|runs| - 1]) + runs[|runs| - 1]
  }

  function Concat(docs: seq<string>): string
  {
    if |docs| == 0 then "" else Concat(docs[..|docs| - 1]) + docs[|docs| - 1]
  }

  lemma {:induction false} FlattenRuns(lines: seq<string>)
    ensures Flatten(Runs(lines)) == NonMarkers(lines)
  {
    if |lines| > 0 {
      var init, line := lines[..|lines| - 1], lines[|lines| - 1];
      FlattenRuns(init);
      FlattenRunsStep(init, line);
      InitLast(lines);
    }
  }

  /** One more line keeps the flattened runs equal to the non-marker
      lines. */
  lemma FlattenRunsStep(init: seq<string>, line: string)
    requires Flatten(Runs(init)) == NonMarkers(init)
    ensures Flatten(Runs(init + [line])) == NonMarkers(init + [line])
  {
    RunsSnoc(init, line);
    NonMarkersSnoc(init, line);
    var s := Runs(init);
    if IsMarker(line) {
      FlattenEmptyRun(s);
    } else {
      InitLast(s);
      FlattenLastGrows(s[..|s| - 1], s[|s| - 1], line);
    }
  }

  lemma NonMarkersSnoc(init: seq<string>, line: string)
    ensures NonMarkers(init + [line]) == if IsMarker(line) then NonMarkers(init) else NonMarkers(init) + [line]
  {
    assert (init + [line])[..|init|] == init;
  }

  /** Flattening after a new empty run. */
  lemma FlattenEmptyRun(s: seq<seq<string>>)
    ensures Flatten(s + [[]]) == Flatten(s)
  {
    var e := s + [[]];
    assert e[..|e| - 1] == s && e[|e| - 1] == [];
    assert Flatten(e) == Flatten(s) + [];
  }

  /** Flattening after one more line in the last run. */
  lemma FlattenLastGrows(p: seq<seq<string>>, last: seq<string>, line: string)
    ensures Flatten(p + [last + [line]]) == Flatten(p + [last]) + [line]
  {
    var a, b := p + [last + [line]], p + [last];
    assert a[..|a| - 1] == p && a[|a| - 1] == last + [line];
    assert b[..|b| - 1] == p && b[|b| - 1] == last;
    var fp := Flatten(p);
    assert fp + (last + [line]) == (fp + last) + [line];
  }

  lemma {:induction false} FlattenNonEmpty(runs: seq<seq<string>>)
    ensures Flatten(NonEmpty(runs)) == Flatten(runs)
  {
    if |runs| > 0 {
      var init := runs[..|runs| - 1];
      FlattenNonEmpty(init);
      var last := runs[|runs| - 1];
      if |last| > 0 {
        assert (NonEmpty(init) + [last])[..|NonEmpty(init)|] == NonEmpty(init);
      } else {
        assert last == [];
      }
    }
  }

  lemma ConcatMapSnoc<T>(f: T -> string, s: seq<T>, x: T)
    ensures Concat(Map(f, s + [x])) == Concat(Map(f, s)) + f(x)
  {
    MapSnoc(f, s, x);
    var m := Map(f, s + [x]);
    assert m[..|s|] == Map(f, s);
  }

  lemma {:induction false} ConcatTerminated(runs: seq<seq<string>>)
    ensures Concat(Map(Terminated, runs)) == Terminated(Flatten(runs))
  {
    if |runs| > 0 {
      var init, last := runs[..|runs| - 1], runs[|runs| - 1];
      ConcatTerminated(init);
      InitLast(runs);
      ConcatMapSnoc(Terminated, init, last);
      TerminatedAppend(Flatten(init), last);
    }
  }

  /** Concatenating the documents gives back every line of the input that
      is not a marker, in order, each followed by a newline. */
  lemma DocumentsKeepLines(content: string)
    ensures Concat(Documents(content)) == Terminated(NonMarkers(Split(content, '\n')))
  {
    var lines := Split(content, '\n');
    DocumentsAreRuns(content);
    ConcatTerminated(NonEmpty(Runs(lines)));
    FlattenNonEmpty(Runs(lines));
    FlattenRuns(lines);
  }
}
