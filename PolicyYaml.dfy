/**
  Writing policies as one multi-document YAML file
  (internal/synth/yaml.go). The YAML encoder is foreign code: it is a
  parameter `marshal` that turns a policy into its text or fails with a
  message. Creating the directory and writing the file are I/O: their
  outcomes are parameters too, and the method reports which of them it
  reached.
 */
module PolicyYaml {
  import opened Wrappers
  import opened Strings
  import opened Sorting
  import opened PolicyTypes
  import opened YamlDocuments

  /** What is written before every document but the first. */
  const Separator := "---\n"

  /** The texts of all policies in order, or the first failure. */
  function MarshalAll(policies: seq<Policy>, marshal: Policy -> Result<string, string>)
    : (r: Result<seq<string>, string>)
    ensures r.Success? <==> forall i | 0 <= i < |policies| :: marshal(policies[i]).Success?
    ensures r.Success? ==>
      |r.value| == |policies| && forall i | 0 <= i < |policies| :: marshal(policies[i]) == Success(r.value[i])
    ensures r.Failure? ==> exists i | 0 <= i < |policies| ::
      marshal(policies[i]) == Failure(r.error) && forall j | 0 <= j < i :: marshal(policies[j]).Success?
  {
    if |policies| == 0 then Success([])
    else
      var init := policies[..|policies| - 1];
      var last := policies[|policies| - 1];
      assert forall i | 0 <= i < |init| :: init[i] == policies[i];
      match MarshalAll(init, marshal)
      case Failure(e) => Failure(e)
      case Success(docs) =>
        match marshal(last)
        case Failure(e) => Failure(e)
        case Success(d) => Success(docs + [d])
  }

  /** The file's text, or the error that stops the write. */
  function Render(policies: seq<Policy>, marshal: Policy -> Result<string, string>): Result<string, string>
  {
    if |policies| == 0 then Failure("no policies to write")
    else match MarshalAll(policies, marshal)
      case Failure(e) => Failure("failed to marshal policy to YAML: " + e)
      case Success(docs) => Success(Join(docs, Separator))
  }

  /**
    `WritePoliciesToFile`: rejects an empty list before touching the file
    system, creates the directory, builds the text document by document
    (stopping at the first policy that cannot be encoded) and writes it.
    `triedDir` tells whether the directory was created, `written` the text
    handed to the file write, if it was reached.
   */
  method WritePoliciesToFile(policies: seq<Policy>, marshal: Policy -> Result<string, string>,
                             mkdirError: Option<string>, writeError: Option<string>)
    returns (err: Option<string>, triedDir: bool, written: Option<string>)
    ensures |policies| == 0 ==> err == Some("no policies to write") && !triedDir && written == None
    ensures |policies| > 0 ==> triedDir
    ensures |policies| > 0 && mkdirError.Some? ==>
      err == Some("failed to create output directory: " + mkdirError.value) && written == None
    ensures |policies| > 0 && mkdirError.None? ==>
      match Render(policies, marshal)
      case Failure(e) => err == Some(e) && written == None
      case Success(text) =>
        written == Some(text)
        && err == (if writeError.Some? then Some("failed to write policies file: " + writeError.value) else None)
  {
    triedDir, written := false, None;
    if |policies| == 0 {
      return Some("no policies to write"), triedDir, written;
    }
    triedDir := true;
    if mkdirError.Some? {
      return Some("failed to create output directory: " + mkdirError.value), triedDir, written;
    }
    var content := "";
    ghost var docs: seq<string> := [];
    for i := 0 to |policies|
      invariant MarshalAll(policies[..i], marshal) == Success(docs)
      invariant content == Join(docs, Separator)
    {
      assert policies[..i + 1][..i] == policies[..i];
      if i > 0 {
        content := content + Separator;
      }
      var data := marshal(policies[i]);
      if data.Failure? {
        MarshalFailsFrom(policies, marshal, i + 1);
        return Some("failed to marshal policy to YAML: " + data.error), triedDir, written;
      }
      JoinSnoc(docs, data.value, Separator);
      content := content + data.value;
      docs := docs + [data.value];
    }
    assert policies[..|policies|] == policies;
    written := Some(content);
    if writeError.Some? {
      return Some("failed to write policies file: " + writeError.value), triedDir, written;
    }
    return None, triedDir, written;
  }

  /** A failure in a prefix is the failure of the whole list. */
  lemma {:induction false} MarshalFailsFrom(policies: seq<Policy>, marshal: Policy -> Result<string, string>, n: nat)
    requires n <= |policies| && MarshalAll(policies[..n], marshal).Failure?
    ensures MarshalAll(policies, marshal) == MarshalAll(policies[..n], marshal)
    decreases |policies| - n
  {
    if n < |policies| {
      assert policies[..n + 1][..n] == policies[..n];
      MarshalFailsFrom(policies, marshal, n + 1);
    } else {
      assert policies[..n] == policies;
    }
  }

  /** `PolicyToYAML`: the text of one policy, or the encoder's error. */
  function PolicyToYaml(policy: Policy, marshal: Policy -> Result<string, string>): (r: Result<string, string>)
    ensures r.Success? <==> marshal(policy).Success?
    ensures r.Success? ==> r.value == marshal(policy).value
    ensures r.Failure? ==> r.error == "failed to marshal policy to YAML: " + marshal(policy).error
  {
    match marshal(policy)
    case Failure(e) => Failure("failed to marshal policy to YAML: " + e)
    case Success(data) => Success(data)
  }

  /** A file of one policy holds exactly what `PolicyToYAML` returns. */
  lemma SingleFileIsPolicyText(policy: Policy, marshal: Policy -> Result<string, string>)
    ensures Render([policy], marshal) == PolicyToYaml(policy, marshal)
  {
    assert [policy][..0] == [];
  }

  // ---------------------------------------------------------------------
  // Layout of the file
  // ---------------------------------------------------------------------

  function TotalLength(docs: seq<string>): nat
  {
    if |docs| == 0 then 0 else TotalLength(docs[..|docs| - 1]) + |docs[|docs| - 1]|
  }

  /** n documents are joined with exactly n - 1 separators. */
  lemma {:induction false} JoinLength(docs: seq<string>, sep: string)
    requires |docs| > 0
    ensures |Join(docs, sep)| == TotalLength(docs) + (|docs| - 1) * |sep|
  {
    var n := |docs|;
    var init, last := docs[..n - 1], docs[n - 1];
    InitLast(docs);
    JoinSnoc(init, last, sep);
    assert TotalLength(docs) == TotalLength(init) + |last|;
    if n > 1 {
      JoinLength(init, sep);
      assert |Join(docs, sep)| == |Join(init, sep)| + |sep| + |last|;
      assert (n - 1) * |sep| == (n - 2) * |sep| + |sep|;
    } else {
      assert init == [];
    }
  }

  /** The lines of documents given as runs of lines, with a `---` line
      between neighbouring runs. */
  ghost function Interleave(runs: seq<seq<string>>): seq<string>
    requires |runs| > 0
  {
    if |runs| == 1 then runs[0]
    else Interleave(runs[..|runs| - 1]) + ["---"] + runs[|runs| - 1]
  }

  lemma {:induction false} InterleaveNoNewline(runs: seq<seq<string>>)
    requires |runs| > 0
    requires forall run | run in runs :: forall l | l in run :: '\n' !in l
    ensures forall l | l in Interleave(runs) :: '\n' !in l
  {
    var n := |runs|;
    assert runs[n - 1] in runs;
    if n > 1 {
      var init := runs[..n - 1];
      assert forall run | run in init :: run in runs;
      InterleaveNoNewline(init);
      var lines := Interleave(init) + ["---"] + runs[n - 1];
      assert forall l | l in lines :: l in Interleave(init) || l == "---" || l in runs[n - 1];
    }
  }

  /** The splitter's runs of the interleaved lines are the runs themselves. */
  lemma {:induction false} RunsInterleave(runs: seq<seq<string>>)
    requires |runs| > 0
    requires forall run | run in runs :: forall l | l in run :: !IsMarker(l)
    ensures Runs(Interleave(runs)) == runs
  {
    var n := |runs|;
    var last := runs[n - 1];
    assert last in runs;
    if n == 1 {
      assert [] + last == last;
      RunsExtend([], last);
    } else {
      var init := runs[..n - 1];
      assert forall run | run in init :: run in runs;
      RunsInterleave(init);
      RunsInterleaveStep(init, last);
      InitLast(runs);
    }
  }

  /** A `---` line and the lines of one more run add that run. */
  lemma RunsInterleaveStep(init: seq<seq<string>>, last: seq<string>)
    requires |init| > 0 && Runs(Interleave(init)) == init
    requires forall l | l in last :: !IsMarker(l)
    ensures Runs(Interleave(init) + ["---"] + last) == init + [last]
  {
    DashesAreMarker();
    RunsSnoc(Interleave(init), "---");
    RunsExtend(Interleave(init) + ["---"], last);
    FillEmptyRun(init, last);
  }

  lemma {:induction false} JoinTerminated(runs: seq<seq<string>>)
    requires |runs| > 0
    ensures Join(Map(Terminated, runs), Separator) == Terminated(Interleave(runs))
  {
    var n := |runs|;
    if n > 1 {
      var init, last := runs[..n - 1], runs[n - 1];
      JoinTerminated(init);
      InitLast(runs);
      MapSnoc(Terminated, init, last);
      var docs := Map(Terminated, init);
      JoinSnoc(docs, Terminated(last), Separator);
      assert Join(Map(Terminated, runs), Separator) == Join(docs, Separator) + Separator + Terminated(last);
      var lines := Interleave(init);
      assert Interleave(runs) == lines + ["---"] + last;
      TerminatedAppend(lines + ["---"], last);
      TerminatedAppend(lines, ["---"]);
      MarkerLine();
    }
  }

  lemma MarkerLine()
    ensures Terminated(["---"]) == Separator
  {
    assert ["---"][1..] == [];
  }

  /**
    What the writer joins, the verifier's splitter cuts back into the same
    documents, for documents that are non-empty runs of newline-free lines
    none of which is a marker. The final newline of the file is followed
    by an empty last line, which the splitter adds to the last document:
    that document comes back as `Terminated(run + [""])`, its text with one
    more newline (`TerminatedSnoc`).
   */
  lemma WrittenFileSplitsBack(runs: seq<seq<string>>)
    requires |runs| > 0
    requires forall run | run in runs :: |run| > 0 && forall l | l in run :: '\n' !in l && !IsMarker(l)
    ensures var n := |runs|;
      Documents(Join(Map(Terminated, runs), Separator)) == Map(Terminated, runs[..n - 1] + [runs[n - 1] + [""]])
  {
    JoinTerminated(runs);
    SplitBackRuns(runs);
  }

  /** The splitter's documents of the interleaved lines. */
  lemma SplitBackRuns(runs: seq<seq<string>>)
    requires |runs| > 0
    requires forall run | run in runs :: |run| > 0 && forall l | l in run :: '\n' !in l && !IsMarker(l)
    ensures var n := |runs|;
      Documents(Terminated(Interleave(runs))) == Map(Terminated, runs[..n - 1] + [runs[n - 1] + [""]])
  {
    var n := |runs|;
    var lines := Interleave(runs);
    InterleaveNoNewline(runs);
    RunsInterleave(runs);
    var text := Terminated(lines);
    SplitTerminated(lines);
    DocumentsAreRuns(text);
    assert Documents(text) == Map(Terminated, NonEmpty(Runs(lines + [""])));
    assert !IsMarker("") by { assert TrimSpace("") == ""; }
    RunsSnoc(lines, "");
    var back := runs[..n - 1] + [runs[n - 1] + [""]];
    assert Runs(lines + [""]) == back;
    assert forall run | run in back :: |run| > 0 by {
      assert forall run | run in runs[..n - 1] :: run in runs;
    }
    NonEmptyAll(back);
  }
}
