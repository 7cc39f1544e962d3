/**
 * One turn of the shell's loop (lines 67-148 of main.c) on a line that is
 * not `exit`: the pipeline builder, the fork loop and the parent's closing
 * of every pipe end.
 */
module Shell {
  import opened CStrings
  import opened Tokens
  import opened Split
  import opened Redirect
  import opened Descriptors
  import opened Pipeline
  import opened Wiring

  datatype LineResult =
    | Crashed     // the builder dereferenced NULL
    | ForkFailed  // a `fork` failed: the shell exits with status 1
    | Ran         // every child was started

  /**
   * The child of stage `k` of `n`, with its stage `st`, started from the
   * shell's table `E0` whose builder began at channel `c0`: it has
   * exactly the shell's descriptors; descriptor 0 is the previous stage's
   * channel, or for the first stage its input file, or the shell's own;
   * descriptor 1 is the output file, or the stage's own channel unless it
   * is the last, or the shell's own; every other descriptor is the shell's.
   */
  ghost predicate StageWired(E0: map<nat, Endpoint>, c0: nat, C: map<nat, Endpoint>, k: nat, n: nat, st: Stage,
                             inOpenFails: bool, outOpenFails: bool) {
    0 in E0 && 1 in E0
    && C.Keys == E0.Keys
    && C[0] == (if k > 0 then PipeRead(c0 + k - 1)
                else if st.input.Some? && !inOpenFails then File(st.input.value, ReadOnly)
                else E0[0])
    && C[1] == (if st.output.Some? && !outOpenFails then File(st.output.value, ReadWriteCreate)
                else if k != n - 1 then PipeWrite(c0 + k)
                else E0[1])
    && forall fd | fd in C && 1 < fd :: C[fd] == E0[fd]
  }

  /** `execvp` on the node's program and argument vector runs the stage's words. */
  ghost predicate Runs(b: seq<char>, outcome: Outcome, st: Stage) {
    outcome.Exec?
    && |outcome.argv| == |st.words| + 1 && outcome.argv[|st.words|] == Null
    && outcome.program == outcome.argv[0]
    && forall j | 0 <= j < |st.words| ::
         outcome.argv[j].At? && HasNul(b, outcome.argv[j].index) && CStr(b, outcome.argv[j].index) == st.words[j]
  }

  /** Nodes that denote their stages give the stages' file names and words. */
  lemma NodesMeaning(b: seq<char>, views: seq<NodeFields>, stages: seq<Stage>, lo: nat, hi: nat)
    requires ViewsDenote(b, views, stages, lo, hi)
    ensures NamesReadable(b, views)
    ensures forall k | 0 <= k < |views| ::
      FileName(b, views[k].infile) == stages[k].input && FileName(b, views[k].outfile) == stages[k].output
      && Runs(b, Exec(views[k].programPath, views[k].argv), stages[k])
  {
    forall k | 0 <= k < |views|
      ensures (views[k].infile.At? ==> HasNul(b, views[k].infile.index))
              && (views[k].outfile.At? ==> HasNul(b, views[k].outfile.index))
      ensures FileName(b, views[k].infile) == stages[k].input && FileName(b, views[k].outfile) == stages[k].output
      ensures Runs(b, Exec(views[k].programPath, views[k].argv), stages[k])
    {
      var v, st := views[k], stages[k];
      assert NodeView(b, v.programPath, v.argv, v.infile, v.outfile, st, lo, hi);
      assert forall j | 0 <= j < |st.words| :: v.argv[j] == v.argv[..|st.words|][j];
    }
  }

  /** The table `WireChild` leaves, read in terms of the shell's table and the stage. */
  lemma ChildMeaning(E0: map<nat, Endpoint>, c0: nat, P: map<nat, Endpoint>, b: seq<char>,
                     views: seq<NodeFields>, stages: seq<Stage>, lo: nat, hi: nat, k: nat,
                     inOpenFails: bool, outOpenFails: bool)
    requires PipesAdded(E0, c0, P, views) && 0 in E0 && 1 in E0
    requires ViewsDenote(b, views, stages, lo, hi) && k < |views|
    ensures PipesAbove(P, views) && NamesReadable(b, views)
    ensures StageWired(E0, c0, ChildTable(P, views, k, FileName(b, views[k].infile), FileName(b, views[k].outfile),
                                          inOpenFails, outOpenFails),
                       k, |views|, stages[k], inOpenFails, outOpenFails)
  {
    NodesMeaning(b, views, stages, lo, hi);
    ChildChannels(E0, c0, P, views, k, FileName(b, views[k].infile), FileName(b, views[k].outfile),
                  inOpenFails, outOpenFails);
  }

  /**
   * Lines 67-148 for the line in `input`: the nodes are built, one child is
   * started per stage, and the shell closes every pipe end (the `waitpid`
   * between is not modelled). The failure parameters are as for the
   * builder and `LaunchAll`.
   */
  method RunLine(input: array<char>, fds: FdTable, opsAllocFails: bool, argvFails: set<nat>, nodeFails: set<nat>,
                 inOpenFails: set<nat>, outOpenFails: set<nat>, execFails: set<nat>, forkFailsAt: nat)
    returns (result: LineResult, ghost stages: seq<Stage>, children: seq<FdTable>, outcomes: seq<Outcome>)
    requires HasNul(input[..], 0) && 0 in fds.entries && 1 in fds.entries
    modifies input, fds
    ensures var line := CStr(old(input[..]), 0);
      && (result == Crashed <==>
            !opsAllocFails
            && (Plan(line).None? || exists k | 0 <= k < |Fields(line, PIPELINE_SEPARATOR)| :: k in argvFails || k in nodeFails))
      && (!result.Crashed? ==>
            stages == (if opsAllocFails then [] else Plan(line).value)
            && (result.ForkFailed? <==> forkFailsAt < |stages|))
    ensures result.Ran? ==> fds.entries == old(fds.entries) && |children| == |stages|
    ensures result.ForkFailed? ==> |children| == forkFailsAt
    ensures !result.Crashed? ==>
      |outcomes| == |children|
      && forall k | 0 <= k < |children| ::
           StageWired(old(fds.entries), old(fds.channels), children[k].entries, k, |stages|, stages[k],
                      k in inOpenFails, k in outOpenFails)
           && (k in execFails ==> outcomes[k] == Exited(255))
           && (k !in execFails ==> Runs(input[..], outcomes[k], stages[k]))
  {
    children, outcomes := [], [];
    stages := [];
    ghost var E0 := fds.entries;
    ghost var c0 := fds.channels;
    ghost var line := CStr(input[..], 0);
    var nodes, crashed, views := BuildPipeline(input, 0, fds, opsAllocFails, argvFails, nodeFails);
    if crashed {
      return Crashed, stages, children, outcomes;
    }
    stages := if opsAllocFails then [] else Plan(line).value;
    result, children, outcomes := LaunchAndClose(input, fds, nodes, views, stages, E0, c0, NulAt(old(input[..]), 0),
                                                 inOpenFails, outOpenFails, execFails, forkFailsAt);
  }

  /**
   * Lines 86-148 once the nodes are built: one child per stage up to the
   * first failing `fork`, then the shell closes every pipe end.
   */
  method LaunchAndClose(input: array<char>, fds: FdTable, nodes: array<ProgramNode?>, ghost views: seq<NodeFields>,
                        ghost stages: seq<Stage>, ghost E0: map<nat, Endpoint>, ghost c0: nat, ghost hi: nat,
                        inOpenFails: set<nat>, outOpenFails: set<nat>, execFails: set<nat>, forkFailsAt: nat)
    returns (result: LineResult, children: seq<FdTable>, outcomes: seq<Outcome>)
    requires 0 in E0 && 1 in E0 && nodes.Length == |views| && NodesHold(nodes[..], views)
    requires PipesAdded(E0, c0, fds.entries, views) && ViewsDenote(input[..], views, stages, 0, hi)
    modifies fds
    ensures !result.Crashed? && (result.ForkFailed? <==> forkFailsAt < |stages|)
    ensures result.Ran? ==> fds.entries == E0 && |children| == |stages|
    ensures result.ForkFailed? ==> |children| == forkFailsAt
    ensures |outcomes| == |children|
      && forall k | 0 <= k < |children| ::
           StageWired(E0, c0, children[k].entries, k, |stages|, stages[k], k in inOpenFails, k in outOpenFails)
           && (k in execFails ==> outcomes[k] == Exited(255))
           && (k !in execFails ==> Runs(input[..], outcomes[k], stages[k]))
  {
    ghost var P := fds.entries;
    PipesAddedAbove(E0, c0, P, views);
    NodesMeaning(input[..], views, stages, 0, hi);
    var shellExit;
    children, outcomes, shellExit := LaunchAll(fds, input, nodes, views, inOpenFails, outOpenFails, execFails,
                                               forkFailsAt);
    forall k | 0 <= k < |children|
      ensures StageWired(E0, c0, children[k].entries, k, |stages|, stages[k], k in inOpenFails, k in outOpenFails)
    {
      ChildMeaning(E0, c0, P, input[..], views, stages, 0, hi, k, k in inOpenFails, k in outOpenFails);
    }
    if shellExit.Some? {
      return ForkFailed, children, outcomes;
    }
    CloseAll(nodes, fds, views);
    PipesClosed(E0, c0, P, views);
    result := Ran;
  }
}
