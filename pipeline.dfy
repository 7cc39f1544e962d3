/**
 * The pipeline builder and the wiring of each child: one `ProgramNode`
 * per `|`-stage, each with its own pipe, all built before any child is
 * started; then each child picks its standard input and output from its
 * position in the pipeline, its files and the pipes, and closes every
 * pipe end the builder made.
 */
module Pipeline {
  import opened CStrings
  import opened Tokens
  import opened Utils
  import opened Split
  import opened Redirect
  import opened Descriptors

  // ---------------------------------------------------------------------------
  // What a command line means

  /** One stage as the shell runs it: the words of the command and its optional files. */
  datatype Stage = Stage(words: seq<seq<char>>, input: Option<seq<char>>, output: Option<seq<char>>)

  function StageOf(r: Redirection): Stage {
    Stage(TrimmedFields(r.path, ARGS_SEPARATOR), r.input, r.output)
  }

  /**
   * The stages of a command line, or `None` when one of them makes the
   * redirection parser hand a NULL token to `trimWhiteSpace`.
   */
  function Plan(line: seq<char>): Option<seq<Stage>> {
    Collect(Attempts(TrimmedFields(line, PIPELINE_SEPARATOR)))
  }

  /** The parse of each stage's text. */
  function Attempts(T: seq<seq<char>>): (r: seq<Option<Redirection>>)
    ensures |r| == |T| && forall k | 0 <= k < |T| :: r[k] == ParseStage(T[k])
  {
    seq(|T|, k requires 0 <= k < |T| => ParseStage(T[k]))
  }

  /** The stages of the parses `rs`, one after another, or `None` at the first that failed. */
  function Collect(rs: seq<Option<Redirection>>): Option<seq<Stage>>
    decreases |rs|
  {
    if rs == [] then Some([])
    else
      var init := Collect(rs[..|rs| - 1]);
      var last := rs[|rs| - 1];
      if init.None? || last.None? then None else Some(init.value + [StageOf(last.value)])
  }

  /** `Collect` succeeds exactly when every parse did, and then holds each parse's stage at its index. */
  lemma {:induction false} CollectMeaning(rs: seq<Option<Redirection>>)
    ensures Collect(rs).Some? <==> forall k | 0 <= k < |rs| :: rs[k].Some?
    ensures Collect(rs).Some? ==>
      |Collect(rs).value| == |rs| && forall k | 0 <= k < |rs| :: Collect(rs).value[k] == StageOf(rs[k].value)
  {
    if rs != [] {
      var init := rs[..|rs| - 1];
      CollectMeaning(init);
      assert forall k | 0 <= k < |init| :: init[k] == rs[k];
    }
  }

  /** One more parse that succeeded extends the stages by its own. */
  lemma CollectStep(rs: seq<Option<Redirection>>, i: nat, stages: seq<Stage>)
    requires i < |rs| && Collect(rs[..i]) == Some(stages) && rs[i].Some?
    ensures Collect(rs[..i + 1]) == Some(stages + [StageOf(rs[i].value)])
  {
    assert rs[..i + 1][..i] == rs[..i];
  }

  /**
   * The plan of a line exists exactly when every stage's text parses, and
   * then holds, at each index, the stage of that text.
   */
  lemma PlanMeaning(line: seq<char>)
    ensures var T := TrimmedFields(line, PIPELINE_SEPARATOR);
      (Plan(line).Some? <==> forall k | 0 <= k < |T| :: ParseStage(T[k]).Some?)
      && (Plan(line).Some? ==>
            |Plan(line).value| == |T|
            && forall k | 0 <= k < |T| :: Plan(line).value[k] == StageOf(ParseStage(T[k]).value))
  {
    CollectMeaning(Attempts(TrimmedFields(line, PIPELINE_SEPARATOR)));
  }

  /** A line with one stage and no redirection markers runs its trimmed words with the shell's own streams. */
  lemma PlanOfSimpleCommand(c: seq<char>)
    requires PIPELINE_SEPARATOR !in c && IN_SEPARATOR !in c && OUT_SEPARATOR !in c && !AllSpace(c)
    ensures Plan(c) == Some([Stage(TrimmedFields(Trim(c), ARGS_SEPARATOR), None, None)])
  {
    var w := Trim(c);
    assert TrimmedFields(c, PIPELINE_SEPARATOR) == [w] by {
      FieldsOfWord(c, PIPELINE_SEPARATOR);
    }
    assert ParseStage(w) == Some(Redirection(w, None, None)) by {
      assert !AllSpace(w) by {
        assert !IsSpace(w[0]);
      }
      TrimAvoid(c, IN_SEPARATOR);
      TrimAvoid(c, OUT_SEPARATOR);
      ParseNoMarkers(w);
      TrimIdempotent(c);
    }
    assert Attempts([w]) == [Some(Redirection(w, None, None))];
    CollectOne(Redirection(w, None, None));
    assert Plan(c) == Collect(Attempts([w]));
  }

  lemma CollectOne(r: Redirection)
    ensures Collect([Some(r)]) == Some([StageOf(r)])
  {
    var rs := [Some(r)];
    assert rs[..0] == [];
    assert Collect(rs[..0]) == Some([]);
    assert [] + [StageOf(r)] == [StageOf(r)];
  }

  // ---------------------------------------------------------------------------
  // Nodes

  /**
   * `ProgramNode`: the command, its argument vector, its file names (NULL
   * when absent) and the two ends of the node's own pipe.
   */
  class ProgramNode {
    const programPath: Ptr
    /** The argument vector's slots; the block is never written after `sepPathAndArgs` returns it. */
    const argv: seq<Ptr>
    const infile: Ptr
    const outfile: Ptr
    /** The write end of the node's pipe. */
    const pipelineInput: nat
    /** The read end of the node's pipe. */
    const pipelineOutput: nat

    /** `New_ProgramNode`: records the four fields and makes the node's pipe. */
    constructor (programPath: Ptr, argv: seq<Ptr>, infile: Ptr, outfile: Ptr, fds: FdTable)
      modifies fds
      ensures this.programPath == programPath && this.argv == argv
      ensures this.infile == infile && this.outfile == outfile
      ensures IsLowestFree(old(fds.entries).Keys, pipelineOutput)
      ensures IsLowestFree(old(fds.entries).Keys + {pipelineOutput}, pipelineInput)
      ensures fds.entries == old(fds.entries)[pipelineOutput := PipeRead(old(fds.channels))]
                                             [pipelineInput := PipeWrite(old(fds.channels))]
      ensures fds.channels == old(fds.channels) + 1
    {
      var rd, wr := fds.Pipe();
      this.programPath := programPath;
      this.argv := argv;
      this.infile := infile;
      this.outfile := outfile;
      this.pipelineInput := wr;
      this.pipelineOutput := rd;
    }
  }

  /** `p` is NULL when there is no file, and otherwise points at the file name inside `[lo, hi]`. */
  ghost predicate FileAt(b: seq<char>, p: Ptr, f: Option<seq<char>>, lo: nat, hi: nat) {
    if f.None? then p.Null? else p.At? && Within(b, p.index, lo, hi) && CStr(b, p.index) == f.value
  }

  /**
   * The fields of a node denote the stage `st`: `argv` holds its words and
   * then one NULL, `programPath` is `argv[0]`, and the file pointers hold
   * its files, all inside `[lo, hi]`.
   */
  ghost predicate NodeView(b: seq<char>, programPath: Ptr, argv: seq<Ptr>, infile: Ptr, outfile: Ptr,
                           st: Stage, lo: nat, hi: nat)
  {
    |argv| == |st.words| + 1 && argv[|st.words|] == Null
    && Holds(b, argv[..|st.words|], st.words, lo, hi)
    && programPath == argv[0]
    && FileAt(b, infile, st.input, lo, hi) && FileAt(b, outfile, st.output, lo, hi)
  }

  /** NUL writes outside `[lo, hi]` keep what a node denotes. */
  lemma NodeViewFrame(b: seq<char>, b': seq<char>, programPath: Ptr, argv: seq<Ptr>, infile: Ptr, outfile: Ptr,
                      st: Stage, lo: nat, hi: nat, wlo: int, whi: int)
    requires NodeView(b, programPath, argv, infile, outfile, st, lo, hi)
    requires OnlyNulsWithin(b, b', wlo, whi) && hi < wlo
    ensures NodeView(b', programPath, argv, infile, outfile, st, lo, hi)
  {
    HoldsFrame(b, b', argv[..|st.words|], st.words, lo, hi, wlo, whi);
    if infile.At? {
      WithinFrame(b, b', infile.index, lo, hi, wlo, whi);
    }
    if outfile.At? {
      WithinFrame(b, b', outfile.index, lo, hi, wlo, whi);
    }
  }

  lemma NodeViewWiden(b: seq<char>, programPath: Ptr, argv: seq<Ptr>, infile: Ptr, outfile: Ptr,
                      st: Stage, lo: nat, hi: nat, lo': nat, hi': nat)
    requires NodeView(b, programPath, argv, infile, outfile, st, lo, hi) && lo' <= lo && hi <= hi'
    ensures NodeView(b, programPath, argv, infile, outfile, st, lo', hi')
  {
    HoldsWiden(b, argv[..|st.words|], st.words, lo, hi, lo', hi');
  }

  /**
   * Lines 73-82 for the stage at `t`: parse its redirections, split its
   * words and make its node. `crashed` is a NULL token reaching
   * `trimWhiteSpace`, a NULL argument vector being indexed, or the store
   * through the NULL that `New_ProgramNode`'s `malloc` returns when
   * `nodeFails` (lines 34-35; no pipe is made then).
   */
  method BuildStage(buf: array<char>, t: nat, fds: FdTable, argvFails: bool, nodeFails: bool)
    returns (node: ProgramNode?, crashed: bool, ghost r: Redirection, ghost v: NodeFields)
    requires HasNul(buf[..], t)
    modifies buf, fds
    ensures crashed <==> ParseStage(CStr(old(buf[..]), t)).None? || argvFails || nodeFails
    ensures OnlyNulsWithin(old(buf[..]), buf[..], t, NulAt(old(buf[..]), t))
    ensures !crashed ==>
      ParseStage(CStr(old(buf[..]), t)) == Some(r)
      && node != null && fresh(node) && FieldsOf(node) == v
      && StageBuilt(old(buf[..]), buf[..], t, StageOf(r), v, old(fds.entries), fds.entries, old(fds.channels))
      && fds.channels == old(fds.channels) + 1
  {
    ghost var b0 := buf[..];
    var path, inputDir, outputDir, c := ExtractPathInputOutput(buf, t, Null, Null);
    if c {
      return null, true, Redirection([], None, None), NodeFields(Null, [], Null, Null, 0, 0);
    }
    ghost var b1 := buf[..];
    var pathAndArgs, argc := SepPathAndArgs(buf, path.index, argvFails);
    StageNuls(b0, b1, buf[..], t, path.index);
    if pathAndArgs == null {
      return null, true, Redirection([], None, None), NodeFields(Null, [], Null, Null, 0, 0);
    }
    if nodeFails {
      return null, true, Redirection([], None, None), NodeFields(Null, [], Null, Null, 0, 0);
    }
    StageFacts(b0, b1, buf[..], t, path, inputDir, outputDir, pathAndArgs[..]);
    node := new ProgramNode(pathAndArgs[0], pathAndArgs[..], inputDir, outputDir, fds);
    PipeEndsFresh(old(fds.entries).Keys, node.pipelineOutput, node.pipelineInput);
    r := ParseStage(CStr(b0, t)).value;
    v := FieldsOf(node);
    crashed := false;
  }

  /**
   * The node `v` denotes the stage `st` inside the text at `t`; the node's
   * pipe is `c` on two descriptors that were free in `pre`.
   */
  ghost predicate StageBuilt(b0: seq<char>, b: seq<char>, t: nat, st: Stage, v: NodeFields,
                             pre: map<nat, Endpoint>, entries: map<nat, Endpoint>, c: nat) {
    HasNul(b0, t)
    && NodeView(b, v.programPath, v.argv, v.infile, v.outfile, st, t, NulAt(b0, t))
    && v.pipelineOutput !in pre && v.pipelineInput !in pre && v.pipelineOutput != v.pipelineInput
    && entries == pre[v.pipelineOutput := PipeRead(c)][v.pipelineInput := PipeWrite(c)]
  }

  lemma StageNuls(b0: seq<char>, b1: seq<char>, b2: seq<char>, t: nat, path: nat)
    requires HasNul(b0, t) && OnlyNulsWithin(b0, b1, t, NulAt(b0, t))
    requires Within(b1, path, t, NulAt(b0, t)) && OnlyNulsWithin(b1, b2, path, NulAt(b1, path))
    ensures OnlyNulsWithin(b0, b2, t, NulAt(b0, t))
  {
    NulsWiden(b1, b2, path, NulAt(b1, path), t, NulAt(b0, t));
    NulsTrans(b0, b1, b2, t, NulAt(b0, t));
  }

  lemma StageFacts(b0: seq<char>, b1: seq<char>, b2: seq<char>, t: nat, path: Ptr, inputDir: Ptr, outputDir: Ptr,
                   argv: seq<Ptr>)
    requires HasNul(b0, t) && ParseStage(CStr(b0, t)).Some?
    requires Parsed(b1, ParseStage(CStr(b0, t)).value, path, inputDir, outputDir, Null, Null, t, NulAt(b0, t))
    requires OnlyNulsWithin(b1, b2, path.index, NulAt(b1, path.index))
    requires var T := TrimmedFields(CStr(b1, path.index), ARGS_SEPARATOR);
      |argv| == |T| + 1 && argv[|T|] == Null && Holds(b2, argv[..|T|], T, path.index, NulAt(b1, path.index))
    ensures NodeView(b2, argv[0], argv, inputDir, outputDir, StageOf(ParseStage(CStr(b0, t)).value), t, NulAt(b0, t))
  {
    var r := ParseStage(CStr(b0, t)).value;
    var E := NulAt(b0, t);
    var T := TrimmedFields(r.path, ARGS_SEPARATOR);
    HoldsWiden(b2, argv[..|T|], T, path.index, NulAt(b1, path.index), t, E);
    if inputDir.At? && r.input.Some? {
      CStrFrame(b1, b2, inputDir.index, path.index, NulAt(b1, path.index));
    }
    if outputDir.At? && r.output.Some? {
      CStrFrame(b1, b2, outputDir.index, path.index, NulAt(b1, path.index));
    }
  }

  /** What a node holds: its fields, with the contents of its argument vector. */
  datatype NodeFields = NodeFields(programPath: Ptr, argv: seq<Ptr>, infile: Ptr, outfile: Ptr,
                                   pipelineInput: nat, pipelineOutput: nat)

  function FieldsOf(node: ProgramNode): NodeFields {
    NodeFields(node.programPath, node.argv, node.infile, node.outfile, node.pipelineInput, node.pipelineOutput)
  }

  /** The read ends of the nodes' pipes, in stage order. */
  function ReadEnds(views: seq<NodeFields>): (r: seq<nat>)
    ensures |r| == |views| && forall k | 0 <= k < |views| :: r[k] == views[k].pipelineOutput
  {
    seq(|views|, k requires 0 <= k < |views| => views[k].pipelineOutput)
  }

  /** The write ends of the nodes' pipes, in stage order. */
  function WriteEnds(views: seq<NodeFields>): (r: seq<nat>)
    ensures |r| == |views| && forall k | 0 <= k < |views| :: r[k] == views[k].pipelineInput
  {
    seq(|views|, k requires 0 <= k < |views| => views[k].pipelineInput)
  }

  /**
   * Node `k` owns channel `c0 + k`, whose two ends are descriptors that
   * were not in `E0`; the descriptors of `E0` are kept, and every
   * descriptor added is an end of a node's pipe.
   */
  ghost predicate PipesAdded(E0: map<nat, Endpoint>, c0: nat, entries: map<nat, Endpoint>, views: seq<NodeFields>) {
    (forall k | 0 <= k < |views| ::
       views[k].pipelineOutput !in E0 && views[k].pipelineInput !in E0
       && views[k].pipelineOutput in entries && entries[views[k].pipelineOutput] == PipeRead(c0 + k)
       && views[k].pipelineInput in entries && entries[views[k].pipelineInput] == PipeWrite(c0 + k))
    && (forall fd | fd in E0 :: fd in entries && entries[fd] == E0[fd])
    && (forall fd | fd in entries && fd !in E0 :: fd in ReadEnds(views) || fd in WriteEnds(views))
  }

  /** The nodes in `views` denote `stages`, in order, inside `[lo, hi]`. */
  ghost predicate ViewsDenote(b: seq<char>, views: seq<NodeFields>, stages: seq<Stage>, lo: nat, hi: nat) {
    |views| == |stages|
    && forall k | 0 <= k < |views| ::
         NodeView(b, views[k].programPath, views[k].argv, views[k].infile, views[k].outfile, stages[k], lo, hi)
  }

  /** While building: node `k` denotes stage `k` inside the text stage `k` had. */
  ghost predicate ViewsInStages(b: seq<char>, b1: seq<char>, ops: seq<Ptr>, views: seq<NodeFields>, stages: seq<Stage>) {
    |views| == |stages| <= |ops|
    && forall k | 0 <= k < |views| ::
         ops[k].At? && HasNul(b1, ops[k].index)
         && NodeView(b, views[k].programPath, views[k].argv, views[k].infile, views[k].outfile, stages[k],
                     ops[k].index, NulAt(b1, ops[k].index))
  }

  /** The first `|views|` node pointers are set and hold `views`. */
  ghost predicate NodesHold(nodes: seq<ProgramNode?>, views: seq<NodeFields>) {
    |views| <= |nodes| && forall k | 0 <= k < |views| :: nodes[k] != null && FieldsOf(nodes[k]) == views[k]
  }

  /** Line 82: `nodes[i] = New_ProgramNode(...)` for the next stage `|views|`. */
  method StoreNode(nodes: array<ProgramNode?>, i: nat, node: ProgramNode, ghost views: seq<NodeFields>)
    requires NodesHold(nodes[..], views) && i == |views| < nodes.Length
    modifies nodes
    ensures NodesHold(nodes[..], views + [FieldsOf(node)])
  {
    nodes[i] := node;
  }

  /**
   * The builder after `|views|` stages: these parsed without a crash and
   * their nodes denote them, every write so far lies before the end of the
   * last of them, and the nodes' pipes are in the table.
   */
  ghost predicate Progress(b1: seq<char>, b: seq<char>, ops: seq<Ptr>, T: seq<seq<char>>, p: nat, E: nat,
                           stages: seq<Stage>, views: seq<NodeFields>, fails: set<nat>,
                           E0: map<nat, Endpoint>, c0: nat, entries: map<nat, Endpoint>)
  {
    StagesSoFar(Attempts(T), stages, views, fails)
    && TextSoFar(b1, b, ops, T, p, E, views, stages)
    && PipesAdded(E0, c0, entries, views)
  }

  /** The first `|views|` parses `rs` gave `stages`, and none of those stages failed to get an argument vector or a node. */
  ghost predicate StagesSoFar(rs: seq<Option<Redirection>>, stages: seq<Stage>, views: seq<NodeFields>, fails: set<nat>) {
    |stages| == |views| <= |rs|
    && Collect(rs[..|views|]) == Some(stages) && (forall j | 0 <= j < |views| :: j !in fails)
  }

  /**
   * The stage texts lie at `ops` in the split line `b1`; the buffer `b`
   * differs from it only up to the end of the last built stage, and the
   * nodes denote their stages there.
   */
  ghost predicate TextSoFar(b1: seq<char>, b: seq<char>, ops: seq<Ptr>, T: seq<seq<char>>, p: nat, E: nat,
                            views: seq<NodeFields>, stages: seq<Stage>) {
    Holds(b1, ops, T, p, E) && |views| <= |ops|
    && OnlyNulsWithin(b1, b, p, if |views| == 0 then p - 1 else NulAt(b1, ops[|views| - 1].index))
    && ViewsInStages(b, b1, ops, views, stages)
  }

  /**
   * Lines 67-84: split the line at `p` into stages and build one node per
   * stage, all before any child is started. `opsAllocFails` is the stage
   * array's first allocation failing (then there are no stages at all);
   * `argvFails` are the stages whose argument vector cannot be allocated,
   * `nodeFails` those whose node cannot be allocated.
   * `crashed` is a stage that makes the parser hand NULL to
   * `trimWhiteSpace`, whose NULL argument vector is indexed, or whose NULL
   * node is written to. `views` are the nodes' contents.
   */
  method BuildPipeline(buf: array<char>, p: nat, fds: FdTable, opsAllocFails: bool,
                       argvFails: set<nat>, nodeFails: set<nat>)
    returns (nodes: array<ProgramNode?>, crashed: bool, ghost views: seq<NodeFields>)
    requires HasNul(buf[..], p)
    modifies buf, fds
    ensures fresh(nodes)
    ensures var line := CStr(old(buf[..]), p);
      crashed <==>
        !opsAllocFails
        && (Plan(line).None? || exists k | 0 <= k < |Fields(line, PIPELINE_SEPARATOR)| :: k in argvFails || k in nodeFails)
    ensures !crashed ==>
      nodes.Length == |views| && NodesHold(nodes[..], views)
      && ViewsDenote(buf[..], views, if opsAllocFails then [] else Plan(CStr(old(buf[..]), p)).value,
                     p, NulAt(old(buf[..]), p))
      && PipesAdded(old(fds.entries), old(fds.channels), fds.entries, views)
      && fds.channels == old(fds.channels) + nodes.Length
    ensures OnlyNulsWithin(old(buf[..]), buf[..], p, NulAt(old(buf[..]), p))
  {
    ghost var b0 := buf[..];
    ghost var E := NulAt(b0, p);
    ghost var T := TrimmedFields(CStr(b0, p), PIPELINE_SEPARATOR);
    ghost var E0 := fds.entries;
    ghost var c0 := fds.channels;
    var ops, tokenQty := ExtractPipeOps(buf, p, opsAllocFails);
    nodes := new ProgramNode?[tokenQty];
    views := [];
    if ops == null {
      return nodes, false, views;
    }
    ghost var b1 := buf[..];
    ghost var i, stages;
    crashed, i, stages, views := BuildNodes(buf, ops, nodes, fds, argvFails, nodeFails, T, p, E);
    if crashed {
      NulsTrans(b0, b1, buf[..], p, E);
      CrashMeans(CStr(b0, p), T, i, argvFails, nodeFails);
    } else {
      NulsTrans(b0, b1, buf[..], p, E);
      NoCrashMeans(CStr(b0, p), T, stages, argvFails, nodeFails);
    }
  }

  /**
   * The loop of lines 67-84 over the stage texts at `ops`: one node per
   * stage, stopping at the first stage `i` that crashes.
   */
  method BuildNodes(buf: array<char>, ops: array<Ptr>, nodes: array<ProgramNode?>, fds: FdTable,
                    argvFails: set<nat>, nodeFails: set<nat>, ghost T: seq<seq<char>>, ghost p: nat, ghost E: nat)
    returns (crashed: bool, ghost i: nat, ghost stages: seq<Stage>, ghost views: seq<NodeFields>)
    requires ops.Length == nodes.Length == |T| && p <= E && Holds(buf[..], ops[..], T, p, E)
    modifies buf, fds, nodes
    ensures OnlyNulsWithin(old(buf[..]), buf[..], p, E)
    ensures crashed ==> i < |T| && (ParseStage(T[i]).None? || i in argvFails + nodeFails)
    ensures !crashed ==>
      |views| == |T| && NodesHold(nodes[..], views)
      && Collect(Attempts(T)) == Some(stages) && (forall j | 0 <= j < |T| :: j !in argvFails + nodeFails)
      && ViewsDenote(buf[..], views, stages, p, E)
      && PipesAdded(old(fds.entries), old(fds.channels), fds.entries, views)
      && fds.channels == old(fds.channels) + |T|
  {
    ghost var b1 := buf[..];
    ghost var E0 := fds.entries;
    ghost var c0 := fds.channels;
    crashed, i, stages, views := BuildLoop(buf, ops, nodes, fds, argvFails, nodeFails, T, p, E);
    if !crashed {
      LoopDone(b1, buf[..], ops[..], T, p, E, stages, views, argvFails + nodeFails, E0, c0, fds.entries);
    }
  }

  /** The `for` loop of lines 71-84 itself, carrying the builder's progress invariant. */
  method BuildLoop(buf: array<char>, ops: array<Ptr>, nodes: array<ProgramNode?>, fds: FdTable,
                   argvFails: set<nat>, nodeFails: set<nat>, ghost T: seq<seq<char>>, ghost p: nat, ghost E: nat)
    returns (crashed: bool, ghost i: nat, ghost stages: seq<Stage>, ghost views: seq<NodeFields>)
    requires ops.Length == nodes.Length == |T| && p <= E && Holds(buf[..], ops[..], T, p, E)
    modifies buf, fds, nodes
    ensures crashed ==>
      i < |T| && (ParseStage(T[i]).None? || i in argvFails + nodeFails) && OnlyNulsWithin(old(buf[..]), buf[..], p, E)
    ensures !crashed ==>
      |views| == |T| && NodesHold(nodes[..], views) && fds.channels == old(fds.channels) + |T|
      && Progress(old(buf[..]), buf[..], ops[..], T, p, E, stages, views, argvFails + nodeFails,
                  old(fds.entries), old(fds.channels), fds.entries)
  {
    ghost var b1 := buf[..];
    ghost var opsv := ops[..];
    ghost var E0 := fds.entries;
    ghost var c0 := fds.channels;
    stages, views := [], [];
    NulsRefl(b1, p, p - 1);
    var k := 0;
    while k < ops.Length
      invariant 0 <= k <= ops.Length && ops[..] == opsv
      invariant k == |views| && NodesHold(nodes[..], views) && fds.channels == c0 + k
      invariant Progress(b1, buf[..], opsv, T, p, E, stages, views, argvFails + nodeFails, E0, c0, fds.entries)
    {
      var node, c;
      ghost var views0 := views;
      node, c, stages, views := AddStage(buf, ops, k, fds, k in argvFails, k in nodeFails, argvFails + nodeFails, b1, opsv, T, p, E, E0, c0, stages, views);
      if c {
        return true, k, stages, views;
      }
      StoreNode(nodes, k, node, views0);
      k := k + 1;
    }
    crashed, i := false, k;
  }

  /**
   * The body of the build loop (lines 73-82) for stage `|views|`, up to
   * storing its node. `argvFail` and `nodeFail` are its two allocations
   * failing, and `fails` the stages where either does.
   */
  method AddStage(buf: array<char>, ops: array<Ptr>, i: nat, fds: FdTable, argvFail: bool, nodeFail: bool, ghost fails: set<nat>,
                  ghost b1: seq<char>, ghost opsv: seq<Ptr>, ghost T: seq<seq<char>>, ghost p: nat, ghost E: nat,
                  ghost E0: map<nat, Endpoint>, ghost c0: nat, ghost stages: seq<Stage>, ghost views: seq<NodeFields>)
    returns (node: ProgramNode?, crashed: bool, ghost stages': seq<Stage>, ghost views': seq<NodeFields>)
    requires i == |views| < |T| == ops.Length && ops[..] == opsv && fds.channels == c0 + |views|
    requires (argvFail || nodeFail) <==> i in fails
    requires Progress(b1, buf[..], opsv, T, p, E, stages, views, fails, E0, c0, fds.entries)
    modifies buf, fds
    ensures crashed ==>
      (ParseStage(T[|views|]).None? || |views| in fails) && OnlyNulsWithin(b1, buf[..], p, E)
    ensures !crashed ==>
      node != null && fresh(node) && views' == views + [FieldsOf(node)] && fds.channels == c0 + |views'|
      && Progress(b1, buf[..], opsv, T, p, E, stages', views', fails, E0, c0, fds.entries)
  {
    ghost var bi := buf[..];
    ghost var pre := fds.entries;
    ghost var ch := fds.channels;
    var c; ghost var r, v;
    node, c, r, v := StageAt(buf, ops, i, fds, argvFail, nodeFail, b1, opsv, T, p, E);
    ghost var b2 := buf[..];
    if c {
      StageAbandoned(b1, bi, b2, opsv, T, p, E, i);
      return node, true, stages, views;
    }
    ProgressStep(b1, bi, b2, opsv, T, p, E, stages, views, fails, E0, c0, pre, fds.entries, opsv[i].index, ch, r, v);
    stages', views' := stages + [StageOf(r)], views + [v];
    crashed := false;
  }

  /** Lines 73-82 for the `i`th stage text of the split line `b1`, built where that text lies. */
  method StageAt(buf: array<char>, ops: array<Ptr>, i: nat, fds: FdTable, argvFail: bool, nodeFail: bool,
                 ghost b1: seq<char>, ghost opsv: seq<Ptr>, ghost T: seq<seq<char>>, ghost p: nat, ghost E: nat)
    returns (node: ProgramNode?, crashed: bool, ghost r: Redirection, ghost v: NodeFields)
    requires i < |T| == ops.Length && ops[..] == opsv && Holds(b1, opsv, T, p, E)
    requires OnlyNulsWithin(b1, buf[..], p, if i == 0 then p - 1 else NulAt(b1, opsv[i - 1].index))
    modifies buf, fds
    ensures opsv[i].At? && HasNul(old(buf[..]), opsv[i].index)
    ensures NulAt(old(buf[..]), opsv[i].index) == NulAt(b1, opsv[i].index)
    ensures crashed <==> ParseStage(T[i]).None? || argvFail || nodeFail
    ensures OnlyNulsWithin(old(buf[..]), buf[..], opsv[i].index, NulAt(old(buf[..]), opsv[i].index))
    ensures !crashed ==>
      ParseStage(CStr(old(buf[..]), opsv[i].index)) == Some(r)
      && node != null && fresh(node) && FieldsOf(node) == v
      && StageBuilt(old(buf[..]), buf[..], opsv[i].index, StageOf(r), v, old(fds.entries), fds.entries, old(fds.channels))
      && fds.channels == old(fds.channels) + 1
  {
    StageStart(b1, buf[..], opsv, T, p, E, i);
    var t := ops[i].index;
    assert t == opsv[i].index;
    node, crashed, r, v := BuildStage(buf, t, fds, argvFail, nodeFail);
  }

  /** Stage `|views|` built without a crash extends the builder's progress by its node `v`. */
  lemma ProgressStep(b1: seq<char>, bi: seq<char>, b2: seq<char>, ops: seq<Ptr>, T: seq<seq<char>>, p: nat, E: nat,
                     stages: seq<Stage>, views: seq<NodeFields>, fails: set<nat>,
                     E0: map<nat, Endpoint>, c0: nat, pre: map<nat, Endpoint>, entries: map<nat, Endpoint>,
                     t: nat, c: nat, r: Redirection, v: NodeFields)
    requires Progress(b1, bi, ops, T, p, E, stages, views, fails, E0, c0, pre) && |views| < |T|
    requires |views| !in fails && ops[|views|] == At(t) && c == c0 + |views|
    requires HasNul(bi, t) && ParseStage(CStr(bi, t)) == Some(r)
    requires OnlyNulsWithin(bi, b2, t, NulAt(bi, t))
    requires StageBuilt(bi, b2, t, StageOf(r), v, pre, entries, c)
    ensures Progress(b1, b2, ops, T, p, E, stages + [StageOf(r)], views + [v], fails, E0, c0, entries)
  {
    var i := |views|;
    StageStart(b1, bi, ops, T, p, E, i);
    TextStep(b1, bi, b2, ops, T, p, E, views, stages, v, StageOf(r), t, NulAt(bi, t));
    StagesStep(Attempts(T), stages, views, fails, r, v);
    PipesStep(E0, c0, pre, entries, views, v, c);
  }

  /** A crash in stage `i` leaves every write inside the line. */
  lemma StageAbandoned(b1: seq<char>, bi: seq<char>, b2: seq<char>, ops: seq<Ptr>, T: seq<seq<char>>, p: nat, E: nat,
                       i: nat)
    requires Holds(b1, ops, T, p, E) && i < |ops|
    requires OnlyNulsWithin(b1, bi, p, if i == 0 then p - 1 else NulAt(b1, ops[i - 1].index))
    requires HasNul(bi, ops[i].index) && NulAt(bi, ops[i].index) == NulAt(b1, ops[i].index)
    requires OnlyNulsWithin(bi, b2, ops[i].index, NulAt(bi, ops[i].index))
    ensures OnlyNulsWithin(b1, b2, p, E)
  {
    StageDone(b1, bi, b2, ops, T, p, E, i);
    NulsWiden(b1, b2, p, NulAt(b1, ops[i].index), p, E);
  }

  /** Building stage `|views|` inside its own text extends what the buffer holds by its node. */
  lemma TextStep(b1: seq<char>, bi: seq<char>, b2: seq<char>, ops: seq<Ptr>, T: seq<seq<char>>, p: nat, E: nat,
                 views: seq<NodeFields>, stages: seq<Stage>, v: NodeFields, st: Stage, t: nat, m: nat)
    requires TextSoFar(b1, bi, ops, T, p, E, views, stages) && |views| < |ops| && ops[|views|] == At(t)
    requires HasNul(bi, t) && HasNul(b1, t) && m == NulAt(bi, t) && m == NulAt(b1, t)
    requires OnlyNulsWithin(bi, b2, t, m)
    requires NodeView(b2, v.programPath, v.argv, v.infile, v.outfile, st, t, m)
    ensures TextSoFar(b1, b2, ops, T, p, E, views + [v], stages + [st])
  {
    var i := |views|;
    StageDone(b1, bi, b2, ops, T, p, E, i);
    EarlierEnds(b1, ops, T, p, E, i);
    ViewsStep(b1, bi, b2, ops, views, stages, v, st, t, m);
    TextSoFarIntro(b1, b2, ops, T, p, E, views + [v], stages + [st], i);
  }

  /** The texts of the stages before `i` end before stage `i` starts. */
  lemma EarlierEnds(b1: seq<char>, ops: seq<Ptr>, T: seq<seq<char>>, p: nat, E: nat, i: nat)
    requires Holds(b1, ops, T, p, E) && i < |ops|
    ensures forall k | 0 <= k < i :: NulAt(b1, ops[k].index) < ops[i].index
  {
  }

  lemma TextSoFarIntro(b1: seq<char>, b: seq<char>, ops: seq<Ptr>, T: seq<seq<char>>, p: nat, E: nat,
                       views: seq<NodeFields>, stages: seq<Stage>, i: nat)
    requires Holds(b1, ops, T, p, E) && |views| == i + 1 <= |ops| && ops[i].At? && HasNul(b1, ops[i].index)
    requires OnlyNulsWithin(b1, b, p, NulAt(b1, ops[i].index))
    requires ViewsInStages(b, b1, ops, views, stages)
    ensures TextSoFar(b1, b, ops, T, p, E, views, stages)
  {
  }

  /** A stage that parsed to `r` and got its argument vector extends the stages by `StageOf(r)`. */
  lemma StagesStep(rs: seq<Option<Redirection>>, stages: seq<Stage>, views: seq<NodeFields>, fails: set<nat>,
                   r: Redirection, v: NodeFields)
    requires StagesSoFar(rs, stages, views, fails) && |views| < |rs| && |views| !in fails
    requires rs[|views|] == Some(r)
    ensures StagesSoFar(rs, stages + [StageOf(r)], views + [v], fails)
  {
    CollectStep(rs, |views|, stages);
  }

  /**
   * A stage that does not parse, or whose argument vector or node cannot be
   * allocated, is what the builder reports as a crash.
   */
  lemma CrashMeans(line: seq<char>, T: seq<seq<char>>, i: nat, argvFails: set<nat>, nodeFails: set<nat>)
    requires T == TrimmedFields(line, PIPELINE_SEPARATOR) && i < |T|
    requires ParseStage(T[i]).None? || i in argvFails + nodeFails
    ensures Plan(line).None? || exists k | 0 <= k < |Fields(line, PIPELINE_SEPARATOR)| :: k in argvFails || k in nodeFails
  {
    CollectMeaning(Attempts(T));
    if ParseStage(T[i]).Some? {
      assert i < |Fields(line, PIPELINE_SEPARATOR)| && (i in argvFails || i in nodeFails);
    }
  }

  /** A loop that built every stage had a plan, and no stage of it failed an allocation. */
  lemma NoCrashMeans(line: seq<char>, T: seq<seq<char>>, stages: seq<Stage>, argvFails: set<nat>, nodeFails: set<nat>)
    requires T == TrimmedFields(line, PIPELINE_SEPARATOR) && Collect(Attempts(T)) == Some(stages)
    requires forall j | 0 <= j < |T| :: j !in argvFails + nodeFails
    ensures Plan(line) == Some(stages)
    ensures forall k | 0 <= k < |Fields(line, PIPELINE_SEPARATOR)| :: k !in argvFails && k !in nodeFails
  {
    var n := |Fields(line, PIPELINE_SEPARATOR)|;
    assert |T| == n;
    forall k | 0 <= k < n
      ensures k !in argvFails && k !in nodeFails
    {
      assert k !in argvFails + nodeFails;
    }
  }

  /** Once every stage is built, the nodes denote the parsed stages inside the line. */
  lemma LoopDone(b1: seq<char>, b: seq<char>, ops: seq<Ptr>, T: seq<seq<char>>, p: nat, E: nat,
                 stages: seq<Stage>, views: seq<NodeFields>, fails: set<nat>,
                 E0: map<nat, Endpoint>, c0: nat, entries: map<nat, Endpoint>)
    requires Progress(b1, b, ops, T, p, E, stages, views, fails, E0, c0, entries) && |views| == |T| && p <= E
    ensures Collect(Attempts(T)) == Some(stages)
    ensures forall k | 0 <= k < |T| :: k !in fails
    ensures ViewsDenote(b, views, stages, p, E)
    ensures OnlyNulsWithin(b1, b, p, E)
  {
    assert Attempts(T)[..|T|] == Attempts(T);
    ViewsDone(b1, b, ops, T, p, E, views, stages);
    if |T| > 0 {
      NulsWiden(b1, b, p, NulAt(b1, ops[|T| - 1].index), p, E);
    } else {
      NulsWiden(b1, b, p, p - 1, p, E);
    }
  }

  /** Before stage `i` is parsed, its text is still intact. */
  lemma StageStart(b1: seq<char>, bi: seq<char>, ops: seq<Ptr>, T: seq<seq<char>>, p: nat, E: nat, i: nat)
    requires Holds(b1, ops, T, p, E) && i < |ops|
    requires OnlyNulsWithin(b1, bi, p, if i == 0 then p - 1 else NulAt(b1, ops[i - 1].index))
    ensures HasNul(bi, ops[i].index) && NulAt(bi, ops[i].index) == NulAt(b1, ops[i].index)
    ensures CStr(bi, ops[i].index) == T[i]
  {
    if i > 0 {
      assert NulAt(b1, ops[i - 1].index) < ops[i].index;
    }
    CStrFrame(b1, bi, ops[i].index, p, if i == 0 then p - 1 else NulAt(b1, ops[i - 1].index));
  }

  /** After stage `i`, every write so far lies before the end of stage `i`. */
  lemma StageDone(b1: seq<char>, bi: seq<char>, b2: seq<char>, ops: seq<Ptr>, T: seq<seq<char>>, p: nat, E: nat, i: nat)
    requires Holds(b1, ops, T, p, E) && i < |ops|
    requires OnlyNulsWithin(b1, bi, p, if i == 0 then p - 1 else NulAt(b1, ops[i - 1].index))
    requires HasNul(bi, ops[i].index) && NulAt(bi, ops[i].index) == NulAt(b1, ops[i].index)
    requires OnlyNulsWithin(bi, b2, ops[i].index, NulAt(bi, ops[i].index))
    ensures OnlyNulsWithin(b1, b2, p, NulAt(b1, ops[i].index))
  {
    var m := NulAt(b1, ops[i].index);
    if i > 0 {
      assert NulAt(b1, ops[i - 1].index) < ops[i].index;
    }
    NulsWiden(b1, bi, p, if i == 0 then p - 1 else NulAt(b1, ops[i - 1].index), p, m);
    NulsWiden(bi, b2, ops[i].index, m, p, m);
    NulsTrans(b1, bi, b2, p, m);
  }

  /** Building stage `i` writes only inside its own text, so the earlier nodes keep what they denote. */
  lemma ViewsStep(b1: seq<char>, bi: seq<char>, b2: seq<char>, ops: seq<Ptr>,
                  views: seq<NodeFields>, stages: seq<Stage>, v: NodeFields, st: Stage, t: nat, m: nat)
    requires |views| < |ops| && ops[|views|] == At(t) && HasNul(b1, t) && m == NulAt(b1, t)
    requires ViewsInStages(bi, b1, ops, views, stages)
    requires forall k | 0 <= k < |views| :: NulAt(b1, ops[k].index) < t
    requires OnlyNulsWithin(bi, b2, t, m)
    requires NodeView(b2, v.programPath, v.argv, v.infile, v.outfile, st, t, m)
    ensures ViewsInStages(b2, b1, ops, views + [v], stages + [st])
  {
    forall k | 0 <= k < |views|
      ensures NodeView(b2, views[k].programPath, views[k].argv, views[k].infile, views[k].outfile, stages[k],
                       ops[k].index, NulAt(b1, ops[k].index))
    {
      NodeViewFrame(bi, b2, views[k].programPath, views[k].argv, views[k].infile, views[k].outfile, stages[k],
                    ops[k].index, NulAt(b1, ops[k].index), t, m);
    }
  }

  /** A new node's pipe keeps the descriptor bookkeeping. */
  lemma PipesStep(E0: map<nat, Endpoint>, c0: nat, pre: map<nat, Endpoint>, entries: map<nat, Endpoint>,
                  views: seq<NodeFields>, v: NodeFields, c: nat)
    requires PipesAdded(E0, c0, pre, views) && c == c0 + |views|
    requires v.pipelineOutput !in pre && v.pipelineInput !in pre && v.pipelineOutput != v.pipelineInput
    requires entries == pre[v.pipelineOutput := PipeRead(c)][v.pipelineInput := PipeWrite(c)]
    ensures PipesAdded(E0, c0, entries, views + [v])
  {
    var w := views + [v];
    assert ReadEnds(w) == ReadEnds(views) + [v.pipelineOutput];
    assert WriteEnds(w) == WriteEnds(views) + [v.pipelineInput];
  }

  /** Each node's text lies inside the line. */
  lemma ViewsDone(b1: seq<char>, b: seq<char>, ops: seq<Ptr>, T: seq<seq<char>>, p: nat, E: nat,
                  views: seq<NodeFields>, stages: seq<Stage>)
    requires Holds(b1, ops, T, p, E) && ViewsInStages(b, b1, ops, views, stages)
    ensures ViewsDenote(b, views, stages, p, E)
  {
    forall k | 0 <= k < |views|
      ensures NodeView(b, views[k].programPath, views[k].argv, views[k].infile, views[k].outfile, stages[k], p, E)
    {
      NodeViewWiden(b, views[k].programPath, views[k].argv, views[k].infile, views[k].outfile, stages[k],
                    ops[k].index, NulAt(b1, ops[k].index), p, E);
    }
  }
}
