/**
 * Running a built pipeline: the fork loop, the wiring each child does
 * before `execvp` (lines 99-129 of main.c) and the parent's closing of
 * every pipe end (lines 141-148).
 */
module Wiring {
  import opened CStrings
  import opened Redirect
  import opened Descriptors
  import opened Pipeline

  // ---------------------------------------------------------------------------
  // The descriptors the builder made

  /** Both ends of every node's pipe. */
  function PipeFds(views: seq<NodeFields>): set<nat>
    decreases |views|
  {
    if views == [] then {}
    else PipeFds(views[..|views| - 1]) + {views[|views| - 1].pipelineInput, views[|views| - 1].pipelineOutput}
  }

  lemma {:induction false} PipeFdsMeaning(views: seq<NodeFields>)
    ensures forall fd :: fd in PipeFds(views) <==> fd in ReadEnds(views) || fd in WriteEnds(views)
    decreases |views|
  {
    if views != [] {
      var init := views[..|views| - 1];
      PipeFdsMeaning(init);
      assert ReadEnds(views) == ReadEnds(init) + [views[|views| - 1].pipelineOutput];
      assert WriteEnds(views) == WriteEnds(init) + [views[|views| - 1].pipelineInput];
    }
  }

  /** The shell's own standard input and output are open and every pipe end is above them. */
  predicate PipesAbove(P: map<nat, Endpoint>, views: seq<NodeFields>) {
    0 in P && 1 in P
    && forall k | 0 <= k < |views| ::
         1 < views[k].pipelineInput && views[k].pipelineInput in P
         && 1 < views[k].pipelineOutput && views[k].pipelineOutput in P
  }

  /** The builder's table, with the shell's standard streams open, keeps its pipe ends above them. */
  lemma PipesAddedAbove(E0: map<nat, Endpoint>, c0: nat, P: map<nat, Endpoint>, views: seq<NodeFields>)
    requires PipesAdded(E0, c0, P, views) && 0 in E0 && 1 in E0
    ensures PipesAbove(P, views)
  {
    forall k | 0 <= k < |views|
      ensures 1 < views[k].pipelineInput && views[k].pipelineInput in P
      ensures 1 < views[k].pipelineOutput && views[k].pipelineOutput in P
    {
      var wr: nat, rd: nat := views[k].pipelineInput, views[k].pipelineOutput;
      assert wr != 0 && wr != 1 && rd != 0 && rd != 1;
    }
  }

  /** The file name a node's pointer denotes, if any. */
  function FileName(b: seq<char>, f: Ptr): Option<seq<char>>
    requires f.At? ==> HasNul(b, f.index)
  {
    if f.Null? then None else Some(CStr(b, f.index))
  }

  // ---------------------------------------------------------------------------
  // What each child's table becomes

  /**
   * Descriptor 0 of stage `i`'s child: the previous stage's read end, or
   * for the first stage its input file when it opened, or what the shell had.
   */
  function StdinOf(P: map<nat, Endpoint>, views: seq<NodeFields>, i: nat, infile: Option<seq<char>>,
                   openFails: bool): Endpoint
    requires i < |views| && PipesAbove(P, views)
  {
    if i > 0 then P[views[i - 1].pipelineOutput]
    else if infile.Some? && !openFails then File(infile.value, ReadOnly)
    else P[0]
  }

  /**
   * Descriptor 1 of stage `i`'s child: its output file when it opened,
   * otherwise its own write end unless it is the last stage, otherwise
   * what the shell had.
   */
  function StdoutOf(P: map<nat, Endpoint>, views: seq<NodeFields>, i: nat, outfile: Option<seq<char>>,
                    openFails: bool): Endpoint
    requires i < |views| && PipesAbove(P, views)
  {
    if outfile.Some? && !openFails then File(outfile.value, ReadWriteCreate)
    else if i != |views| - 1 then P[views[i].pipelineInput]
    else P[1]
  }

  /** The child's table when it calls `execvp`: its two streams set, every pipe end closed. */
  function ChildTable(P: map<nat, Endpoint>, views: seq<NodeFields>, i: nat,
                      infile: Option<seq<char>>, outfile: Option<seq<char>>,
                      inOpenFails: bool, outOpenFails: bool): map<nat, Endpoint>
    requires i < |views| && PipesAbove(P, views)
  {
    P[0 := StdinOf(P, views, i, infile, inOpenFails)][1 := StdoutOf(P, views, i, outfile, outOpenFails)]
      - PipeFds(views)
  }

  /** The pipe ends are exactly the descriptors the builder added to `E0`. */
  lemma PipeFdsAdded(E0: map<nat, Endpoint>, c0: nat, P: map<nat, Endpoint>, views: seq<NodeFields>)
    requires PipesAdded(E0, c0, P, views)
    ensures forall fd | fd in PipeFds(views) :: fd !in E0 && fd in P
    ensures forall fd | fd in P :: fd in E0 || fd in PipeFds(views)
    ensures forall fd | fd in E0 :: fd in P && P[fd] == E0[fd]
  {
    PipeFdsMeaning(views);
    forall fd | fd in PipeFds(views)
      ensures fd !in E0 && fd in P
    {
      var k :| 0 <= k < |views| && (fd == ReadEnds(views)[k] || fd == WriteEnds(views)[k]);
    }
  }

  /**
   * In the child of stage `i`, started from the builder's table: it has
   * exactly the shell's descriptors; descriptor 0 reads channel `i - 1`
   * unless `i` is the first stage; descriptor 1 writes channel `i` when it
   * has no output file and is not the last stage; every other descriptor
   * is the shell's own.
   */
  lemma ChildChannels(E0: map<nat, Endpoint>, c0: nat, P: map<nat, Endpoint>, views: seq<NodeFields>, i: nat,
                      infile: Option<seq<char>>, outfile: Option<seq<char>>, inOpenFails: bool, outOpenFails: bool)
    requires PipesAdded(E0, c0, P, views) && 0 in E0 && 1 in E0 && i < |views|
    ensures PipesAbove(P, views)
    ensures var C := ChildTable(P, views, i, infile, outfile, inOpenFails, outOpenFails);
      C.Keys == E0.Keys
      && C[0] == (if i > 0 then PipeRead(c0 + i - 1)
                  else if infile.Some? && !inOpenFails then File(infile.value, ReadOnly)
                  else E0[0])
      && C[1] == (if outfile.Some? && !outOpenFails then File(outfile.value, ReadWriteCreate)
                  else if i != |views| - 1 then PipeWrite(c0 + i)
                  else E0[1])
      && forall fd | fd in C && 1 < fd :: C[fd] == E0[fd]
  {
    PipesAddedAbove(E0, c0, P, views);
    PipeFdsAdded(E0, c0, P, views);
    var si := StdinOf(P, views, i, infile, inOpenFails);
    var so := StdoutOf(P, views, i, outfile, outOpenFails);
    ChildKeys(E0, P, PipeFds(views), si, so);
    assert si == (if i > 0 then PipeRead(c0 + i - 1)
                  else if infile.Some? && !inOpenFails then File(infile.value, ReadOnly)
                  else E0[0]);
    assert so == (if outfile.Some? && !outOpenFails then File(outfile.value, ReadWriteCreate)
                  else if i != |views| - 1 then PipeWrite(c0 + i)
                  else E0[1]);
  }

  /** Setting descriptors 0 and 1 of `P` and closing the added descriptors `D` leaves `E0`'s descriptors. */
  lemma ChildKeys(E0: map<nat, Endpoint>, P: map<nat, Endpoint>, D: set<nat>, si: Endpoint, so: Endpoint)
    requires 0 in E0 && 1 in E0
    requires forall fd | fd in D :: fd !in E0 && fd in P
    requires forall fd | fd in P :: fd in E0 || fd in D
    requires forall fd | fd in E0 :: fd in P && P[fd] == E0[fd]
    ensures var C := P[0 := si][1 := so] - D;
      C.Keys == E0.Keys && C[0] == si && C[1] == so
      && forall fd | fd in C && 1 < fd :: C[fd] == E0[fd]
  {
    var C := P[0 := si][1 := so] - D;
    assert 0 !in D && 1 !in D;
    assert C.Keys == E0.Keys;
  }

  /**
   * With no output file on stage `i`, what it writes on descriptor 1 is
   * what stage `i + 1` reads on descriptor 0: the two ends of one channel.
   */
  lemma NeighboursShareChannel(E0: map<nat, Endpoint>, c0: nat, P: map<nat, Endpoint>, views: seq<NodeFields>,
                               i: nat, infile: Option<seq<char>>, outfile: Option<seq<char>>,
                               infile': Option<seq<char>>, outfile': Option<seq<char>>,
                               inOpenFails: bool, outOpenFails: bool, inOpenFails': bool, outOpenFails': bool)
    requires PipesAdded(E0, c0, P, views) && 0 in E0 && 1 in E0 && i + 1 < |views|
    requires outfile.None? || outOpenFails
    ensures PipesAbove(P, views)
    ensures var C := ChildTable(P, views, i, infile, outfile, inOpenFails, outOpenFails);
      1 in C && C[1] == PipeWrite(c0 + i)
    ensures var C' := ChildTable(P, views, i + 1, infile', outfile', inOpenFails', outOpenFails');
      0 in C' && C'[0] == PipeRead(c0 + i)
  {
    ChildChannels(E0, c0, P, views, i, infile, outfile, inOpenFails, outOpenFails);
    ChildChannels(E0, c0, P, views, i + 1, infile', outfile', inOpenFails', outOpenFails');
  }

  /** Closing every pipe end gives back the table the shell had before the builder ran. */
  lemma PipesClosed(E0: map<nat, Endpoint>, c0: nat, P: map<nat, Endpoint>, views: seq<NodeFields>)
    requires PipesAdded(E0, c0, P, views)
    ensures P - PipeFds(views) == E0
  {
    PipeFdsAdded(E0, c0, P, views);
  }

  // ---------------------------------------------------------------------------
  // The operations

  /** Lines 122-125 and 142-146: close both ends of every node's pipe. */
  method CloseAll(nodes: array<ProgramNode?>, fds: FdTable, ghost views: seq<NodeFields>)
    requires nodes.Length == |views| && NodesHold(nodes[..], views)
    modifies fds
    ensures fds.entries == old(fds.entries) - PipeFds(views) && fds.channels == old(fds.channels)
  {
    var k := 0;
    while k < nodes.Length
      invariant 0 <= k <= nodes.Length
      invariant fds.entries == old(fds.entries) - PipeFds(views[..k]) && fds.channels == old(fds.channels)
    {
      assert views[..k + 1][..k] == views[..k];
      fds.Close(nodes[k].pipelineInput);
      fds.Close(nodes[k].pipelineOutput);
      k := k + 1;
    }
    assert views[..k] == views;
  }

  /**
   * Lines 99-125: the child of stage `i` sets its standard input and
   * output and closes every pipe end. `inOpenFails` / `outOpenFails` are
   * `open` returning -1; the `dup2` and `close` on -1 that follow then
   * fail and change nothing, so they are skipped here.
   */
  method WireChild(buf: array<char>, nodes: array<ProgramNode?>, i: nat, fds: FdTable, ghost views: seq<NodeFields>,
                   inOpenFails: bool, outOpenFails: bool)
    requires nodes.Length == |views| && NodesHold(nodes[..], views) && i < |views|
    requires PipesAbove(fds.entries, views)
    requires views[i].infile.At? ==> HasNul(buf[..], views[i].infile.index)
    requires views[i].outfile.At? ==> HasNul(buf[..], views[i].outfile.index)
    modifies fds
    ensures fds.entries == ChildTable(old(fds.entries), views, i, FileName(buf[..], views[i].infile),
                                      FileName(buf[..], views[i].outfile), inOpenFails, outOpenFails)
    ensures fds.channels == old(fds.channels)
  {
    ghost var P := fds.entries;
    ghost var infile := FileName(buf[..], views[i].infile);
    ghost var outfile := FileName(buf[..], views[i].outfile);
    var node := nodes[i];
    assert FieldsOf(node) == views[i];
    if i == 0 && node.infile != Null && !inOpenFails {
      OpenOnto(fds, CStr(buf[..], node.infile.index), ReadOnly, 0);
    }
    ghost var A := if i == 0 && infile.Some? && !inOpenFails then File(infile.value, ReadOnly) else P[0];
    assert fds.entries == P[0 := A];
    if i != nodes.Length - 1 {
      fds.Dup2(node.pipelineInput, 1);
    }
    ghost var B := if i != |views| - 1 then P[views[i].pipelineInput] else P[1];
    assert fds.entries == P[0 := A][1 := B];
    if node.outfile != Null && !outOpenFails {
      OpenOnto(fds, CStr(buf[..], node.outfile.index), ReadWriteCreate, 1);
    }
    assert fds.entries == P[0 := A][1 := StdoutOf(P, views, i, outfile, outOpenFails)];
    if i > 0 {
      var previous := nodes[i - 1];
      assert FieldsOf(previous) == views[i - 1];
      fds.Dup2(previous.pipelineOutput, 0);
    }
    assert fds.entries == P[0 := StdinOf(P, views, i, infile, inOpenFails)][1 := StdoutOf(P, views, i, outfile, outOpenFails)];
    CloseAll(nodes, fds, views);
  }

  /**
   * Lines 100-102 and 112-114: open a file, `dup2` it onto `target` and
   * close the descriptor `open` gave.
   */
  method OpenOnto(fds: FdTable, path: seq<char>, mode: Mode, target: nat)
    requires target in fds.entries
    modifies fds
    ensures fds.entries == old(fds.entries)[target := File(path, mode)] && fds.channels == old(fds.channels)
  {
    var fd := fds.Open(path, mode);
    fds.Dup2(fd, target);
    fds.Close(fd);
    assert fd != target;
  }

  /** What a child does last (lines 127-129): become the program, or exit with 255 when `execvp` fails. */
  datatype Outcome = Exec(program: Ptr, argv: seq<Ptr>) | Exited(status: int)

  /** Lines 88-129 for stage `i`: a child made by `fork` with a copy of the shell's table, wired, then `execvp`. */
  method SpawnChild(parent: FdTable, buf: array<char>, nodes: array<ProgramNode?>, i: nat, ghost views: seq<NodeFields>,
                    inOpenFails: bool, outOpenFails: bool, execFails: bool)
    returns (child: FdTable, outcome: Outcome)
    requires nodes.Length == |views| && NodesHold(nodes[..], views) && i < |views|
    requires PipesAbove(parent.entries, views)
    requires views[i].infile.At? ==> HasNul(buf[..], views[i].infile.index)
    requires views[i].outfile.At? ==> HasNul(buf[..], views[i].outfile.index)
    ensures fresh(child)
    ensures child.entries == ChildTable(parent.entries, views, i, FileName(buf[..], views[i].infile),
                                        FileName(buf[..], views[i].outfile), inOpenFails, outOpenFails)
    ensures outcome == if execFails then Exited(255) else Exec(views[i].programPath, views[i].argv)
  {
    child := new FdTable.Copy(parent);
    WireChild(buf, nodes, i, child, views, inOpenFails, outOpenFails);
    var node := nodes[i];
    assert FieldsOf(node) == views[i];
    if execFails {
      outcome := Exited(255);
    } else {
      outcome := Exec(node.programPath, node.argv);
    }
  }

  /** Every node's file names can be read. */
  ghost predicate NamesReadable(b: seq<char>, views: seq<NodeFields>) {
    forall k | 0 <= k < |views| ::
      (views[k].infile.At? ==> HasNul(b, views[k].infile.index))
      && (views[k].outfile.At? ==> HasNul(b, views[k].outfile.index))
  }

  /**
   * Lines 86-135: one child per stage, in order. The shell's first failing
   * `fork` (at `forkFailsAt`, if that is a stage) makes it exit with
   * status 1, and the children started before it keep running.
   */
  method LaunchAll(parent: FdTable, buf: array<char>, nodes: array<ProgramNode?>, ghost views: seq<NodeFields>,
                   inOpenFails: set<nat>, outOpenFails: set<nat>, execFails: set<nat>, forkFailsAt: nat)
    returns (children: seq<FdTable>, outcomes: seq<Outcome>, shellExit: Option<int>)
    requires nodes.Length == |views| && NodesHold(nodes[..], views)
    requires PipesAbove(parent.entries, views) && NamesReadable(buf[..], views)
    ensures shellExit == if forkFailsAt < |views| then Some(1) else None
    ensures |children| == |outcomes| == if forkFailsAt < |views| then forkFailsAt else |views|
    ensures forall k | 0 <= k < |children| :: fresh(children[k])
    ensures forall k | 0 <= k < |children| ::
      children[k].entries == ChildTable(parent.entries, views, k, FileName(buf[..], views[k].infile),
                                        FileName(buf[..], views[k].outfile), k in inOpenFails, k in outOpenFails)
      && outcomes[k] == if k in execFails then Exited(255) else Exec(views[k].programPath, views[k].argv)
  {
    children, outcomes := [], [];
    var i := 0;
    while i < nodes.Length
      invariant 0 <= i <= nodes.Length && i <= forkFailsAt
      invariant |children| == |outcomes| == i
      invariant forall k | 0 <= k < i :: fresh(children[k])
      invariant forall k | 0 <= k < i ::
        children[k].entries == ChildTable(parent.entries, views, k, FileName(buf[..], views[k].infile),
                                          FileName(buf[..], views[k].outfile), k in inOpenFails, k in outOpenFails)
        && outcomes[k] == if k in execFails then Exited(255) else Exec(views[k].programPath, views[k].argv)
    {
      if i == forkFailsAt {
        return children, outcomes, Some(1);
      }
      var child, outcome := SpawnChild(parent, buf, nodes, i, views, i in inOpenFails, i in outOpenFails,
                                       i in execFails);
      children, outcomes := children + [child], outcomes + [outcome];
      i := i + 1;
    }
    shellExit := None;
  }
}
