/**
 * An abstract per-process descriptor table: what each open descriptor
 * number refers to. `pipe`, `open`, `dup2` and `close` are modelled by
 * their effect on the table; no operating system is involved.
 */
module Descriptors {

  datatype Mode = ReadOnly | ReadWriteCreate

  /** What a descriptor refers to: one the shell inherited, an end of a pipe, or an opened file. */
  datatype Endpoint =
    | Inherited(number: nat)
    | PipeRead(channel: nat)
    | PipeWrite(channel: nat)
    | File(path: seq<char>, mode: Mode)

  predicate IsPipe(e: Endpoint) {
    e.PipeRead? || e.PipeWrite?
  }

  /** `fd` is the lowest descriptor number not in `used`, the one `pipe` and `open` hand out. */
  predicate IsLowestFree(used: set<nat>, fd: nat) {
    fd !in used && forall k | 0 <= k < fd :: k in used
  }

  class FdTable {
    var entries: map<nat, Endpoint>
    /** How many pipes have been made so far; the next pipe gets this channel number. */
    var channels: nat

    constructor (initial: map<nat, Endpoint>)
      ensures entries == initial && channels == 0
    {
      entries := initial;
      channels := 0;
    }

    /** `fork`: the child starts with a copy of its parent's table. */
    constructor Copy(parent: FdTable)
      ensures entries == parent.entries && channels == parent.channels
    {
      entries := parent.entries;
      channels := parent.channels;
    }

    /** The lowest unused descriptor number. */
    method LowestFree() returns (fd: nat)
      ensures IsLowestFree(entries.Keys, fd)
    {
      fd := 0;
      while fd in entries
        invariant forall k | 0 <= k < fd :: k in entries
        invariant fd <= |entries.Keys|
        decreases |entries.Keys| - fd
      {
        RangeInside(entries.Keys, fd + 1);
        fd := fd + 1;
      }
    }

    /**
     * `pipe(fildes)`: a new channel, its read end on the lowest free
     * descriptor and its write end on the next one.
     */
    method Pipe() returns (rd: nat, wr: nat)
      modifies this
      ensures IsLowestFree(old(entries).Keys, rd) && IsLowestFree(old(entries).Keys + {rd}, wr)
      ensures entries == old(entries)[rd := PipeRead(old(channels))][wr := PipeWrite(old(channels))]
      ensures channels == old(channels) + 1
    {
      rd := LowestFree();
      entries := entries[rd := PipeRead(channels)];
      assert entries.Keys == old(entries).Keys + {rd};
      wr := LowestFree();
      entries := entries[wr := PipeWrite(channels)];
      channels := channels + 1;
    }

    /** `open(path, mode)`: the file on the lowest free descriptor. */
    method Open(path: seq<char>, mode: Mode) returns (fd: nat)
      modifies this
      ensures IsLowestFree(old(entries).Keys, fd)
      ensures entries == old(entries)[fd := File(path, mode)] && channels == old(channels)
    {
      fd := LowestFree();
      entries := entries[fd := File(path, mode)];
    }

    /**
     * `dup2(oldfd, newfd)`: `newfd` comes to refer to what `oldfd` refers
     * to; when `oldfd` is not open the call fails and nothing changes.
     */
    method Dup2(oldfd: nat, newfd: nat)
      modifies this
      ensures entries == if oldfd in old(entries) then old(entries)[newfd := old(entries)[oldfd]] else old(entries)
      ensures channels == old(channels)
    {
      if oldfd in entries {
        entries := entries[newfd := entries[oldfd]];
      }
    }

    /** `close(fd)`; closing a descriptor that is not open changes nothing. */
    method Close(fd: nat)
      modifies this
      ensures entries == old(entries) - {fd} && channels == old(channels)
    {
      entries := entries - {fd};
    }
  }

  /** A pipe's two ends are the two lowest free descriptors, so neither was in use and they differ. */
  lemma PipeEndsFresh(used: set<nat>, rd: nat, wr: nat)
    requires IsLowestFree(used, rd) && IsLowestFree(used + {rd}, wr)
    ensures rd !in used && wr !in used && rd < wr
  {
  }

  /** Descriptors `0 .. m-1` all in use means at least `m` are in use. */
  lemma {:induction false} RangeInside(used: set<nat>, m: nat)
    requires forall k | 0 <= k < m :: k in used
    ensures m <= |used|
    decreases m
  {
    if m > 0 {
      RangeInside(used - {m - 1}, m - 1);
    }
  }
}
