/**
 * The two text utilities of src/utils.c: `trimWhiteSpace`, which trims a C
 * string in place by moving the pointer forward and writing one terminator,
 * and `readString`, which reads one line from a character stream into a heap
 * buffer that doubles as it fills.
 */
module Utils {
  import opened CStrings
  import opened Growth

  // ---------------------------------------------------------------------------
  // Trimming

  predicate AllSpace(s: seq<char>) {
    forall k | 0 <= k < |s| :: IsSpace(s[k])
  }

  /** Number of leading whitespace characters. */
  function LeadingSpace(s: seq<char>): (n: nat)
    ensures n <= |s|
    ensures forall k | 0 <= k < n :: IsSpace(s[k])
    ensures n < |s| ==> !IsSpace(s[n])
  {
    if s != [] && IsSpace(s[0]) then 1 + LeadingSpace(s[1..]) else 0
  }

  /** The position just after the last non-whitespace character (0 if there is none). */
  function ContentEnd(s: seq<char>): (n: nat)
    ensures n <= |s|
    ensures forall k | n <= k < |s| :: IsSpace(s[k])
    ensures n > 0 ==> !IsSpace(s[n - 1])
  {
    if s != [] && IsSpace(s[|s| - 1]) then ContentEnd(s[..|s| - 1]) else |s|
  }

  /** The text with leading and trailing `isspace` characters removed. */
  function Trim(s: seq<char>): (r: seq<char>)
    ensures r == [] <==> AllSpace(s)
    ensures r != [] ==> !IsSpace(r[0]) && !IsSpace(r[|r| - 1])
    ensures |r| <= |s|
  {
    var a := LeadingSpace(s);
    if a == |s| then [] else s[a..ContentEnd(s)]
  }

  /**
   * What a pointer to the start of `s` reads once `trimWhiteSpace` has run on
   * it: the text cut at the terminator written after its last non-space
   * character, or all of it when nothing was written.
   */
  function ReadAfterTrim(s: seq<char>): seq<char> {
    if AllSpace(s) then s else s[..ContentEnd(s)]
  }

  lemma LeadingSpaceIs(s: seq<char>, n: nat)
    requires n <= |s| && (forall k | 0 <= k < n :: IsSpace(s[k])) && (n < |s| ==> !IsSpace(s[n]))
    ensures LeadingSpace(s) == n
  {
  }

  lemma ContentEndIs(s: seq<char>, n: nat)
    requires n <= |s| && (forall k | n <= k < |s| :: IsSpace(s[k])) && (n > 0 ==> !IsSpace(s[n - 1]))
    ensures ContentEnd(s) == n
  {
  }

  /** The trimmed text is a contiguous slice with only whitespace around it. */
  lemma TrimIsSlice(s: seq<char>)
    ensures exists i, j | 0 <= i <= j <= |s| :: Trim(s) == s[i..j] && AllSpace(s[..i]) && AllSpace(s[j..])
  {
    var a := LeadingSpace(s);
    if a == |s| {
      assert Trim(s) == s[a..a] && AllSpace(s[..a]) && AllSpace(s[a..]);
    } else {
      var b := ContentEnd(s);
      assert Trim(s) == s[a..b] && AllSpace(s[..a]) && AllSpace(s[b..]);
    }
  }

  /** A text that neither starts nor ends with whitespace is its own trim. */
  lemma TrimOfTrimmed(s: seq<char>)
    requires s != [] ==> !IsSpace(s[0]) && !IsSpace(s[|s| - 1])
    ensures Trim(s) == s
  {
    if s != [] {
      LeadingSpaceIs(s, 0);
      ContentEndIs(s, |s|);
    }
  }

  /** Trimming twice is trimming once. */
  lemma TrimIdempotent(s: seq<char>)
    ensures Trim(Trim(s)) == Trim(s)
  {
    TrimOfTrimmed(Trim(s));
  }

  /** Whitespace around a trimmed word is exactly what `Trim` removes. */
  lemma TrimPadded(a: seq<char>, x: seq<char>, b: seq<char>)
    requires AllSpace(a) && AllSpace(b) && Trim(x) == x
    ensures Trim(a + x + b) == x
  {
    var s := a + x + b;
    if x == [] {
      assert AllSpace(s) by {
        forall k | 0 <= k < |s|
          ensures IsSpace(s[k])
        {
          if k < |a| { assert s[k] == a[k]; } else { assert s[k] == b[k - |a|]; }
        }
      }
    } else {
      assert s[|a|] == x[0] && s[|a| + |x| - 1] == x[|x| - 1];
      forall k | 0 <= k < |a|
        ensures IsSpace(s[k])
      {
        assert s[k] == a[k];
      }
      forall k | |a| + |x| <= k < |s|
        ensures IsSpace(s[k])
      {
        assert s[k] == b[k - |a| - |x|];
      }
      LeadingSpaceIs(s, |a|);
      ContentEndIs(s, |a| + |x|);
      assert s[|a|..|a| + |x|] == x;
    }
  }

  /** Without leading whitespace, the text read from the start is the trimmed text. */
  lemma ReadAfterTrimNoLead(s: seq<char>)
    requires s != [] ==> !IsSpace(s[0])
    ensures ReadAfterTrim(s) == Trim(s)
  {
    if s != [] {
      LeadingSpaceIs(s, 0);
    }
  }

  /**
   * `trimWhiteSpace(str)` on the string at `p`: the pointer moves past the
   * leading whitespace; when something is left, one NUL is stored after its
   * last non-whitespace character. For an empty or all-whitespace string
   * the result points at the terminator and nothing is written.
   */
  method TrimWhiteSpace(buf: array<char>, p: nat) returns (q: nat)
    requires HasNul(buf[..], p)
    modifies buf
    ensures Within(buf[..], q, p, NulAt(old(buf[..]), p))
    ensures CStr(buf[..], q) == Trim(CStr(old(buf[..]), p))
    ensures forall k | p <= k < q :: IsSpace(old(buf[k]))
    ensures AllSpace(CStr(old(buf[..]), p)) ==>
      q == NulAt(old(buf[..]), p) && buf[..] == old(buf[..])
    ensures !AllSpace(CStr(old(buf[..]), p)) ==>
      buf[..] == old(buf[..])[q + |Trim(CStr(old(buf[..]), p))| := NUL]
    ensures Trim(CStr(old(buf[..]), p)) == CStr(old(buf[..]), p) ==> q == p && buf[..] == old(buf[..])
    ensures OnlyNulsWithin(old(buf[..]), buf[..], p, NulAt(old(buf[..]), p))
    ensures HasNul(buf[..], p) && CStr(buf[..], p) == ReadAfterTrim(CStr(old(buf[..]), p))
    ensures NulAt(buf[..], p) == NulAt(buf[..], q)
  {
    ghost var b0 := buf[..];
    ghost var E := NulAt(b0, p);
    q := p;
    while IsSpace(buf[q])
      invariant p <= q <= E
      invariant forall k | p <= k < q :: IsSpace(buf[k])
      decreases E - q
    {
      q := q + 1;
    }
    if buf[q] == NUL {
      TrimAllSpace(b0, p, q);
      return;
    }
    NulAtIs(b0, q, E);
    var end := NulAt(buf[..], q) - 1;
    while end > q && IsSpace(buf[end])
      invariant q <= end < E
      invariant forall k | end < k < E :: IsSpace(buf[k])
    {
      end := end - 1;
    }
    buf[end + 1] := NUL;
    TrimFound(b0, p, q, end);
  }

  /** On values: the text at `p` is all whitespace up to its terminator at `q`. */
  lemma TrimAllSpace(b0: seq<char>, p: nat, q: nat)
    requires HasNul(b0, p) && p <= q < |b0| && b0[q] == NUL
    requires forall k | p <= k < q :: IsSpace(b0[k])
    ensures NulAt(b0, p) == q && AllSpace(CStr(b0, p)) && Trim(CStr(b0, p)) == []
    ensures Within(b0, q, p, q) && CStr(b0, q) == []
    ensures Trim(CStr(b0, p)) == CStr(b0, p) ==> q == p
    ensures OnlyNulsWithin(b0, b0, p, q)
  {
    NulAtIs(b0, p, q);
    NulAtIs(b0, q, q);
    var S := CStr(b0, p);
    forall k | 0 <= k < |S|
      ensures IsSpace(S[k])
    {
      assert S[k] == b0[p + k];
    }
  }

  /** On values: the non-whitespace content of `S` lies at `[a, b)`. */
  lemma TrimContent(S: seq<char>, a: nat, b: nat)
    requires a < b <= |S|
    requires forall k | 0 <= k < a :: IsSpace(S[k])
    requires forall k | b <= k < |S| :: IsSpace(S[k])
    requires !IsSpace(S[a]) && !IsSpace(S[b - 1])
    ensures !AllSpace(S) && Trim(S) == S[a..b] && ReadAfterTrim(S) == S[..b]
  {
    LeadingSpaceIs(S, a);
    ContentEndIs(S, b);
  }

  /** The same, located in the buffer. */
  lemma TrimContentAt(b0: seq<char>, p: nat, q: nat, end: nat)
    requires HasNul(b0, p) && p <= q <= end < NulAt(b0, p)
    requires forall k | p <= k < q :: IsSpace(b0[k])
    requires !IsSpace(b0[q]) && !IsSpace(b0[end])
    requires forall k | end < k < NulAt(b0, p) :: IsSpace(b0[k])
    ensures !AllSpace(CStr(b0, p))
    ensures Trim(CStr(b0, p)) == b0[q..end + 1]
    ensures ReadAfterTrim(CStr(b0, p)) == b0[p..end + 1]
  {
    var E := NulAt(b0, p);
    var S := b0[p..E];
    assert S == CStr(b0, p);
    forall k | 0 <= k < q - p
      ensures IsSpace(S[k])
    {
      assert S[k] == b0[p + k];
    }
    forall k | end + 1 - p <= k < |S|
      ensures IsSpace(S[k])
    {
      assert S[k] == b0[p + k];
    }
    assert S[q - p] == b0[q] && S[end - p] == b0[end];
    TrimContent(S, q - p, end + 1 - p);
    assert S[q - p..end + 1 - p] == b0[q..end + 1];
    assert S[..end + 1 - p] == b0[p..end + 1];
  }

  /** The buffer after the terminator store of `trimWhiteSpace`. */
  lemma TrimFound(b0: seq<char>, p: nat, q: nat, end: nat)
    requires HasNul(b0, p) && p <= q <= end < NulAt(b0, p)
    requires forall k | p <= k < q :: IsSpace(b0[k])
    requires !IsSpace(b0[q]) && !IsSpace(b0[end])
    requires forall k | end < k < NulAt(b0, p) :: IsSpace(b0[k])
    ensures !AllSpace(CStr(b0, p))
    ensures q + |Trim(CStr(b0, p))| == end + 1
    ensures Within(b0[end + 1 := NUL], q, p, NulAt(b0, p))
    ensures CStr(b0[end + 1 := NUL], q) == Trim(CStr(b0, p))
    ensures HasNul(b0[end + 1 := NUL], p) && CStr(b0[end + 1 := NUL], p) == ReadAfterTrim(CStr(b0, p))
    ensures NulAt(b0[end + 1 := NUL], p) == NulAt(b0[end + 1 := NUL], q)
    ensures OnlyNulsWithin(b0, b0[end + 1 := NUL], p, NulAt(b0, p))
    ensures Trim(CStr(b0, p)) == CStr(b0, p) ==> q == p && b0[end + 1 := NUL] == b0
  {
    var E := NulAt(b0, p);
    TrimContentAt(b0, p, q, end);
    var b1 := b0[end + 1 := NUL];
    forall j | p <= j < end + 1
      ensures b1[j] != NUL
    {
      assert b1[j] == b0[j];
    }
    NulAtIs(b1, q, end + 1);
    NulAtIs(b1, p, end + 1);
    assert CStr(b1, q) == b0[q..end + 1];
    assert CStr(b1, p) == b0[p..end + 1];
    NulsStore(b0, end + 1, p, E);
    if Trim(CStr(b0, p)) == CStr(b0, p) {
      assert end + 1 == E;
    }
  }

  // ---------------------------------------------------------------------------
  // Reading a line

  const EOF: int := -1
  const NEWLINE: int := 10

  /** What `fgetc` can return: a byte value, or EOF. */
  predicate IsStream(stream: seq<int>) {
    forall k | 0 <= k < |stream| :: EOF <= stream[k] < 256
  }

  /** The next `fgetc` result at position `pos`; past the end of the sequence the stream is at EOF. */
  function Peek(stream: seq<int>, pos: nat): int {
    if pos < |stream| then stream[pos] else EOF
  }

  /** The number of characters before the first newline or EOF. */
  function LineLength(stream: seq<int>): (n: nat)
    requires IsStream(stream)
    ensures n <= |stream|
    ensures forall k | 0 <= k < n :: 0 <= stream[k] < 256 && stream[k] != NEWLINE
    ensures Peek(stream, n) == EOF || Peek(stream, n) == NEWLINE
  {
    if stream == [] || stream[0] == EOF || stream[0] == NEWLINE then 0
    else 1 + LineLength(stream[1..])
  }

  lemma LineLengthIs(stream: seq<int>, n: nat)
    requires IsStream(stream) && n <= |stream|
    requires forall k | 0 <= k < n :: stream[k] != EOF && stream[k] != NEWLINE
    requires Peek(stream, n) == EOF || Peek(stream, n) == NEWLINE
    ensures LineLength(stream) == n
  {
  }

  /** Allocation calls `readString` makes for a line of `n` characters when none fails: the first, the doublings, the final shrink. */
  function ReadAllocations(n: nat): nat {
    Doublings(n + 1, 16) + 2
  }

  /**
   * The read gave up at the doubling that `n` characters filling the block
   * call for, and that doubling (call number `Doublings(n + 1, 16)`) is the
   * first allocation call that fails.
   */
  predicate StoppedAtDoubling(stream: seq<int>, failing: set<nat>, n: nat)
    requires IsStream(stream)
  {
    n <= LineLength(stream) && n == Grown(n, 16)
    && Doublings(n + 1, 16) in failing && forall k | 0 <= k < Doublings(n + 1, 16) :: k !in failing
  }

  /**
   * `readString(fp)` over the stream `stream`. Allocation call number `k`
   * (0 for the first, then one per doubling, then the final shrink) fails
   * when `k` is in `failing`. On success the result holds the line without
   * its newline, then a NUL, in a block of exactly that size; the newline is
   * consumed, EOF is not. On failure the stream has been read up to the
   * first failing call: nothing for the first, the bytes that filled the
   * block for a doubling, the whole line for the final shrink.
   */
  method ReadString(stream: seq<int>, failing: set<nat>) returns (str: array?<char>, consumed: nat)
    requires IsStream(stream)
    ensures str == null <==> exists k | k in failing :: k < ReadAllocations(LineLength(stream))
    ensures str != null ==> str.Length == LineLength(stream) + 1 && str[LineLength(stream)] == NUL
    ensures str != null ==> forall k | 0 <= k < LineLength(stream) :: str[k] == stream[k] as char
    ensures str != null ==>
      consumed == LineLength(stream) + (if Peek(stream, LineLength(stream)) == NEWLINE then 1 else 0)
    ensures str == null ==>
      (0 in failing && consumed == 0)
      || StoppedAtDoubling(stream, failing, consumed)
      || (consumed == LineLength(stream) + (if Peek(stream, LineLength(stream)) == NEWLINE then 1 else 0)
          && forall k | 0 <= k < ReadAllocations(LineLength(stream)) - 1 :: k !in failing)
  {
    if 0 in failing {
      return null, 0;
    }
    var cap := 16;
    var s := new char[cap];
    var len := 0;
    var calls := 1;
    var pos := 0;
    var ch := Peek(stream, pos);
    if ch != EOF { pos := pos + 1; }
    while ch != EOF && ch != NEWLINE
      invariant fresh(s)
      invariant len <= LineLength(stream)
      invariant ch == Peek(stream, len) && pos == len + (if ch != EOF then 1 else 0)
      invariant s.Length == cap == Grown(len + 1, 16) && len < cap
      invariant calls == 1 + Doublings(len + 1, 16)
      invariant forall k | 0 <= k < calls :: k !in failing
      invariant forall k | 0 <= k < len :: s[k] == stream[k] as char
      decreases |stream| - len
    {
      s[len] := ch as char;
      len := len + 1;
      GrowStep(len, 16);
      if len == cap {
        cap := cap * 2;
        if calls in failing {
          ReadFailsAt(stream, len, calls, failing);
          assert len == Grown(len, 16) && calls == Doublings(len + 1, 16);
          return null, pos;
        }
        var grown := Realloc(s, cap);
        s := grown;
        calls := calls + 1;
      }
      ch := Peek(stream, pos);
      if ch != EOF { pos := pos + 1; }
    }
    LineLengthIs(stream, len);
    s[len] := NUL;
    len := len + 1;
    if calls in failing {
      return null, pos;
    }
    str := Realloc(s, len);
    consumed := pos;
  }

  /** A failing doubling call is one of the calls the whole line would have made. */
  lemma ReadFailsAt(stream: seq<int>, len: nat, calls: nat, failing: set<nat>)
    requires IsStream(stream) && 1 <= len <= LineLength(stream)
    requires calls in failing && calls <= Doublings(len + 1, 16)
    ensures exists k | k in failing :: k < ReadAllocations(LineLength(stream))
  {
    DoublingsMonotone(len + 1, LineLength(stream) + 1, 16);
  }

  lemma {:induction false} DoublingsMonotone(m: nat, n: nat, c: nat)
    requires c >= 1 && m <= n
    ensures Doublings(m, c) <= Doublings(n, c)
    decreases n - c
  {
    if m > c {
      DoublingsMonotone(m, n, 2 * c);
    }
  }
}
