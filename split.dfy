/**
 * The two splitters of the shell: `extractPipeOps` cuts a command line into
 * pipeline stages at `|`, and `sepPathAndArgs` cuts a command into its
 * program and arguments at ` `. Both walk the text with `strtok_r`, trim
 * every token in place and collect the trimmed pointers in a heap array that
 * starts with two slots and doubles when full.
 */
module Split {
  import opened CStrings
  import opened Tokens
  import opened Utils
  import opened Growth

  const PIPELINE_SEPARATOR: char := '|'
  const ARGS_SEPARATOR: char := ' '

  /** The fields of `s` split on `d`, each trimmed: what a splitter collects. */
  function TrimmedFields(s: seq<char>, d: char): (r: seq<seq<char>>)
    ensures |r| == |Fields(s, d)|
    ensures forall k | 0 <= k < |r| :: r[k] == Trim(Fields(s, d)[k]) && d !in r[k]
  {
    var F := Fields(s, d);
    TrimmedHasNoDelim(F, d);
    seq(|F|, k requires 0 <= k < |F| => Trim(F[k]))
  }

  lemma TrimmedHasNoDelim(F: seq<seq<char>>, d: char)
    requires forall k | 0 <= k < |F| :: d !in F[k]
    ensures forall k | 0 <= k < |F| :: d !in Trim(F[k])
  {
    forall k | 0 <= k < |F|
      ensures d !in Trim(F[k])
    {
      TrimIsSlice(F[k]);
    }
  }

  /**
   * The pointers `r` denote the strings `T`, in order: each lies inside
   * `[lo, hi]` and ends before the next one starts.
   */
  predicate Holds(s: seq<char>, r: seq<Ptr>, T: seq<seq<char>>, lo: nat, hi: nat) {
    |r| == |T|
    && (forall k | 0 <= k < |r| :: r[k].At? && Within(s, r[k].index, lo, hi))
    && (forall k | 0 <= k < |r| :: CStr(s, r[k].index) == T[k])
    && (forall j, k | 0 <= j < k < |r| :: NulAt(s, r[j].index) < r[k].index)
  }

  /** NUL writes outside `[lo, hi]` keep what `r` denotes. */
  lemma HoldsFrame(s: seq<char>, t: seq<char>, r: seq<Ptr>, T: seq<seq<char>>, lo: nat, hi: nat, wlo: int, whi: int)
    requires Holds(s, r, T, lo, hi) && OnlyNulsWithin(s, t, wlo, whi)
    requires hi <= wlo || whi < lo
    ensures Holds(t, r, T, lo, hi)
  {
    forall k | 0 <= k < |r|
      ensures Within(t, r[k].index, lo, hi) && CStr(t, r[k].index) == CStr(s, r[k].index)
      ensures NulAt(t, r[k].index) == NulAt(s, r[k].index)
    {
      CStrFrame(s, t, r[k].index, wlo, whi);
    }
  }

  lemma HoldsWiden(s: seq<char>, r: seq<Ptr>, T: seq<seq<char>>, lo: nat, hi: nat, lo': nat, hi': nat)
    requires Holds(s, r, T, lo, hi) && lo' <= lo && hi <= hi'
    ensures Holds(s, r, T, lo', hi')
  {
  }

  lemma TakeSnoc<X>(s: seq<X>, n: nat)
    requires n < |s|
    ensures s[..n] + [s[n]] == s[..n + 1]
  {
  }

  /** A string past the last of `r` can be appended. */
  lemma HoldsAppend(s: seq<char>, r: seq<Ptr>, T: seq<seq<char>>, lo: nat, hi: nat, x: nat, hi': nat)
    requires Holds(s, r, T, lo, hi) && Within(s, x, lo, hi') && hi <= hi'
    requires |r| > 0 ==> hi < x
    ensures Holds(s, r + [At(x)], T + [CStr(s, x)], lo, hi')
  {
    var r', T' := r + [At(x)], T + [CStr(s, x)];
    forall k | 0 <= k < |r'|
      ensures r'[k].At? && Within(s, r'[k].index, lo, hi') && CStr(s, r'[k].index) == T'[k]
    {
      if k < |r| {
        assert r'[k] == r[k] && T'[k] == T[k];
      }
    }
    forall j, k | 0 <= j < k < |r'|
      ensures NulAt(s, r'[j].index) < r'[k].index
    {
      assert r'[j] == r[j];
      if k < |r| {
        assert r'[k] == r[k];
      }
    }
  }

  /**
   * The state of the collecting loop while the token `tok` is in hand: the
   * first `|r|` trimmed fields are stored, `tok` (if any) is the next field,
   * and the text from `save` on holds the fields after it.
   */
  ghost predicate Collecting(b0: seq<char>, b: seq<char>, p: nat, d: char, r: seq<Ptr>, mark: nat, tok: Ptr, save: nat)
    requires HasNul(b0, p)
  {
    var E := NulAt(b0, p);
    var F := Fields(CStr(b0, p), d);
    var T := TrimmedFields(CStr(b0, p), d);
    p <= mark <= save <= E && HasNul(b, save) && NulAt(b, save) == E
    && OnlyNulsWithin(b0, b, p, E)
    && |r| <= |T| && Holds(b, r, T[..|r|], p, mark)
    && (tok.Null? ==> |r| == |F|)
    && (tok.At? ==>
          |r| < |F| && Within(b, tok.index, mark, save) && CStr(b, tok.index) == F[|r|]
          && (|r| > 0 ==> mark < tok.index)
          && (NulAt(b, tok.index) < save || save == E))
    && Fields(CStr(b, save), d) == F[|r| + (if tok.At? then 1 else 0)..]
  }

  /** The state of the collecting loop between storing a token and asking for the next. */
  ghost predicate Pending(b0: seq<char>, b: seq<char>, p: nat, d: char, r: seq<Ptr>, mark: nat, save: nat)
    requires HasNul(b0, p)
  {
    var E := NulAt(b0, p);
    var F := Fields(CStr(b0, p), d);
    var T := TrimmedFields(CStr(b0, p), d);
    p <= mark <= save <= E && HasNul(b, save) && NulAt(b, save) == E
    && OnlyNulsWithin(b0, b, p, E)
    && |r| <= |T| && Holds(b, r, T[..|r|], p, mark)
    && (|r| > 0 ==> mark < save || save == E)
    && Fields(CStr(b, save), d) == F[|r|..]
  }

  /** The `strtok_r` call that fetches the next field. */
  method NextField(buf: array<char>, s: Ptr, save: nat, d: char, ghost b0: seq<char>, ghost p: nat, ghost r: seq<Ptr>, ghost mark: nat)
    returns (tok: Ptr, next: nat)
    requires d != NUL && HasNul(b0, p) && Resume(s, save) == save
    requires Pending(b0, buf[..], p, d, r, mark, save)
    modifies buf
    ensures Collecting(b0, buf[..], p, d, r, mark, tok, next)
  {
    ghost var E := NulAt(b0, p);
    ghost var T := TrimmedFields(CStr(b0, p), d);
    ghost var b1 := buf[..];
    tok, next := StrTokR(buf, s, save, d);
    ghost var b2 := buf[..];
    HoldsFrame(b1, b2, r, T[..|r|], p, mark, save, E);
    NulsTrans(b0, b1, b2, p, E);
  }

  /** Trimming the token in hand and appending the result moves to the pending state. */
  lemma TrimmedPending(b0: seq<char>, b1: seq<char>, b2: seq<char>, p: nat, d: char, r: seq<Ptr>,
                       mark: nat, tok: nat, save: nat, x: nat)
    requires d != NUL && HasNul(b0, p)
    requires Collecting(b0, b1, p, d, r, mark, At(tok), save)
    requires Within(b2, x, tok, NulAt(b1, tok)) && CStr(b2, x) == Trim(CStr(b1, tok))
    requires OnlyNulsWithin(b1, b2, tok, NulAt(b1, tok))
    ensures Pending(b0, b2, p, d, r + [At(x)], NulAt(b1, tok), save)
  {
    var E := NulAt(b0, p);
    var T := TrimmedFields(CStr(b0, p), d);
    var e := NulAt(b1, tok);
    assert p <= mark <= tok <= e <= save <= E;
    NulsNarrow(b1, b2, tok, e);
    assert HasNul(b2, save) && NulAt(b2, save) == E && CStr(b2, save) == CStr(b1, save) by {
      CStrFrame(b1, b2, save, tok, e - 1);
    }
    assert Holds(b2, r + [At(x)], T[..|r| + 1], p, e) by {
      HoldsFrame(b1, b2, r, T[..|r|], p, mark, tok, e - 1);
      HoldsAppend(b2, r, T[..|r|], p, mark, x, e);
      var F := Fields(CStr(b0, p), d);
      assert CStr(b2, x) == Trim(F[|r|]) == T[|r|];
      TakeSnoc(T, |r|);
    }
    assert OnlyNulsWithin(b0, b2, p, E) by {
      NulsWiden(b1, b2, tok, e - 1, p, E);
      NulsTrans(b0, b1, b2, p, E);
    }
  }

  /** Lines 174-177: double the capacity when the array is full. */
  method GrowIfFull(result: array<Ptr>, size: nat) returns (result': array<Ptr>)
    requires size <= result.Length == Grown(size, 2)
    ensures fresh(result') || result' == result
    ensures size < result'.Length == Grown(size + 1, 2)
    ensures result'[..size] == result[..size]
  {
    GrowStep(size, 2);
    result' := result;
    if size == result.Length {
      result' := Realloc(result, 2 * result.Length);
      assert result'[..size] == result[..size];
    }
  }

  /** Lines 174-180: grow the array when it is full, then trim the token in hand and store it. */
  method StoreToken(buf: array<char>, result: array<Ptr>, size: nat, tok: nat, save: nat, d: char,
                    ghost b0: seq<char>, ghost p: nat, ghost mark: nat)
    returns (result': array<Ptr>, size': nat, ghost mark': nat)
    requires d != NUL && HasNul(b0, p) && size <= result.Length == Grown(size, 2)
    requires Collecting(b0, buf[..], p, d, result[..size], mark, At(tok), save)
    modifies buf, result
    ensures fresh(result') || result' == result
    ensures size' == size + 1 && size' <= result'.Length == Grown(size', 2)
    ensures Pending(b0, buf[..], p, d, result'[..size'], mark', save)
  {
    ghost var b1 := buf[..];
    ghost var stored := result[..size];
    result' := GrowIfFull(result, size);
    var x := TrimWhiteSpace(buf, tok);
    ghost var b2 := buf[..];
    TrimmedPending(b0, b1, b2, p, d, stored, mark, tok, save, x);
    Append(result', size, At(x));
    size' := size + 1;
    mark' := NulAt(b1, tok);
  }

  /** Line 246: `result[size++] = token` into a slot the capacity check made room for. */
  method Append(result: array<Ptr>, size: nat, x: Ptr)
    requires size < result.Length
    modifies result
    ensures result[..size + 1] == old(result[..size]) + [x]
  {
    result[size] := x;
    assert result[..size + 1] == old(result[..size]) + [x];
  }

  /**
   * The loop shared by `extractPipeOps` and `sepPathAndArgs`: the first
   * `size` slots of `result` point at the trimmed fields of the text at `p`,
   * and the capacity is what doubling from 2 gives for `size` entries.
   */
  method CollectTrimmedFields(buf: array<char>, p: nat, d: char) returns (result: array<Ptr>, size: nat)
    requires d != NUL && HasNul(buf[..], p)
    modifies buf
    ensures fresh(result)
    ensures size <= result.Length == Grown(size, 2)
    ensures Holds(buf[..], result[..size], TrimmedFields(CStr(old(buf[..]), p), d), p, NulAt(old(buf[..]), p))
    ensures OnlyNulsWithin(old(buf[..]), buf[..], p, NulAt(old(buf[..]), p))
  {
    ghost var b0 := buf[..];
    ghost var F := Fields(CStr(b0, p), d);
    result := new Ptr[2];
    size := 0;
    ghost var mark: nat := p;
    assert Pending(b0, buf[..], p, d, result[..0], mark, p);
    var tok, save := NextField(buf, At(p), p, d, b0, p, result[..0], mark);
    while tok.At?
      invariant fresh(result)
      invariant size <= result.Length == Grown(size, 2)
      invariant Collecting(b0, buf[..], p, d, result[..size], mark, tok, save)
      decreases |F| - size
    {
      result, size, mark := StoreToken(buf, result, size, tok.index, save, d, b0, p, mark);
      tok, save := NextField(buf, Null, save, d, b0, p, result[..size], mark);
    }
    ghost var T := TrimmedFields(CStr(b0, p), d);
    assert T[..size] == T;
    HoldsWiden(buf[..], result[..size], T, p, mark, p, NulAt(b0, p));
  }

  /**
   * `extractPipeOps(input, &sz)`: the trimmed `|`-separated stages of the
   * line at `p`, in a block of exactly that many slots (no sentinel). When the
   * first allocation fails the result is NULL and the caller's count (0)
   * stays as it was.
   */
  method ExtractPipeOps(buf: array<char>, p: nat, allocFails: bool) returns (ops: array?<Ptr>, size: nat)
    requires HasNul(buf[..], p)
    modifies buf
    ensures allocFails ==> ops == null && size == 0 && buf[..] == old(buf[..])
    ensures !allocFails ==>
      ops != null && fresh(ops) && ops.Length == size
      && Holds(buf[..], ops[..], TrimmedFields(CStr(old(buf[..]), p), PIPELINE_SEPARATOR), p, NulAt(old(buf[..]), p))
    ensures OnlyNulsWithin(old(buf[..]), buf[..], p, NulAt(old(buf[..]), p))
  {
    if allocFails {
      NulsRefl(buf[..], p, NulAt(buf[..], p));
      return null, 0;
    }
    var result, n := CollectTrimmedFields(buf, p, PIPELINE_SEPARATOR);
    ops := Realloc(result, n);
    size := n;
    assert ops[..] == result[..n];
  }

  /**
   * `sepPathAndArgs(path, &sz)` with room made for the NULL sentinel: the
   * trimmed space-separated words of the text at `path`, followed by one
   * NULL, in a block of exactly that many slots; `size` counts the sentinel.
   * When the first allocation fails the result is NULL.
   */
  method SepPathAndArgs(buf: array<char>, path: nat, allocFails: bool) returns (argv: array?<Ptr>, size: nat)
    requires HasNul(buf[..], path)
    modifies buf
    ensures allocFails ==> argv == null && buf[..] == old(buf[..])
    ensures !allocFails ==>
      var T := TrimmedFields(CStr(old(buf[..]), path), ARGS_SEPARATOR);
      argv != null && fresh(argv) && argv.Length == size == |T| + 1 && argv[|T|] == Null
      && Holds(buf[..], argv[..|T|], T, path, NulAt(old(buf[..]), path))
    ensures OnlyNulsWithin(old(buf[..]), buf[..], path, NulAt(old(buf[..]), path))
  {
    if allocFails {
      NulsRefl(buf[..], path, NulAt(buf[..], path));
      return null, 0;
    }
    var result, n := CollectTrimmedFields(buf, path, ARGS_SEPARATOR);
    ghost var words := result[..n];
    if n == result.Length {
      result := Realloc(result, 2 * n);
    }
    assert result[..n] == words;
    result[n] := Null;
    assert result[..n] == words;
    argv := Realloc(result, n + 1);
    size := n + 1;
    assert argv[..n] == words;
  }

  /**
   * `sepPathAndArgs(path, &sz)` as written: the NULL sentinel is stored
   * without checking the capacity. `overflow` reports that this store falls
   * one past the end of the block, which happens exactly when the number of
   * words is a power of two from 2 on; the model stops there.
   */
  method SepPathAndArgsAsWritten(buf: array<char>, path: nat, allocFails: bool)
    returns (argv: array?<Ptr>, size: nat, overflow: bool)
    requires HasNul(buf[..], path)
    modifies buf
    ensures allocFails ==> argv == null && !overflow
    ensures !allocFails ==>
      var n := |TrimmedFields(CStr(old(buf[..]), path), ARGS_SEPARATOR)|;
      (overflow <==> n >= 2 && IsPow2(n))
      && (overflow ==> argv != null && argv.Length == n && size == n + 1)
    ensures !allocFails && !overflow ==>
      var T := TrimmedFields(CStr(old(buf[..]), path), ARGS_SEPARATOR);
      argv != null && fresh(argv) && argv.Length == size == |T| + 1 && argv[|T|] == Null
      && Holds(buf[..], argv[..|T|], T, path, NulAt(old(buf[..]), path))
  {
    if allocFails {
      return null, 0, false;
    }
    var result, n := CollectTrimmedFields(buf, path, ARGS_SEPARATOR);
    ghost var words := result[..n];
    assert IsPow2(2) by {
      assert IsPow2(1);
    }
    GrownFull(n, 2);
    if n == result.Length {
      return result, n + 1, true;
    }
    result[n] := Null;
    assert result[..n] == words;
    argv := Realloc(result, n + 1);
    size := n + 1;
    overflow := false;
    assert argv[..n] == words;
  }

  /** `echo hello` has two words, so the sentinel store of the unpatched splitter overflows. */
  lemma EchoHelloOverflows()
    ensures var n := |TrimmedFields("echo hello", ARGS_SEPARATOR)|;
      n == 2 && IsPow2(n) && Grown(n, 2) == n
  {
    assert "echo hello" == "echo" + [ARGS_SEPARATOR] + "hello";
    FieldsConcat("echo", "hello", ARGS_SEPARATOR);
    FieldsOfWord("echo", ARGS_SEPARATOR);
    FieldsOfWord("hello", ARGS_SEPARATOR);
    assert IsPow2(2) by {
      assert IsPow2(1);
    }
  }

  /** Splitting at a separator splits the collected pieces the same way. */
  lemma TrimmedFieldsConcat(a: seq<char>, b: seq<char>, d: char)
    ensures TrimmedFields(a + [d] + b, d) == TrimmedFields(a, d) + TrimmedFields(b, d)
  {
    FieldsConcat(a, b, d);
  }

  /** A doubled separator opens no empty stage or argument. */
  lemma RepeatedSeparator(a: seq<char>, b: seq<char>, d: char)
    ensures TrimmedFields(a + [d, d] + b, d) == TrimmedFields(a + [d] + b, d)
  {
    assert a + [d, d] + b == a + [d] + ([d] + b);
    FieldsConcat(a, [d] + b, d);
    FieldsSkip([d] + b, d, 1);
    assert ([d] + b)[1..] == b;
    FieldsConcat(a, b, d);
  }
}
