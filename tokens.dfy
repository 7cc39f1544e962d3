/**
 * `strtok_r` with a one-character delimiter set, as specified by POSIX.1-2008:
 * successive calls return the maximal non-empty runs of non-delimiter
 * characters, so runs of delimiters collapse and delimiters at either end
 * yield nothing. `Fields` is that specification as a function on values;
 * `StrTokR` is one call on the buffer, proved against `Fields`.
 */
module Tokens {
  import opened CStrings

  /** Number of leading delimiter characters (`strspn`). */
  function LeadingDelims(s: seq<char>, d: char): (n: nat)
    ensures n <= |s|
    ensures forall k | 0 <= k < n :: s[k] == d
    ensures n < |s| ==> s[n] != d
  {
    if s != [] && s[0] == d then 1 + LeadingDelims(s[1..], d) else 0
  }

  /** Length of the leading run of non-delimiter characters (`strcspn`). */
  function RunLength(s: seq<char>, d: char): (n: nat)
    ensures n <= |s|
    ensures forall k | 0 <= k < n :: s[k] != d
    ensures n < |s| ==> s[n] == d
  {
    if s == [] || s[0] == d then 0 else 1 + RunLength(s[1..], d)
  }

  /** The maximal non-empty runs of non-`d` characters of `s`, left to right. */
  function Fields(s: seq<char>, d: char): (r: seq<seq<char>>)
    ensures forall k | 0 <= k < |r| :: r[k] != [] && d !in r[k]
    decreases |s|
  {
    if s == [] then []
    else if s[0] == d then Fields(s[1..], d)
    else
      var n := RunLength(s, d);
      [s[..n]] + Fields(s[n..], d)
  }

  lemma RunLengthIs(s: seq<char>, d: char, n: nat)
    requires n <= |s| && (forall k | 0 <= k < n :: s[k] != d) && (n < |s| ==> s[n] == d)
    ensures RunLength(s, d) == n
  {
  }

  lemma LeadingDelimsIs(s: seq<char>, d: char, n: nat)
    requires n <= |s| && (forall k | 0 <= k < n :: s[k] == d) && (n < |s| ==> s[n] != d)
    ensures LeadingDelims(s, d) == n
  {
  }

  /** Leading delimiters contribute no field. */
  lemma {:induction false} FieldsSkip(s: seq<char>, d: char, n: nat)
    requires n <= |s| && forall k | 0 <= k < n :: s[k] == d
    ensures Fields(s, d) == Fields(s[n..], d)
  {
    if n > 0 {
      assert s[1..][n - 1..] == s[n..];
      FieldsSkip(s[1..], d, n - 1);
    }
  }

  /** A field starts at the first non-delimiter and runs up to the next delimiter. */
  lemma FieldsHead(s: seq<char>, d: char, n: nat)
    requires 0 < n <= |s| && (forall k | 0 <= k < n :: s[k] != d)
    requires n < |s| ==> s[n] == d
    ensures Fields(s, d) == [s[..n]] + (if n < |s| then Fields(s[n + 1..], d) else [])
  {
    RunLengthIs(s, d, n);
    if n < |s| {
      assert s[n..][1..] == s[n + 1..];
    }
  }

  /** A non-empty text without delimiters is a single field. */
  lemma FieldsOfWord(w: seq<char>, d: char)
    requires w != [] && d !in w
    ensures Fields(w, d) == [w]
  {
    FieldsHead(w, d, |w|);
    assert w[..|w|] == w;
  }

  /** A delimiter splits the fields exactly: the fields of `a d b` are those of `a` followed by those of `b`. */
  lemma {:induction false} FieldsConcat(a: seq<char>, b: seq<char>, d: char)
    ensures Fields(a + [d] + b, d) == Fields(a, d) + Fields(b, d)
    decreases |a|
  {
    var s := a + [d] + b;
    if a == [] {
      assert s[1..] == b;
    } else if a[0] == d {
      assert s[1..] == a[1..] + [d] + b;
      FieldsConcat(a[1..], b, d);
    } else {
      var n := RunLength(a, d);
      RunLengthIs(s, d, n);
      assert s[..n] == a[..n];
      assert s[n..] == a[n..] + [d] + b;
      FieldsConcat(a[n..], b, d);
    }
  }

  /** A character absent from the text is absent from every field. */
  lemma {:induction false} FieldsAvoid(s: seq<char>, d: char, c: char)
    requires c !in s
    ensures forall k | 0 <= k < |Fields(s, d)| :: c !in Fields(s, d)[k]
    decreases |s|
  {
    if s == [] {
    } else if s[0] == d {
      FieldsAvoid(s[1..], d, c);
    } else {
      var n := RunLength(s, d);
      assert c !in s[..n];
      FieldsAvoid(s[n..], d, c);
    }
  }

  /** Where a `strtok_r` call resumes: the given string, or the saved position for a NULL argument. */
  function Resume(s: Ptr, save: nat): nat {
    if s.At? then s.index else save
  }

  /**
   * One call of `strtok_r(s, "d", &save)`, with the glibc algorithm: skip the
   * leading delimiters; at the end of the string return NULL and leave the
   * saved position at the terminator; otherwise span the field, overwrite the
   * delimiter that ends it with a NUL and save the position after it (or the
   * terminator itself when the field ends the string).
   */
  method StrTokR(buf: array<char>, s: Ptr, save: nat, d: char) returns (tok: Ptr, next: nat)
    requires d != NUL
    requires HasNul(buf[..], Resume(s, save))
    modifies buf
    // The rest of the text holds the fields not yet returned ...
    ensures var p := Resume(s, save);
      p <= next <= NulAt(old(buf[..]), p) && HasNul(buf[..], next)
      && NulAt(buf[..], next) == NulAt(old(buf[..]), p)
    ensures var F := Fields(CStr(old(buf[..]), Resume(s, save)), d);
      Fields(CStr(buf[..], next), d) == if F == [] then [] else F[1..]
    // ... NULL comes back only when none is left, and then nothing is written ...
    ensures tok.Null? <==> Fields(CStr(old(buf[..]), Resume(s, save)), d) == []
    ensures tok.Null? ==> next == NulAt(old(buf[..]), Resume(s, save)) && buf[..] == old(buf[..])
    // ... otherwise the token is the first field, past the leading delimiters ...
    ensures tok.At? ==>
      var p := Resume(s, save);
      tok.index == p + LeadingDelims(CStr(old(buf[..]), p), d)
      && Within(buf[..], tok.index, p, NulAt(old(buf[..]), p))
      && CStr(buf[..], tok.index) == Fields(CStr(old(buf[..]), p), d)[0]
    // ... the only store is the NUL that ends it, and the save pointer follows it.
    ensures tok.At? ==>
      var e := NulAt(buf[..], tok.index);
      buf[..] == old(buf[..])[e := NUL]
      && next == if e == NulAt(old(buf[..]), Resume(s, save)) then e else e + 1
    ensures OnlyNulsWithin(old(buf[..]), buf[..], Resume(s, save), NulAt(old(buf[..]), Resume(s, save)))
  {
    var p := Resume(s, save);
    var q := SkipDelims(buf, p, d);
    if buf[q] == NUL {
      NoFieldLeft(buf[..], p, q, d);
      tok, next := Null, q;
      return;
    }
    var e := SpanField(buf, q, d);
    ghost var b0 := buf[..];
    if buf[e] == NUL {
      next := e;
      assert buf[..] == b0[e := NUL];
    } else {
      buf[e] := NUL;
      next := e + 1;
    }
    TokenCall(b0, p, q, e, d, buf[..], next);
    tok := At(q);
  }

  /** The postconditions of `StrTokR` when it finds the field at `[q, e)`. */
  lemma TokenCall(b0: seq<char>, p: nat, q: nat, e: nat, d: char, b1: seq<char>, next: nat)
    requires d != NUL && HasNul(b0, p) && p <= q <= e <= NulAt(b0, p)
    requires forall k | p <= k < q :: b0[k] == d
    requires forall k | q <= k < e :: b0[k] != d && b0[k] != NUL
    requires b0[q] != d && b0[q] != NUL
    requires b0[e] == NUL || b0[e] == d
    requires b1 == b0[e := NUL] && next == if b0[e] == NUL then e else e + 1
    ensures p <= next <= NulAt(b0, p) && HasNul(b1, next) && NulAt(b1, next) == NulAt(b0, p)
    ensures var F := Fields(CStr(b0, p), d);
      F != [] && Fields(CStr(b1, next), d) == F[1..]
    ensures q == p + LeadingDelims(CStr(b0, p), d)
      && Within(b1, q, p, NulAt(b0, p))
      && CStr(b1, q) == Fields(CStr(b0, p), d)[0]
    ensures var e' := NulAt(b1, q);
      b1 == b0[e' := NUL] && next == if e' == NulAt(b0, p) then e' else e' + 1
    ensures OnlyNulsWithin(b0, b1, p, NulAt(b0, p))
  {
    var E := NulAt(b0, p);
    TokenStep(b0, p, q, e, d);
    if e == E {
      assert b1 == b0 && next == E;
      assert Fields(CStr(b1, next), d) == [] by {
        assert CStr(b1, next) == [];
      }
    }
  }

  /** `strspn`: the position of the first non-delimiter at or after `p`. */
  method SkipDelims(buf: array<char>, p: nat, d: char) returns (q: nat)
    requires d != NUL && HasNul(buf[..], p)
    ensures p <= q <= NulAt(buf[..], p) && buf[q] != d
    ensures forall k | p <= k < q :: buf[k] == d
  {
    ghost var E := NulAt(buf[..], p);
    q := p;
    while buf[q] == d
      invariant p <= q <= E
      invariant forall k | p <= k < q :: buf[k] == d
      decreases E - q
    {
      q := q + 1;
    }
  }

  /** `strcspn`: the position of the first delimiter or NUL at or after `q`. */
  method SpanField(buf: array<char>, q: nat, d: char) returns (e: nat)
    requires HasNul(buf[..], q)
    ensures q <= e <= NulAt(buf[..], q) && (buf[e] == NUL || buf[e] == d)
    ensures forall k | q <= k < e :: buf[k] != d && buf[k] != NUL
  {
    ghost var E := NulAt(buf[..], q);
    e := q;
    while buf[e] != NUL && buf[e] != d
      invariant q <= e <= E
      invariant forall k | q <= k < e :: buf[k] != d && buf[k] != NUL
      decreases E - e
    {
      e := e + 1;
    }
  }

  /** Only delimiters before the terminator: no field is left. */
  lemma NoFieldLeft(b: seq<char>, p: nat, q: nat, d: char)
    requires HasNul(b, p) && p <= q < |b| && b[q] == NUL
    requires forall k | p <= k < q :: b[k] == d && d != NUL
    ensures NulAt(b, p) == q && Fields(CStr(b, p), d) == []
  {
    NulAtIs(b, p, q);
    FieldsSkip(CStr(b, p), d, q - p);
    assert CStr(b, p)[q - p..] == [];
  }

  /** A delimiter at the start of `b0[p..E]` contributes no field. */
  lemma FieldsDropDelim(b0: seq<char>, p: nat, E: nat, d: char)
    requires p < E <= |b0| && b0[p] == d
    ensures Fields(b0[p..E], d) == Fields(b0[p + 1..E], d)
  {
    var t := b0[p..E];
    assert t[0] == d;
    assert t[1..] == b0[p + 1..E];
  }

  /** A field that starts at `q` of `b0[q..E]` and runs up to `e`. */
  lemma FieldsRunAt(b0: seq<char>, q: nat, e: nat, E: nat, d: char)
    requires q < e <= E <= |b0|
    requires forall k | q <= k < e :: b0[k] != d
    requires e < E ==> b0[e] == d
    ensures Fields(b0[q..E], d) == [b0[q..e]] + Fields(b0[e..E], d)
  {
    var t := b0[q..E];
    forall k | 0 <= k < e - q
      ensures t[k] != d
    {
      assert t[k] == b0[q + k];
    }
    assert e - q < |t| ==> t[e - q] == b0[e];
    RunLengthIs(t, d, e - q);
    assert t[..e - q] == b0[q..e];
    assert t[e - q..] == b0[e..E];
  }

  /**
   * On the buffer: the fields of `b0[p..E]` whose first field lies at
   * `[q, e)` after delimiters only.
   */
  lemma {:induction false} FieldsFrom(b0: seq<char>, p: nat, q: nat, e: nat, E: nat, d: char)
    requires p <= q < e <= E <= |b0|
    requires forall k | p <= k < q :: b0[k] == d
    requires forall k | q <= k < e :: b0[k] != d
    requires e < E ==> b0[e] == d
    ensures Fields(b0[p..E], d) == [b0[q..e]] + (if e < E then Fields(b0[e + 1..E], d) else [])
    decreases q - p
  {
    if p < q {
      FieldsDropDelim(b0, p, E, d);
      FieldsFrom(b0, p + 1, q, e, E, d);
    } else {
      FieldsRunAt(b0, q, e, E, d);
      if e < E {
        FieldsDropDelim(b0, e, E, d);
      } else {
        assert b0[e..E] == [];
      }
    }
  }

  /** The leading delimiters of `b0[p..E]` run up to `q`. */
  lemma LeadingDelimsFrom(b0: seq<char>, p: nat, q: nat, E: nat, d: char)
    requires p <= q < E <= |b0| && b0[q] != d
    requires forall k | p <= k < q :: b0[k] == d
    ensures LeadingDelims(b0[p..E], d) == q - p
  {
    var t := b0[p..E];
    forall k | 0 <= k < q - p
      ensures t[k] == d
    {
      assert t[k] == b0[p + k];
    }
    assert t[q - p] == b0[q];
    LeadingDelimsIs(t, d, q - p);
  }

  /** On values: the fields of the text at `p` whose first field lies at `[q, e)`. */
  lemma TokenFields(b0: seq<char>, p: nat, q: nat, e: nat, d: char)
    requires d != NUL && HasNul(b0, p) && p <= q <= e <= NulAt(b0, p)
    requires forall k | p <= k < q :: b0[k] == d
    requires forall k | q <= k < e :: b0[k] != d && b0[k] != NUL
    requires b0[q] != d && b0[q] != NUL
    requires b0[e] == NUL || b0[e] == d
    ensures e == NulAt(b0, p) <==> b0[e] == NUL
    ensures LeadingDelims(CStr(b0, p), d) == q - p
    ensures Fields(CStr(b0, p), d) ==
      [b0[q..e]] + (if e < NulAt(b0, p) then Fields(b0[e + 1..NulAt(b0, p)], d) else [])
  {
    var E := NulAt(b0, p);
    if b0[e] == NUL {
      NulAtIs(b0, p, e);
    }
    assert q < E;
    assert CStr(b0, p) == b0[p..E];
    FieldsFrom(b0, p, q, e, E, d);
    LeadingDelimsFrom(b0, p, q, E, d);
  }

  /** What one successful `strtok_r` call finds and leaves behind, on values. */
  lemma TokenStep(b0: seq<char>, p: nat, q: nat, e: nat, d: char)
    requires d != NUL && HasNul(b0, p) && p <= q <= e <= NulAt(b0, p)
    requires forall k | p <= k < q :: b0[k] == d
    requires forall k | q <= k < e :: b0[k] != d && b0[k] != NUL
    requires b0[q] != d && b0[q] != NUL
    requires b0[e] == NUL || b0[e] == d
    ensures Fields(CStr(b0, p), d) != [] && LeadingDelims(CStr(b0, p), d) == q - p
    ensures Within(b0[e := NUL], q, p, NulAt(b0, p)) && NulAt(b0[e := NUL], q) == e
    ensures CStr(b0[e := NUL], q) == Fields(CStr(b0, p), d)[0]
    ensures e == NulAt(b0, p) <==> b0[e] == NUL
    ensures OnlyNulsWithin(b0, b0[e := NUL], p, NulAt(b0, p))
    ensures e < NulAt(b0, p) ==>
      HasNul(b0[e := NUL], e + 1) && NulAt(b0[e := NUL], e + 1) == NulAt(b0, p)
      && Fields(CStr(b0[e := NUL], e + 1), d) == Fields(CStr(b0, p), d)[1..]
    ensures e == NulAt(b0, p) ==> b0[e := NUL] == b0 && Fields(CStr(b0, p), d)[1..] == []
  {
    var E := NulAt(b0, p);
    TokenFields(b0, p, q, e, d);
    TokenFound(b0, q, e);
    if e < E {
      TokenRest(b0, e, E);
    }
    NulsStore(b0, e, p, E);
  }

  lemma TokenFound(b0: seq<char>, q: nat, e: nat)
    requires q <= e < |b0| && forall k | q <= k < e :: b0[k] != NUL
    ensures HasNul(b0[e := NUL], q) && NulAt(b0[e := NUL], q) == e && CStr(b0[e := NUL], q) == b0[q..e]
  {
    NulAtIs(b0[e := NUL], q, e);
  }

  lemma TokenRest(b0: seq<char>, e: nat, E: nat)
    requires e < E < |b0| && b0[E] == NUL && forall k | e < k < E :: b0[k] != NUL
    ensures HasNul(b0[e := NUL], e + 1) && NulAt(b0[e := NUL], e + 1) == E
    ensures CStr(b0[e := NUL], e + 1) == b0[e + 1..E]
  {
    NulAtIs(b0[e := NUL], e + 1, E);
  }
}
