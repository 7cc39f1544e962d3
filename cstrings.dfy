/**
 * A model of C strings living in a mutable character buffer.
 *
 * A `char*` into the buffer is a `Ptr`: either NULL or an index. The string a
 * pointer denotes is everything from that index up to the first NUL. The
 * parsing routines of the shell only ever write NUL characters into the
 * buffer, each inside the region of the string it was handed; the predicates
 * and lemmas here let callers show that strings outside that region read the
 * same afterwards.
 */
module CStrings {

  const NUL: char := '\0'

  /** A C pointer into the buffer. */
  datatype Ptr = Null | At(index: nat)

  /** `isspace` in the C locale: space, \t, \n, \v, \f and \r. */
  predicate IsSpace(c: char) {
    c == ' ' || c == '\t' || c == '\n' || c == '\U{B}' || c == '\U{C}' || c == '\r'
  }

  /** There is a terminating NUL at or after position `p`. */
  predicate HasNul(s: seq<char>, p: nat) {
    exists k | p <= k < |s| :: s[k] == NUL
  }

  /** The position of the first NUL at or after `p` (what `p + strlen(p)` points at). */
  function NulAt(s: seq<char>, p: nat): (k: nat)
    requires HasNul(s, p)
    ensures p <= k < |s| && s[k] == NUL
    ensures forall j | p <= j < k :: s[j] != NUL
    decreases |s| - p
  {
    if s[p] == NUL then p else NulAt(s, p + 1)
  }

  /** The C string that starts at `p`, without its terminator. */
  function CStr(s: seq<char>, p: nat): (r: seq<char>)
    requires HasNul(s, p)
    ensures NUL !in r
    ensures |r| == NulAt(s, p) - p
  {
    s[p..NulAt(s, p)]
  }

  /** A NUL with no NUL between `p` and it is the first one. */
  lemma NulAtIs(s: seq<char>, p: nat, k: nat)
    requires p <= k < |s| && s[k] == NUL
    requires forall j | p <= j < k :: s[j] != NUL
    ensures HasNul(s, p) && NulAt(s, p) == k
  {
  }

  /** A string that starts before `q` with no NUL in between continues into the string at `q`. */
  lemma CStrPrefix(s: seq<char>, p: nat, q: nat)
    requires p <= q && HasNul(s, q)
    requires forall j | p <= j < q :: s[j] != NUL
    ensures HasNul(s, p) && NulAt(s, p) == NulAt(s, q) && CStr(s, p) == s[p..q] + CStr(s, q)
  {
    NulAtIs(s, p, NulAt(s, q));
  }

  /** A slice of a slice is a slice. */
  lemma SliceOfSlice<X>(s: seq<X>, p: nat, E: nat, i: nat, j: nat)
    requires p <= E <= |s| && i <= j <= E - p
    ensures s[p..E][i..j] == s[p + i..p + j]
  {
    forall k | 0 <= k < j - i
      ensures s[p..E][i..j][k] == s[p + i..p + j][k]
    {
    }
  }

  /** `p` denotes a string that begins and ends (terminator included) inside `[lo, hi]`. */
  predicate Within(s: seq<char>, p: nat, lo: nat, hi: nat) {
    HasNul(s, p) && lo <= p && NulAt(s, p) <= hi
  }

  /**
   * `t` is `s` after writes of NUL characters at positions in `[lo, hi]` only.
   */
  predicate OnlyNulsWithin(s: seq<char>, t: seq<char>, lo: int, hi: int) {
    |s| == |t| && forall i | 0 <= i < |s| :: t[i] == s[i] || (lo <= i <= hi && t[i] == NUL)
  }

  lemma NulsRefl(s: seq<char>, lo: int, hi: int)
    ensures OnlyNulsWithin(s, s, lo, hi)
  {
  }

  /** Two rounds of NUL writes inside `[lo, hi]` are one round of NUL writes inside `[lo, hi]`. */
  lemma NulsTrans(s: seq<char>, t: seq<char>, u: seq<char>, lo: int, hi: int)
    requires OnlyNulsWithin(s, t, lo, hi) && OnlyNulsWithin(t, u, lo, hi)
    ensures OnlyNulsWithin(s, u, lo, hi)
  {
  }

  lemma NulsWiden(s: seq<char>, t: seq<char>, lo: int, hi: int, lo': int, hi': int)
    requires OnlyNulsWithin(s, t, lo, hi) && lo' <= lo && hi <= hi'
    ensures OnlyNulsWithin(s, t, lo', hi')
  {
  }

  /** A single NUL store is a NUL write at that position. */
  lemma NulsStore(s: seq<char>, w: nat, lo: int, hi: int)
    requires w < |s| && lo <= w <= hi
    ensures OnlyNulsWithin(s, s[w := NUL], lo, hi)
  {
  }

  /** A NUL write over a position that already holds a NUL changes nothing there. */
  lemma NulsNarrow(s: seq<char>, t: seq<char>, lo: int, hi: int)
    requires OnlyNulsWithin(s, t, lo, hi) && 0 <= hi < |s| && s[hi] == NUL
    ensures OnlyNulsWithin(s, t, lo, hi - 1)
  {
  }

  /**
   * NUL writes never lengthen a string: the old terminator is still a NUL,
   * so the string at `p` still ends, and no later than it did.
   */
  lemma NulAtShrinks(s: seq<char>, t: seq<char>, p: nat, lo: int, hi: int)
    requires HasNul(s, p) && OnlyNulsWithin(s, t, lo, hi)
    ensures HasNul(t, p) && NulAt(t, p) <= NulAt(s, p)
  {
    var e := NulAt(s, p);
    assert t[e] == NUL;
  }

  /**
   * A string that ends at or before `lo`, or starts after `hi`, reads the
   * same after NUL writes inside `[lo, hi]`.
   */
  lemma CStrFrame(s: seq<char>, t: seq<char>, p: nat, lo: int, hi: int)
    requires HasNul(s, p) && OnlyNulsWithin(s, t, lo, hi)
    requires NulAt(s, p) <= lo || hi < p
    ensures HasNul(t, p) && NulAt(t, p) == NulAt(s, p) && CStr(t, p) == CStr(s, p)
  {
    var e := NulAt(s, p);
    assert t[e] == NUL;
    forall j | p <= j < e
      ensures t[j] == s[j]
    {
    }
    NulAtIs(t, p, e);
    assert t[p..e] == s[p..e];
  }

  /** The region form of `CStrFrame`. */
  lemma WithinFrame(s: seq<char>, t: seq<char>, p: nat, lo: nat, hi: nat, wlo: int, whi: int)
    requires Within(s, p, lo, hi) && OnlyNulsWithin(s, t, wlo, whi)
    requires hi <= wlo || whi < lo
    ensures Within(t, p, lo, hi) && CStr(t, p) == CStr(s, p)
  {
    CStrFrame(s, t, p, wlo, whi);
  }

  /** NUL writes keep a string inside any region that contained it. */
  lemma WithinShrinks(s: seq<char>, t: seq<char>, p: nat, lo: nat, hi: nat, wlo: int, whi: int)
    requires Within(s, p, lo, hi) && OnlyNulsWithin(s, t, wlo, whi)
    ensures Within(t, p, lo, hi)
  {
    NulAtShrinks(s, t, p, wlo, whi);
  }
}
