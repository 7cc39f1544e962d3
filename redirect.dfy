/**
 * `extractPathInputOutput`: one pipeline stage `cmd [> out] [< in [> out]]`
 * is cut first at `<` and then, inside each half, at `>`. The command is the
 * first `>`-field of the left half, an output file may follow it, the input
 * file is the right half and an output file after `<` replaces one before.
 * Everything happens in place with `strtok_r` and `trimWhiteSpace`, and the
 * results are pointers into the stage's text.
 */
module Redirect {
  import opened CStrings
  import opened Tokens
  import opened Utils

  const IN_SEPARATOR: char := '<'
  const OUT_SEPARATOR: char := '>'

  datatype Option<T> = None | Some(value: T)

  /** The command text and the redirection files of one stage; `None` leaves the caller's pointer untouched. */
  datatype Redirection = Redirection(path: seq<char>, input: Option<seq<char>>, output: Option<seq<char>>)

  /**
   * What a pointer to the start of `s` reads once `s` has been split on `>`
   * and its first field trimmed: the leading `>` characters, then the first
   * field cut where the trim wrote its terminator.
   */
  function ReadAfterSplit(s: seq<char>): seq<char>
    requires Fields(s, OUT_SEPARATOR) != []
  {
    s[..LeadingDelims(s, OUT_SEPARATOR)] + ReadAfterTrim(Fields(s, OUT_SEPARATOR)[0])
  }

  /**
   * The stage `t` as `extractPathInputOutput` reads it; `None` where the code
   * hands a NULL token to `trimWhiteSpace` (no command text before `<`, or
   * nothing but `>` on either side).
   */
  function ParseStage(t: seq<char>): Option<Redirection> {
    var H := Fields(t, IN_SEPARATOR);
    if H == [] then None
    else
      var L := Fields(Trim(H[0]), OUT_SEPARATOR);
      if L == [] then None
      else
        var out := if |L| >= 2 then Some(Trim(L[1])) else None;
        if |H| < 2 then Some(Redirection(Trim(L[0]), None, out))
        else
          var R := Fields(Trim(H[1]), OUT_SEPARATOR);
          if R == [] then None
          else
            Some(Redirection(Trim(L[0]), Some(ReadAfterSplit(Trim(H[1]))),
                             if |R| >= 2 then Some(Trim(R[1])) else out))
  }

  // ---------------------------------------------------------------------------
  // Properties of the parse

  /** A word usable as a command, argument list or file name: non-empty, trimmed, no markers. */
  predicate Word(w: seq<char>) {
    w != [] && !IsSpace(w[0]) && !IsSpace(w[|w| - 1]) && IN_SEPARATOR !in w && OUT_SEPARATOR !in w
  }

  lemma TrimAvoid(s: seq<char>, c: char)
    requires c !in s
    ensures c !in Trim(s) && c !in ReadAfterTrim(s)
  {
    TrimIsSlice(s);
  }

  /**
   * The command never holds a marker and is trimmed, so is an output file;
   * an input file holds no `<`.
   */
  lemma ParseStageClean(t: seq<char>)
    requires ParseStage(t).Some?
    ensures var r := ParseStage(t).value;
      IN_SEPARATOR !in r.path && OUT_SEPARATOR !in r.path && Trim(r.path) == r.path
      && (r.output.Some? ==>
            IN_SEPARATOR !in r.output.value && OUT_SEPARATOR !in r.output.value
            && Trim(r.output.value) == r.output.value)
      && (r.input.Some? ==> IN_SEPARATOR !in r.input.value)
  {
    var H := Fields(t, IN_SEPARATOR);
    var L := Fields(Trim(H[0]), OUT_SEPARATOR);
    TrimAvoid(H[0], IN_SEPARATOR);
    FieldsAvoid(Trim(H[0]), OUT_SEPARATOR, IN_SEPARATOR);
    TrimAvoid(L[0], IN_SEPARATOR);
    TrimAvoid(L[0], OUT_SEPARATOR);
    TrimIdempotent(L[0]);
    if |L| >= 2 {
      TrimAvoid(L[1], IN_SEPARATOR);
      TrimAvoid(L[1], OUT_SEPARATOR);
      TrimIdempotent(L[1]);
    }
    if |H| >= 2 {
      var r := Trim(H[1]);
      TrimAvoid(H[1], IN_SEPARATOR);
      FieldsAvoid(r, OUT_SEPARATOR, IN_SEPARATOR);
      var R := Fields(r, OUT_SEPARATOR);
      if R != [] {
        TrimAvoid(R[0], IN_SEPARATOR);
        if |R| >= 2 {
          TrimAvoid(R[1], IN_SEPARATOR);
          TrimAvoid(R[1], OUT_SEPARATOR);
          TrimIdempotent(R[1]);
        }
      }
    }
  }

  /**
   * Without markers the whole (trimmed) stage is the command and no file is
   * set; a blank stage reaches `trimWhiteSpace` with a NULL token.
   */
  lemma ParseNoMarkers(t: seq<char>)
    requires IN_SEPARATOR !in t && OUT_SEPARATOR !in t
    ensures ParseStage(t) == if AllSpace(t) then None else Some(Redirection(Trim(t), None, None))
  {
    if t == [] {
      assert Fields(t, IN_SEPARATOR) == [];
    } else {
      FieldsOfWord(t, IN_SEPARATOR);
      if AllSpace(t) {
        assert Fields(Trim(t), OUT_SEPARATOR) == [];
      } else {
        TrimAvoid(t, OUT_SEPARATOR);
        FieldsOfWord(Trim(t), OUT_SEPARATOR);
        TrimIdempotent(t);
        ParseOneHalf(t, [t], [Trim(t)], Trim(t), None);
      }
    }
  }

  /** Two words around a separator they do not contain are its two fields. */
  lemma TwoFields(a: seq<char>, b: seq<char>, c: char)
    requires a != [] && b != [] && c !in a && c !in b
    ensures Fields(a + [c] + b, c) == [a, b]
  {
    FieldsConcat(a, b, c);
    FieldsOfWord(a, c);
    FieldsOfWord(b, c);
  }

  /** A marker with a space on each side is the marker alone between the two padded texts. */
  lemma AroundMarkers(a: seq<char>, c: seq<char>)
    ensures a + " < " + c == (a + " ") + [IN_SEPARATOR] + (" " + c)
    ensures a + " > " + c == (a + " ") + [OUT_SEPARATOR] + (" " + c)
  {
  }

  lemma Regroup(a: seq<char>, b: seq<char>, c: seq<char>)
    ensures a + b + c == a + (b + c)
  {
  }

  /** `a < b > c` split at its `<`. */
  lemma InThenOutShape(a: seq<char>, b: seq<char>, c: seq<char>)
    ensures a + " < " + b + " > " + c == (a + " ") + [IN_SEPARATOR] + (" " + (b + " > " + c))
  {
    calc {
      a + " < " + b + " > " + c;
      { Regroup(a + " < " + b, " > ", c); }
      a + " < " + b + (" > " + c);
      { Regroup(a + " < ", b, " > " + c); }
      a + " < " + (b + (" > " + c));
      { Regroup(b, " > ", c); }
      a + " < " + (b + " > " + c);
      { AroundMarkers(a, b + " > " + c); }
      (a + " ") + [IN_SEPARATOR] + (" " + (b + " > " + c));
    }
  }

  /** A trimmed text followed by one space trims back to itself, and so does one preceded by a space. */
  lemma PadOne(x: seq<char>)
    requires Trim(x) == x
    ensures Trim(x + " ") == x && Trim(" " + x) == x
  {
    assert AllSpace(" ") && AllSpace([]);
    TrimPadded([], x, " ");
    assert [] + x + " " == x + " ";
    TrimPadded(" ", x, []);
    assert " " + x + [] == " " + x;
  }

  /** A word is trimmed, and stays so with one space on either side. */
  lemma Padded(w: seq<char>)
    requires Word(w)
    ensures Trim(w) == w && Trim(" " + w) == w && Trim(w + " ") == w
  {
    TrimOfTrimmed(w);
    PadOne(w);
  }

  /** `cmd > out` holds no `<` and splits on `>` into `cmd ` and ` out`. */
  lemma ClauseSplit(cmd: seq<char>, out: seq<char>)
    requires Word(cmd) && Word(out)
    ensures IN_SEPARATOR !in cmd + " > " + out
    ensures Fields(cmd + " > " + out, OUT_SEPARATOR) == [cmd + " ", " " + out]
  {
    AroundMarkers(cmd, out);
    TwoFields(cmd + " ", " " + out, OUT_SEPARATOR);
  }

  /** `cmd > out` is trimmed. */
  lemma ClauseTrimmed(cmd: seq<char>, out: seq<char>)
    requires Word(cmd) && Word(out)
    ensures Trim(cmd + " > " + out) == cmd + " > " + out
  {
    var s := cmd + " > " + out;
    assert s[0] == cmd[0] && s[|s| - 1] == out[|out| - 1];
    TrimOfTrimmed(s);
  }

  /** A word read back after the `>` split and trim: itself. */
  lemma WordRead(w: seq<char>)
    requires Word(w)
    ensures Fields(w, OUT_SEPARATOR) == [w] && ReadAfterSplit(w) == w
  {
    FieldsOfWord(w, OUT_SEPARATOR);
    LeadingDelimsIs(w, OUT_SEPARATOR, 0);
    ReadAfterTrimNoLead(w);
    TrimOfTrimmed(w);
  }

  /** `in > out` read back through the pointer to its start: `in`. */
  lemma ClauseRead(inp: seq<char>, out: seq<char>)
    requires Word(inp) && Word(out)
    ensures ReadAfterSplit(inp + " > " + out) == inp
  {
    var u := inp + " > " + out;
    ClauseSplit(inp, out);
    assert u[0] == inp[0];
    LeadingDelimsIs(u, OUT_SEPARATOR, 0);
    var s := inp + " ";
    assert !IsSpace(s[0]);
    ReadAfterTrimNoLead(s);
    Padded(inp);
  }

  /** Three pieces around two separators they do not contain are its three fields. */
  lemma ThreeFields(a: seq<char>, b: seq<char>, c: seq<char>, d: char)
    requires a != [] && b != [] && c != [] && d !in a && d !in b && d !in c
    ensures Fields(a + [d] + b + [d] + c, d) == [a, b, c]
  {
    assert a + [d] + b + [d] + c == a + [d] + (b + [d] + c);
    TwoFields(b, c, d);
    FieldsConcat(a, b + [d] + c, d);
    FieldsOfWord(a, d);
  }

  /** The parse of a stage with one `<`-field, from its `>`-fields. */
  lemma ParseOneHalf(t: seq<char>, H: seq<seq<char>>, L: seq<seq<char>>, cmd: seq<char>, out: Option<seq<char>>)
    requires Fields(t, IN_SEPARATOR) == H && |H| == 1
    requires Fields(Trim(H[0]), OUT_SEPARATOR) == L && L != [] && Trim(L[0]) == cmd
    requires |L| >= 2 ==> out == Some(Trim(L[1]))
    requires |L| < 2 ==> out == None
    ensures ParseStage(t) == Some(Redirection(cmd, None, out))
  {
  }

  /** The parse of a stage with at least two `<`-fields, from the `>`-fields of both halves. */
  lemma ParseTwoHalves(t: seq<char>, H: seq<seq<char>>, L: seq<seq<char>>, r: seq<char>, R: seq<seq<char>>,
                       cmd: seq<char>, inp: seq<char>, out: Option<seq<char>>)
    requires Fields(t, IN_SEPARATOR) == H && |H| >= 2
    requires Fields(Trim(H[0]), OUT_SEPARATOR) == L && L != [] && Trim(L[0]) == cmd
    requires Trim(H[1]) == r && Fields(r, OUT_SEPARATOR) == R && R != [] && ReadAfterSplit(r) == inp
    requires |R| >= 2 ==> out == Some(Trim(R[1]))
    requires |R| < 2 && |L| >= 2 ==> out == Some(Trim(L[1]))
    requires |R| < 2 && |L| < 2 ==> out == None
    ensures ParseStage(t) == Some(Redirection(cmd, Some(inp), out))
  {
  }

  /** `cmd > out < in`. */
  lemma OutThenIn(cmd: seq<char>, out: seq<char>, inp: seq<char>)
    requires Word(cmd) && Word(out) && Word(inp)
    ensures ParseStage(cmd + " > " + out + " < " + inp) == Some(Redirection(cmd, Some(inp), Some(out)))
  {
    var s := cmd + " > " + out;
    var t := cmd + " > " + out + " < " + inp;
    var H := [s + " ", " " + inp];
    var L := [cmd + " ", " " + out];
    OutThenInLeft(cmd, out, inp);
    assert Trim(H[1]) == inp && Fields(inp, OUT_SEPARATOR) == [inp] && ReadAfterSplit(inp) == inp by {
      Padded(inp);
      WordRead(inp);
    }
    ParseTwoHalves(t, H, L, inp, [inp], cmd, inp, Some(out));
  }

  /** The `<` split of `cmd > out < in`, and its left half `cmd > out`. */
  lemma OutThenInLeft(cmd: seq<char>, out: seq<char>, inp: seq<char>)
    requires Word(cmd) && Word(out) && Word(inp)
    ensures var s := cmd + " > " + out;
      var H := [s + " ", " " + inp];
      var L := [cmd + " ", " " + out];
      Fields(cmd + " > " + out + " < " + inp, IN_SEPARATOR) == H
      && Fields(Trim(H[0]), OUT_SEPARATOR) == L && Trim(L[0]) == cmd && Trim(L[1]) == out
  {
    var s := cmd + " > " + out;
    var t := cmd + " > " + out + " < " + inp;
    ClauseSplit(cmd, out);
    AroundMarkers(s, inp);
    TwoFields(s + " ", " " + inp, IN_SEPARATOR);
    ClauseTrimmed(cmd, out);
    PadOne(s);
    Padded(cmd);
    Padded(out);
  }

  /** `cmd < in > out`. */
  lemma InThenOut(cmd: seq<char>, inp: seq<char>, out: seq<char>)
    requires Word(cmd) && Word(inp) && Word(out)
    ensures ParseStage(cmd + " < " + inp + " > " + out) == Some(Redirection(cmd, Some(inp), Some(out)))
  {
    var u := inp + " > " + out;
    var t := cmd + " < " + inp + " > " + out;
    var H := [cmd + " ", " " + u];
    var R := [inp + " ", " " + out];
    InThenOutLeft(cmd, inp, out);
    InThenOutRight(inp, out);
    ParseTwoHalves(t, H, [cmd], u, R, cmd, inp, Some(out));
  }

  /** The `<` split of `cmd < in > out`, and its left half. */
  lemma InThenOutLeft(cmd: seq<char>, inp: seq<char>, out: seq<char>)
    requires Word(cmd) && Word(inp) && Word(out)
    ensures var H := [cmd + " ", " " + (inp + " > " + out)];
      Fields(cmd + " < " + inp + " > " + out, IN_SEPARATOR) == H
      && Fields(Trim(H[0]), OUT_SEPARATOR) == [cmd] && Trim([cmd][0]) == cmd
  {
    var u := inp + " > " + out;
    var t := cmd + " < " + inp + " > " + out;
    ClauseSplit(inp, out);
    InThenOutShape(cmd, inp, out);
    TwoFields(cmd + " ", " " + u, IN_SEPARATOR);
    Padded(cmd);
    WordRead(cmd);
  }

  /** The right half `in > out` of `cmd < in > out`. */
  lemma InThenOutRight(inp: seq<char>, out: seq<char>)
    requires Word(inp) && Word(out)
    ensures var u := inp + " > " + out;
      var R := [inp + " ", " " + out];
      Trim(" " + u) == u && Fields(u, OUT_SEPARATOR) == R && ReadAfterSplit(u) == inp
      && Trim(R[1]) == out
  {
    var u := inp + " > " + out;
    ClauseTrimmed(inp, out);
    PadOne(u);
    ClauseSplit(inp, out);
    ClauseRead(inp, out);
    Padded(out);
  }

  /**
   * The two orders of the markers mean the same:
   * `cmd > out < in` and `cmd < in > out` both give the command `cmd`, the
   * input `in` and the output `out`.
   */
  lemma RedirectionOrderIndependent(cmd: seq<char>, inp: seq<char>, out: seq<char>)
    requires Word(cmd) && Word(inp) && Word(out)
    ensures ParseStage(cmd + " > " + out + " < " + inp) == Some(Redirection(cmd, Some(inp), Some(out)))
    ensures ParseStage(cmd + " < " + inp + " > " + out) == Some(Redirection(cmd, Some(inp), Some(out)))
  {
    OutThenIn(cmd, out, inp);
    InThenOut(cmd, inp, out);
  }

  /** An output file after `<` replaces the one before it. */
  lemma LaterOutputWins(cmd: seq<char>, out1: seq<char>, inp: seq<char>, out2: seq<char>)
    requires Word(cmd) && Word(out1) && Word(inp) && Word(out2)
    ensures ParseStage(cmd + " > " + out1 + " < " + inp + " > " + out2)
      == Some(Redirection(cmd, Some(inp), Some(out2)))
  {
    var s := cmd + " > " + out1;
    var u := inp + " > " + out2;
    var t := cmd + " > " + out1 + " < " + inp + " > " + out2;
    var H := [s + " ", " " + u];
    var L := [cmd + " ", " " + out1];
    var R := [inp + " ", " " + out2];
    LaterOutputLeft(cmd, out1, inp, out2);
    InThenOutRight(inp, out2);
    ParseTwoHalves(t, H, L, u, R, cmd, inp, Some(out2));
  }

  /** The `<` split of `cmd > out1 < in > out2`, and its left half `cmd > out1`. */
  lemma LaterOutputLeft(cmd: seq<char>, out1: seq<char>, inp: seq<char>, out2: seq<char>)
    requires Word(cmd) && Word(out1) && Word(inp) && Word(out2)
    ensures var s := cmd + " > " + out1;
      var H := [s + " ", " " + (inp + " > " + out2)];
      var L := [cmd + " ", " " + out1];
      Fields(cmd + " > " + out1 + " < " + inp + " > " + out2, IN_SEPARATOR) == H
      && Fields(Trim(H[0]), OUT_SEPARATOR) == L && Trim(L[0]) == cmd
  {
    var s := cmd + " > " + out1;
    var u := inp + " > " + out2;
    var t := cmd + " > " + out1 + " < " + inp + " > " + out2;
    ClauseSplit(cmd, out1);
    ClauseSplit(inp, out2);
    InThenOutShape(s, inp, out2);
    TwoFields(s + " ", " " + u, IN_SEPARATOR);
    ClauseTrimmed(cmd, out1);
    PadOne(s);
    Padded(cmd);
  }

  /**
   * The input file is read through the pointer to the whole right half, so a
   * `>` right after `<` stays in front of the file name: `cmd < >in` opens
   * `>in`.
   */
  lemma InputKeepsLeadingMarker(cmd: seq<char>, inp: seq<char>)
    requires Word(cmd) && Word(inp)
    ensures ParseStage(cmd + " < >" + inp) == Some(Redirection(cmd, Some(">" + inp), None))
  {
    var v := ">" + inp;
    var t := cmd + " < >" + inp;
    var H := [cmd + " ", " " + v];
    assert Fields(t, IN_SEPARATOR) == H by {
      assert t == (cmd + " ") + [IN_SEPARATOR] + (" " + v);
      assert IN_SEPARATOR !in v;
      TwoFields(cmd + " ", " " + v, IN_SEPARATOR);
    }
    assert Fields(Trim(H[0]), OUT_SEPARATOR) == [cmd] && Trim([cmd][0]) == cmd by {
      Padded(cmd);
      WordRead(cmd);
    }
    assert Trim(H[1]) == v by {
      assert v[0] == OUT_SEPARATOR && v[|v| - 1] == inp[|inp| - 1];
      TrimOfTrimmed(v);
      PadOne(v);
    }
    InputMarkerRead(inp);
    ParseTwoHalves(t, H, [cmd], v, [inp], cmd, v, None);
  }

  lemma InputMarkerRead(inp: seq<char>)
    requires Word(inp)
    ensures Fields(">" + inp, OUT_SEPARATOR) == [inp] && ReadAfterSplit(">" + inp) == ">" + inp
  {
    var v := ">" + inp;
    assert Fields(v, OUT_SEPARATOR) == [inp] by {
      assert v == [] + [OUT_SEPARATOR] + inp;
      FieldsConcat([], inp, OUT_SEPARATOR);
      FieldsOfWord(inp, OUT_SEPARATOR);
    }
    assert LeadingDelims(v, OUT_SEPARATOR) == 1 by {
      LeadingDelimsIs(v, OUT_SEPARATOR, 1);
    }
    assert ReadAfterTrim(inp) == inp by {
      ReadAfterTrimNoLead(inp);
      TrimOfTrimmed(inp);
    }
    assert v[..1] == ">";
  }

  /** Fields after the second on the `>` split, and after the second on the `<` split, are dropped. */
  lemma ExtraFieldsDropped(cmd: seq<char>, a: seq<char>, b: seq<char>)
    requires Word(cmd) && Word(a) && Word(b)
    ensures ParseStage(cmd + " > " + a + " > " + b) == Some(Redirection(cmd, None, Some(a)))
    ensures ParseStage(cmd + " < " + a + " < " + b) == Some(Redirection(cmd, Some(a), None))
  {
    ExtraOutputDropped(cmd, a, b);
    ExtraInputDropped(cmd, a, b);
  }

  lemma ExtraOutputDropped(cmd: seq<char>, a: seq<char>, b: seq<char>)
    requires Word(cmd) && Word(a) && Word(b)
    ensures ParseStage(cmd + " > " + a + " > " + b) == Some(Redirection(cmd, None, Some(a)))
  {
    var t := cmd + " > " + a + " > " + b;
    var L := [cmd + " ", " " + a + " ", " " + b];
    assert Fields(t, IN_SEPARATOR) == [t] by {
      assert IN_SEPARATOR !in t;
      FieldsOfWord(t, IN_SEPARATOR);
    }
    assert Fields(Trim([t][0]), OUT_SEPARATOR) == L by {
      assert t[0] == cmd[0] && t[|t| - 1] == b[|b| - 1];
      TrimOfTrimmed(t);
      assert t == (cmd + " ") + [OUT_SEPARATOR] + (" " + a + " ") + [OUT_SEPARATOR] + (" " + b);
      ThreeFields(cmd + " ", " " + a + " ", " " + b, OUT_SEPARATOR);
    }
    assert Trim(L[0]) == cmd by {
      Padded(cmd);
    }
    assert Trim(L[1]) == a by {
      PaddedBoth(a);
    }
    ParseOneHalf(t, [t], L, cmd, Some(a));
  }

  lemma PaddedBoth(w: seq<char>)
    requires Word(w)
    ensures Trim(" " + w + " ") == w
  {
    TrimOfTrimmed(w);
    assert AllSpace(" ");
    TrimPadded(" ", w, " ");
  }

  lemma ExtraInputDropped(cmd: seq<char>, a: seq<char>, b: seq<char>)
    requires Word(cmd) && Word(a) && Word(b)
    ensures ParseStage(cmd + " < " + a + " < " + b) == Some(Redirection(cmd, Some(a), None))
  {
    var t := cmd + " < " + a + " < " + b;
    var H := [cmd + " ", " " + a + " ", " " + b];
    assert Fields(t, IN_SEPARATOR) == H by {
      assert t == (cmd + " ") + [IN_SEPARATOR] + (" " + a + " ") + [IN_SEPARATOR] + (" " + b);
      ThreeFields(cmd + " ", " " + a + " ", " " + b, IN_SEPARATOR);
    }
    assert Fields(Trim(H[0]), OUT_SEPARATOR) == [cmd] && Trim([cmd][0]) == cmd by {
      Padded(cmd);
      WordRead(cmd);
    }
    assert Trim(H[1]) == a by {
      PaddedBoth(a);
    }
    assert Fields(a, OUT_SEPARATOR) == [a] && ReadAfterSplit(a) == a by {
      WordRead(a);
    }
    ParseTwoHalves(t, H, [cmd], a, [a], cmd, a, None);
  }

  /**
   * Whatever follows a third `<` field, and however it is written, is never
   * looked at: only the first two `<` fields feed the parse.
   */
  lemma LaterInputFieldsIgnored(t: seq<char>, x: seq<char>)
    requires |Fields(t, IN_SEPARATOR)| >= 2
    ensures ParseStage(t + [IN_SEPARATOR] + x) == ParseStage(t)
  {
    FieldsConcat(t, x, IN_SEPARATOR);
    var H, H' := Fields(t, IN_SEPARATOR), Fields(t + [IN_SEPARATOR] + x, IN_SEPARATOR);
    assert H'[0] == H[0] && H'[1] == H[1];
  }

  /**
   * In a stage without `<`, whatever follows a third `>` field is never
   * looked at: only the first two `>` fields feed the parse. The stage is
   * trimmed and so is its extension, so that the trim does not move the
   * fields.
   */
  lemma LaterOutputFieldsIgnored(t: seq<char>, x: seq<char>)
    requires IN_SEPARATOR !in t && IN_SEPARATOR !in x
    requires Trim(t) == t && |Fields(t, OUT_SEPARATOR)| >= 2
    requires x == [] || !IsSpace(x[|x| - 1])
    ensures ParseStage(t + [OUT_SEPARATOR] + x) == ParseStage(t)
  {
    var s := t + [OUT_SEPARATOR] + x;
    var L := Fields(t, OUT_SEPARATOR);
    LaterOutputShape(t, x);
    FieldsOfWord(t, IN_SEPARATOR);
    ParseOneHalf(t, [t], L, Trim(L[0]), Some(Trim(L[1])));
    ParseOneHalf(s, [s], Fields(s, OUT_SEPARATOR), Trim(L[0]), Some(Trim(L[1])));
  }

  /** `t > x` is one `<` field, trims to itself, and starts with the `>` fields of `t`. */
  lemma LaterOutputShape(t: seq<char>, x: seq<char>)
    requires IN_SEPARATOR !in t && IN_SEPARATOR !in x
    requires Trim(t) == t && |Fields(t, OUT_SEPARATOR)| >= 2
    requires x == [] || !IsSpace(x[|x| - 1])
    ensures var s := t + [OUT_SEPARATOR] + x;
      && Fields(s, IN_SEPARATOR) == [s] && Trim(s) == s
      && |Fields(s, OUT_SEPARATOR)| >= 2
      && Fields(s, OUT_SEPARATOR)[0] == Fields(t, OUT_SEPARATOR)[0]
      && Fields(s, OUT_SEPARATOR)[1] == Fields(t, OUT_SEPARATOR)[1]
  {
    var s := t + [OUT_SEPARATOR] + x;
    LaterOutputTrimmed(t, x);
    FieldsOfWord(s, IN_SEPARATOR);
    FieldsConcat(t, x, OUT_SEPARATOR);
  }

  /** A trimmed `t` followed by `>` and a text that ends in a non-space is trimmed and has no `<`. */
  lemma LaterOutputTrimmed(t: seq<char>, x: seq<char>)
    requires IN_SEPARATOR !in t && IN_SEPARATOR !in x && t != [] && Trim(t) == t
    requires x == [] || !IsSpace(x[|x| - 1])
    ensures var s := t + [OUT_SEPARATOR] + x;
      s != [] && IN_SEPARATOR !in s && Trim(s) == s
  {
    var s := t + [OUT_SEPARATOR] + x;
    assert s[0] == t[0] && s[|s| - 1] == if x == [] then OUT_SEPARATOR else x[|x| - 1];
    TrimOfTrimmed(s);
  }

  /** A third `>` field after `<`, in the right half, is ignored as well. */
  lemma RightExtraOutputDropped(cmd: seq<char>, a: seq<char>, b: seq<char>, c: seq<char>)
    requires Word(cmd) && Word(a) && Word(b) && Word(c)
    ensures ParseStage(cmd + " < " + a + " > " + b + " > " + c) == Some(Redirection(cmd, Some(a), Some(b)))
  {
    var t := cmd + " < " + a + " > " + b + " > " + c;
    var v := b + " > " + c;
    var u := a + " > " + v;
    var H := [cmd + " ", " " + u];
    RightHalfFields(a, b, c);
    RightHalfRead(a, b, c);
    assert Fields(t, IN_SEPARATOR) == H by {
      LastOutShape(cmd + " < " + a + " > ", b, c);
      InThenOutShape(cmd, a, v);
      TwoFields(cmd + " ", " " + u, IN_SEPARATOR);
    }
    assert Fields(Trim(H[0]), OUT_SEPARATOR) == [cmd] && Trim([cmd][0]) == cmd by {
      Padded(cmd);
      WordRead(cmd);
    }
    ParseTwoHalves(t, H, [cmd], u, [a + " ", " " + b + " ", " " + c], cmd, a, Some(b));
  }

  /** `x + b > c` is `x` followed by the clause `b > c`. */
  lemma LastOutShape(x: seq<char>, b: seq<char>, c: seq<char>)
    ensures x + b + " > " + c == x + (b + " > " + c)
  {
    Regroup(x + b, " > ", c);
    Regroup(x, b, " > " + c);
    Regroup(b, " > ", c);
  }

  /** The right half `a > b > c` of `cmd < a > b > c` has no `<` and three `>` fields. */
  lemma RightHalfFields(a: seq<char>, b: seq<char>, c: seq<char>)
    requires Word(a) && Word(b) && Word(c)
    ensures var u := a + " > " + (b + " > " + c);
      IN_SEPARATOR !in u && Fields(u, OUT_SEPARATOR) == [a + " ", " " + b + " ", " " + c]
  {
    var v := b + " > " + c;
    var u := a + " > " + v;
    ClauseSplit(b, c);
    AroundMarkers(a, v);
    assert IN_SEPARATOR !in u by {
      assert IN_SEPARATOR !in " > ";
    }
    AroundMarkers(b, c);
    assert " " + v == (" " + b + " ") + [OUT_SEPARATOR] + (" " + c);
    TwoFields(" " + b + " ", " " + c, OUT_SEPARATOR);
    FieldsConcat(a + " ", " " + v, OUT_SEPARATOR);
    FieldsOfWord(a + " ", OUT_SEPARATOR);
  }

  /** The right half `a > b > c` is trimmed, reads back as `a`, and its second `>` field trims to `b`. */
  lemma RightHalfRead(a: seq<char>, b: seq<char>, c: seq<char>)
    requires Word(a) && Word(b) && Word(c)
    ensures var u := a + " > " + (b + " > " + c);
      Trim(" " + u) == u && ReadAfterSplit(u) == a && Trim(" " + b + " ") == b
  {
    var u := a + " > " + (b + " > " + c);
    RightHalfFields(a, b, c);
    assert u[0] == a[0] && u[|u| - 1] == c[|c| - 1];
    TrimOfTrimmed(u);
    PadOne(u);
    LeadingDelimsIs(u, OUT_SEPARATOR, 0);
    var s := a + " ";
    assert !IsSpace(s[0]);
    ReadAfterTrimNoLead(s);
    Padded(a);
    PaddedBoth(b);
  }

  // ---------------------------------------------------------------------------
  // The parse on the buffer

  /**
   * After `strtok_r(q, ">")` and the trim of the token it returns: `first`
   * is the trimmed first field, the pointer `q` reads `ReadAfterSplit`, and
   * the text from `save` on holds the remaining fields.
   */
  ghost predicate FirstPiece(b0: seq<char>, b: seq<char>, q: nat, first: nat, save: nat)
    requires HasNul(b0, q) && Fields(CStr(b0, q), OUT_SEPARATOR) != []
  {
    var S := CStr(b0, q);
    var G := Fields(S, OUT_SEPARATOR);
    var E := NulAt(b0, q);
    Within(b, first, q, E) && CStr(b, first) == Trim(G[0])
    && HasNul(b, q) && NulAt(b, q) == NulAt(b, first) && CStr(b, q) == ReadAfterSplit(S)
    && NulAt(b, q) <= save <= E && HasNul(b, save) && NulAt(b, save) == E
    && Fields(CStr(b, save), OUT_SEPARATOR) == G[1..]
    && (|G| >= 2 ==> NulAt(b, q) < save)
  }

  /** After the whole `>` split of the text at `q`: the first field and, if there is one, the second, trimmed. */
  ghost predicate OutSplit(b0: seq<char>, b: seq<char>, q: nat, first: nat, second: Ptr)
    requires HasNul(b0, q) && Fields(CStr(b0, q), OUT_SEPARATOR) != []
  {
    var S := CStr(b0, q);
    var G := Fields(S, OUT_SEPARATOR);
    var E := NulAt(b0, q);
    Within(b, first, q, E) && CStr(b, first) == Trim(G[0])
    && HasNul(b, q) && NulAt(b, q) == NulAt(b, first) && CStr(b, q) == ReadAfterSplit(S)
    && (second.At? <==> |G| >= 2)
    && (second.At? ==>
          Within(b, second.index, q, E) && NulAt(b, q) < second.index && CStr(b, second.index) == Trim(G[1]))
  }

  /** Lines 194-195 (and 213-214): split the text at `q` on `>` and trim the first field. */
  method FirstOutPiece(buf: array<char>, q: nat) returns (first: nat, save: nat, crashed: bool)
    requires HasNul(buf[..], q)
    modifies buf
    ensures crashed <==> Fields(CStr(old(buf[..]), q), OUT_SEPARATOR) == []
    ensures OnlyNulsWithin(old(buf[..]), buf[..], q, NulAt(old(buf[..]), q))
    ensures !crashed ==> FirstPiece(old(buf[..]), buf[..], q, first, save)
  {
    ghost var b0 := buf[..];
    var tok, next := StrTokR(buf, At(q), 0, OUT_SEPARATOR);
    if tok.Null? {
      return q, next, true;
    }
    ghost var b1 := buf[..];
    first := TrimWhiteSpace(buf, tok.index);
    save := next;
    crashed := false;
    FirstPieceFacts(b0, b1, buf[..], q, tok.index, next, first);
  }

  lemma FirstPieceFacts(b0: seq<char>, b1: seq<char>, b2: seq<char>, q: nat, tok: nat, next: nat, x: nat)
    requires HasNul(b0, q) && Fields(CStr(b0, q), OUT_SEPARATOR) != []
    requires var S := CStr(b0, q);
      var E := NulAt(b0, q);
      tok == q + LeadingDelims(S, OUT_SEPARATOR)
      && Within(b1, tok, q, E) && CStr(b1, tok) == Fields(S, OUT_SEPARATOR)[0]
      && b1 == b0[NulAt(b1, tok) := NUL]
      && next == (if NulAt(b1, tok) == E then NulAt(b1, tok) else NulAt(b1, tok) + 1)
      && HasNul(b1, next) && NulAt(b1, next) == E
      && Fields(CStr(b1, next), OUT_SEPARATOR) == Fields(S, OUT_SEPARATOR)[1..]
      && OnlyNulsWithin(b0, b1, q, E)
    requires Within(b2, x, tok, NulAt(b1, tok)) && CStr(b2, x) == Trim(CStr(b1, tok))
    requires OnlyNulsWithin(b1, b2, tok, NulAt(b1, tok))
    requires HasNul(b2, tok) && CStr(b2, tok) == ReadAfterTrim(CStr(b1, tok)) && NulAt(b2, tok) == NulAt(b2, x)
    ensures FirstPiece(b0, b2, q, x, next)
    ensures OnlyNulsWithin(b0, b2, q, NulAt(b0, q))
  {
    var S := CStr(b0, q);
    var E := NulAt(b0, q);
    var e := NulAt(b1, tok);
    FirstReadBack(b0, b1, b2, q, tok, E, e);
    NulsNarrow(b1, b2, tok, e);
    assert HasNul(b2, next) && NulAt(b2, next) == E && CStr(b2, next) == CStr(b1, next) by {
      CStrFrame(b1, b2, next, tok, e - 1);
    }
    assert OnlyNulsWithin(b0, b2, q, E) by {
      NulsWiden(b1, b2, tok, e - 1, q, E);
      NulsTrans(b0, b1, b2, q, E);
    }
  }

  /** The pointer `q` reads the leading `>` characters followed by what the trim left of the first field. */
  lemma FirstReadBack(b0: seq<char>, b1: seq<char>, b2: seq<char>, q: nat, tok: nat, E: nat, e: nat)
    requires HasNul(b0, q) && E == NulAt(b0, q) && Fields(CStr(b0, q), OUT_SEPARATOR) != []
    requires tok == q + LeadingDelims(CStr(b0, q), OUT_SEPARATOR) && tok <= e <= E
    requires HasNul(b1, tok) && e == NulAt(b1, tok) && b1 == b0[e := NUL]
    requires CStr(b1, tok) == Fields(CStr(b0, q), OUT_SEPARATOR)[0]
    requires OnlyNulsWithin(b1, b2, tok, e)
    requires HasNul(b2, tok) && CStr(b2, tok) == ReadAfterTrim(CStr(b1, tok))
    ensures HasNul(b2, q) && NulAt(b2, q) == NulAt(b2, tok) && CStr(b2, q) == ReadAfterSplit(CStr(b0, q))
  {
    var S := CStr(b0, q);
    var n := LeadingDelims(S, OUT_SEPARATOR);
    assert S == b0[q..E];
    forall k | q <= k < tok
      ensures b2[k] == b0[k] && b2[k] != NUL
    {
      assert b2[k] == b1[k] == b0[k];
      assert b0[k] == S[k - q] == OUT_SEPARATOR;
    }
    CStrPrefix(b2, q, tok);
    SliceAgree(b2, b0, q, tok);
    SliceOfSlice(b0, q, E, 0, n);
    assert S[..n] == S[0..n];
  }

  /** Two buffers that agree on `[lo, hi)` have the same slice there. */
  lemma SliceAgree(s: seq<char>, t: seq<char>, lo: nat, hi: nat)
    requires lo <= hi <= |s| && hi <= |t|
    requires forall k | lo <= k < hi :: s[k] == t[k]
    ensures s[lo..hi] == t[lo..hi]
  {
    forall k | 0 <= k < hi - lo
      ensures s[lo..hi][k] == t[lo..hi][k]
    {
      assert s[lo..hi][k] == s[lo + k];
    }
  }

  /** Lines 200-205 (and 216-219): the next `>` field, trimmed, and with `finish` the closing `strtok_r` call. */
  method NextOutPiece(buf: array<char>, save: nat, finish: bool) returns (second: Ptr)
    requires HasNul(buf[..], save)
    modifies buf
    ensures var G := Fields(CStr(old(buf[..]), save), OUT_SEPARATOR);
      (second.At? <==> G != [])
      && (second.At? ==>
            Within(buf[..], second.index, save, NulAt(old(buf[..]), save))
            && CStr(buf[..], second.index) == Trim(G[0]))
    ensures OnlyNulsWithin(old(buf[..]), buf[..], save, NulAt(old(buf[..]), save))
  {
    ghost var b0 := buf[..];
    ghost var E := NulAt(b0, save);
    var tok, next := StrTokR(buf, Null, save, OUT_SEPARATOR);
    if tok.Null? {
      return Null;
    }
    ghost var b1 := buf[..];
    ghost var e := NulAt(b1, tok.index);
    var y := TrimWhiteSpace(buf, tok.index);
    second := At(y);
    ghost var b2 := buf[..];
    assert OnlyNulsWithin(b0, b2, save, E) by {
      NulsWiden(b1, b2, tok.index, e, save, E);
      NulsTrans(b0, b1, b2, save, E);
    }
    if finish {
      NulsNarrow(b1, b2, tok.index, e);
      CStrFrame(b1, b2, next, tok.index, e - 1);
      var rest, after := StrTokR(buf, Null, next, OUT_SEPARATOR);
      ghost var b3 := buf[..];
      CStrFrame(b2, b3, y, next, E);
      NulsWiden(b2, b3, next, E, save, E);
      NulsTrans(b0, b2, b3, save, E);
    }
  }

  /**
   * The `>` split of one half: first field (trimmed), then the second
   * (trimmed) if any, then with `finish` the call that ends the split.
   * `crashed` is the NULL first token handed to `trimWhiteSpace`.
   */
  method SplitOnOutput(buf: array<char>, q: nat, finish: bool) returns (first: nat, second: Ptr, crashed: bool)
    requires HasNul(buf[..], q)
    modifies buf
    ensures crashed <==> Fields(CStr(old(buf[..]), q), OUT_SEPARATOR) == []
    ensures OnlyNulsWithin(old(buf[..]), buf[..], q, NulAt(old(buf[..]), q))
    ensures !crashed ==> OutSplit(old(buf[..]), buf[..], q, first, second)
  {
    ghost var b0 := buf[..];
    var save;
    first, save, crashed := FirstOutPiece(buf, q);
    if crashed {
      return first, Null, true;
    }
    ghost var b1 := buf[..];
    second := NextOutPiece(buf, save, finish);
    SplitFacts(b0, b1, buf[..], q, first, save, second);
  }

  lemma SplitFacts(b0: seq<char>, b1: seq<char>, b2: seq<char>, q: nat, first: nat, save: nat, second: Ptr)
    requires HasNul(b0, q) && Fields(CStr(b0, q), OUT_SEPARATOR) != []
    requires FirstPiece(b0, b1, q, first, save) && OnlyNulsWithin(b0, b1, q, NulAt(b0, q))
    requires var G := Fields(CStr(b1, save), OUT_SEPARATOR);
      (second.At? <==> G != [])
      && (second.At? ==> Within(b2, second.index, save, NulAt(b1, save)) && CStr(b2, second.index) == Trim(G[0]))
    requires OnlyNulsWithin(b1, b2, save, NulAt(b1, save))
    ensures OutSplit(b0, b2, q, first, second)
    ensures OnlyNulsWithin(b0, b2, q, NulAt(b0, q))
  {
    var E := NulAt(b0, q);
    CStrFrame(b1, b2, q, save, E);
    CStrFrame(b1, b2, first, save, E);
    NulsWiden(b1, b2, save, E, q, E);
    NulsTrans(b0, b1, b2, q, E);
  }

  /** The left half, with its pointers and the saved `<` position once it has been parsed. */
  ghost predicate LeftParsed(b0: seq<char>, b: seq<char>, t: nat, path: nat, output: Ptr, saveIn: nat)
    requires HasNul(b0, t) && Fields(CStr(b0, t), IN_SEPARATOR) != []
    requires Fields(Trim(Fields(CStr(b0, t), IN_SEPARATOR)[0]), OUT_SEPARATOR) != []
  {
    var H := Fields(CStr(b0, t), IN_SEPARATOR);
    var L := Fields(Trim(H[0]), OUT_SEPARATOR);
    var E := NulAt(b0, t);
    Within(b, path, t, E) && CStr(b, path) == Trim(L[0])
    && (output.At? <==> |L| >= 2)
    && (output.At? ==>
          Within(b, output.index, t, saveIn) && NulAt(b, path) < output.index && CStr(b, output.index) == Trim(L[1]))
    && NulAt(b, path) <= saveIn <= E && HasNul(b, saveIn) && NulAt(b, saveIn) == E
    && Fields(CStr(b, saveIn), IN_SEPARATOR) == H[1..]
    && (|H| >= 2 ==> NulAt(b, path) < saveIn)
  }

  /** Lines 191-206: the `<` split, the trim of the left half and its `>` split. */
  method LeftHalf(buf: array<char>, t: nat) returns (path: nat, output: Ptr, saveIn: nat, crashed: bool)
    requires HasNul(buf[..], t)
    modifies buf
    ensures var H := Fields(CStr(old(buf[..]), t), IN_SEPARATOR);
      crashed <==> H == [] || Fields(Trim(H[0]), OUT_SEPARATOR) == []
    ensures OnlyNulsWithin(old(buf[..]), buf[..], t, NulAt(old(buf[..]), t))
    ensures !crashed ==> LeftParsed(old(buf[..]), buf[..], t, path, output, saveIn)
  {
    ghost var b0 := buf[..];
    var tokIn, next := StrTokR(buf, At(t), 0, IN_SEPARATOR);
    if tokIn.Null? {
      return t, Null, next, true;
    }
    ghost var b1 := buf[..];
    var q0 := TrimWhiteSpace(buf, tokIn.index);
    ghost var b2 := buf[..];
    path, output, crashed := SplitOnOutput(buf, q0, true);
    saveIn := next;
    LeftFacts(b0, b1, b2, buf[..], t, tokIn.index, next, q0, path, output, crashed);
  }

  lemma LeftFacts(b0: seq<char>, b1: seq<char>, b2: seq<char>, b3: seq<char>, t: nat, tok: nat, next: nat,
                  q0: nat, path: nat, output: Ptr, crashed: bool)
    requires HasNul(b0, t) && Fields(CStr(b0, t), IN_SEPARATOR) != []
    requires var S := CStr(b0, t);
      var E := NulAt(b0, t);
      Within(b1, tok, t, E) && CStr(b1, tok) == Fields(S, IN_SEPARATOR)[0]
      && next == (if NulAt(b1, tok) == E then NulAt(b1, tok) else NulAt(b1, tok) + 1)
      && HasNul(b1, next) && NulAt(b1, next) == E
      && Fields(CStr(b1, next), IN_SEPARATOR) == Fields(S, IN_SEPARATOR)[1..]
      && OnlyNulsWithin(b0, b1, t, E)
    requires Within(b2, q0, tok, NulAt(b1, tok)) && CStr(b2, q0) == Trim(CStr(b1, tok))
    requires OnlyNulsWithin(b1, b2, tok, NulAt(b1, tok))
    requires crashed <==> Fields(CStr(b2, q0), OUT_SEPARATOR) == []
    requires OnlyNulsWithin(b2, b3, q0, NulAt(b2, q0))
    requires !crashed ==> OutSplit(b2, b3, q0, path, output)
    ensures var H := Fields(CStr(b0, t), IN_SEPARATOR);
      crashed <==> Fields(Trim(H[0]), OUT_SEPARATOR) == []
    ensures OnlyNulsWithin(b0, b3, t, NulAt(b0, t))
    ensures !crashed ==> LeftParsed(b0, b3, t, path, output, next)
  {
    var E := NulAt(b0, t);
    var e := NulAt(b1, tok);
    InnerSteps(b1, b2, b3, tok, e, q0, NulAt(b2, q0), next);
    NulsWiden(b1, b3, tok, e - 1, t, E);
    NulsTrans(b0, b1, b3, t, E);
  }

  /**
   * Two steps that only write NULs inside the token ending at `e`, the
   * second inside the first's result, leave the text from `next` on as it was.
   */
  lemma InnerSteps(b1: seq<char>, b2: seq<char>, b3: seq<char>, tok: nat, e: nat, q0: nat, f: nat, next: nat)
    requires tok <= e < |b1| && b1[e] == NUL && OnlyNulsWithin(b1, b2, tok, e)
    requires f < |b2| && b2[f] == NUL && tok <= q0 && f <= e && OnlyNulsWithin(b2, b3, q0, f)
    requires e <= next && HasNul(b1, next)
    ensures HasNul(b3, next) && NulAt(b3, next) == NulAt(b1, next) && CStr(b3, next) == CStr(b1, next)
    ensures OnlyNulsWithin(b1, b3, tok, e - 1)
  {
    NulsNarrow(b1, b2, tok, e);
    CStrFrame(b1, b2, next, tok, e - 1);
    NulsNarrow(b2, b3, q0, f);
    CStrFrame(b2, b3, next, q0, f - 1);
    NulsWiden(b2, b3, q0, f - 1, tok, e - 1);
    NulsTrans(b1, b2, b3, tok, e - 1);
  }

  /** The right half once parsed: the input pointer and, if the half has a second `>` field, the output. */
  ghost predicate RightParsed(b0: seq<char>, b: seq<char>, s: nat, input: Ptr, output: Ptr)
    requires HasNul(b0, s)
  {
    var H := Fields(CStr(b0, s), IN_SEPARATOR);
    var E := NulAt(b0, s);
    (input.At? <==> H != []) && (input.Null? ==> output.Null?)
    && (input.At? ==>
          Fields(Trim(H[0]), OUT_SEPARATOR) != []
          && Within(b, input.index, s, E) && CStr(b, input.index) == ReadAfterSplit(Trim(H[0]))
          && (output.At? <==> |Fields(Trim(H[0]), OUT_SEPARATOR)| >= 2)
          && (output.At? ==>
                Within(b, output.index, s, E)
                && CStr(b, output.index) == Trim(Fields(Trim(H[0]), OUT_SEPARATOR)[1])))
  }

  /** Lines 208-223: the next `<` field, trimmed and split on `>`, then the call that ends the `<` split. */
  method RightHalf(buf: array<char>, s: nat) returns (input: Ptr, output: Ptr, crashed: bool)
    requires HasNul(buf[..], s)
    modifies buf
    ensures var H := Fields(CStr(old(buf[..]), s), IN_SEPARATOR);
      crashed <==> H != [] && Fields(Trim(H[0]), OUT_SEPARATOR) == []
    ensures OnlyNulsWithin(old(buf[..]), buf[..], s, NulAt(old(buf[..]), s))
    ensures !crashed ==> RightParsed(old(buf[..]), buf[..], s, input, output)
  {
    ghost var b0 := buf[..];
    var tokIn, next := StrTokR(buf, Null, s, IN_SEPARATOR);
    if tokIn.Null? {
      return Null, Null, false;
    }
    ghost var b1 := buf[..];
    var q1 := TrimWhiteSpace(buf, tokIn.index);
    ghost var b2 := buf[..];
    var first, second;
    first, second, crashed := SplitOnOutput(buf, q1, false);
    ghost var b3 := buf[..];
    RightSplitFacts(b0, b1, b2, b3, s, tokIn.index, next, q1, first, second, crashed);
    if crashed {
      return Null, Null, true;
    }
    input, output := At(q1), second;
    var rest, after := StrTokR(buf, Null, next, IN_SEPARATOR);
    RightFacts(b0, b3, buf[..], s, next, q1, first, second);
  }

  lemma RightSplitFacts(b0: seq<char>, b1: seq<char>, b2: seq<char>, b3: seq<char>, s: nat, tok: nat, next: nat,
                        q1: nat, first: nat, second: Ptr, crashed: bool)
    requires HasNul(b0, s) && Fields(CStr(b0, s), IN_SEPARATOR) != []
    requires var S := CStr(b0, s);
      var E := NulAt(b0, s);
      Within(b1, tok, s, E) && CStr(b1, tok) == Fields(S, IN_SEPARATOR)[0]
      && s <= next && NulAt(b1, tok) <= next
      && HasNul(b1, next) && NulAt(b1, next) == E
      && OnlyNulsWithin(b0, b1, s, E)
    requires Within(b2, q1, tok, NulAt(b1, tok)) && CStr(b2, q1) == Trim(CStr(b1, tok))
    requires OnlyNulsWithin(b1, b2, tok, NulAt(b1, tok))
    requires crashed <==> Fields(CStr(b2, q1), OUT_SEPARATOR) == []
    requires OnlyNulsWithin(b2, b3, q1, NulAt(b2, q1))
    requires !crashed ==> OutSplit(b2, b3, q1, first, second)
    ensures var H := Fields(CStr(b0, s), IN_SEPARATOR);
      crashed <==> Fields(Trim(H[0]), OUT_SEPARATOR) == []
    ensures OnlyNulsWithin(b0, b3, s, NulAt(b0, s))
    ensures HasNul(b3, next) && NulAt(b3, next) == NulAt(b0, s)
    ensures !crashed ==>
      var H := Fields(CStr(b0, s), IN_SEPARATOR);
      Within(b3, q1, s, next) && CStr(b3, q1) == ReadAfterSplit(Trim(H[0]))
      && (second.At? <==> |Fields(Trim(H[0]), OUT_SEPARATOR)| >= 2)
      && (second.At? ==>
            Within(b3, second.index, s, next)
            && CStr(b3, second.index) == Trim(Fields(Trim(H[0]), OUT_SEPARATOR)[1]))
  {
    var E := NulAt(b0, s);
    var e := NulAt(b1, tok);
    InnerSteps(b1, b2, b3, tok, e, q1, NulAt(b2, q1), next);
    NulsWiden(b1, b3, tok, e - 1, s, E);
    NulsTrans(b0, b1, b3, s, E);
  }

  lemma RightFacts(b0: seq<char>, b3: seq<char>, b4: seq<char>, s: nat, next: nat, q1: nat, first: nat, second: Ptr)
    requires HasNul(b0, s) && Fields(CStr(b0, s), IN_SEPARATOR) != []
    requires Fields(Trim(Fields(CStr(b0, s), IN_SEPARATOR)[0]), OUT_SEPARATOR) != []
    requires OnlyNulsWithin(b0, b3, s, NulAt(b0, s))
    requires HasNul(b3, next) && NulAt(b3, next) == NulAt(b0, s) && s <= next
    requires var H := Fields(CStr(b0, s), IN_SEPARATOR);
      Within(b3, q1, s, next) && CStr(b3, q1) == ReadAfterSplit(Trim(H[0]))
      && (second.At? <==> |Fields(Trim(H[0]), OUT_SEPARATOR)| >= 2)
      && (second.At? ==>
            Within(b3, second.index, s, next)
            && CStr(b3, second.index) == Trim(Fields(Trim(H[0]), OUT_SEPARATOR)[1]))
    requires OnlyNulsWithin(b3, b4, next, NulAt(b3, next))
    ensures RightParsed(b0, b4, s, At(q1), second)
    ensures OnlyNulsWithin(b0, b4, s, NulAt(b0, s))
  {
    var E := NulAt(b0, s);
    CStrFrame(b3, b4, q1, next, E);
    if second.At? {
      CStrFrame(b3, b4, second.index, next, E);
    }
    NulsWiden(b3, b4, next, E, s, E);
    NulsTrans(b0, b3, b4, s, E);
  }

  /**
   * What the caller's three pointers hold after the stage has been parsed
   * into `r`: the command, and each file pointer either set to its file or
   * left as the caller had it. The files start after the command ends.
   */
  ghost predicate Parsed(b: seq<char>, r: Redirection, path: Ptr, input: Ptr, output: Ptr,
                         input0: Ptr, output0: Ptr, lo: nat, hi: nat)
  {
    path.At? && Within(b, path.index, lo, hi) && CStr(b, path.index) == r.path
    && (r.input.None? ==> input == input0)
    && (r.input.Some? ==>
          input.At? && Within(b, input.index, lo, hi) && NulAt(b, path.index) < input.index
          && CStr(b, input.index) == r.input.value)
    && (r.output.None? ==> output == output0)
    && (r.output.Some? ==>
          output.At? && Within(b, output.index, lo, hi) && NulAt(b, path.index) < output.index
          && CStr(b, output.index) == r.output.value)
  }

  /**
   * `extractPathInputOutput(token, &path, &inputDir, &outputDir)` on the
   * stage at `t`, with the caller's `inputDir` and `outputDir` given as
   * `input0` and `output0`. `crashed` is a NULL token reaching
   * `trimWhiteSpace`; otherwise the three pointers hold `ParseStage` of the
   * stage, and every write is a NUL inside the stage.
   */
  method ExtractPathInputOutput(buf: array<char>, t: nat, input0: Ptr, output0: Ptr)
    returns (path: Ptr, input: Ptr, output: Ptr, crashed: bool)
    requires HasNul(buf[..], t)
    modifies buf
    ensures crashed <==> ParseStage(CStr(old(buf[..]), t)).None?
    ensures !crashed ==>
      Parsed(buf[..], ParseStage(CStr(old(buf[..]), t)).value, path, input, output, input0, output0,
             t, NulAt(old(buf[..]), t))
    ensures OnlyNulsWithin(old(buf[..]), buf[..], t, NulAt(old(buf[..]), t))
  {
    ghost var b0 := buf[..];
    var p0, out1, saveIn, c := LeftHalf(buf, t);
    if c {
      return Null, input0, output0, true;
    }
    ghost var b1 := buf[..];
    var inp, out2, c2 := RightHalf(buf, saveIn);
    ExtractFacts(b0, b1, buf[..], t, p0, out1, saveIn, inp, out2, c2, input0, output0);
    if c2 {
      return Null, input0, output0, true;
    }
    crashed := false;
    path := At(p0);
    input := if inp.At? then inp else input0;
    output := if out2.At? then out2 else if out1.At? then out1 else output0;
  }

  lemma ExtractFacts(b0: seq<char>, b1: seq<char>, b2: seq<char>, t: nat, p0: nat, out1: Ptr, saveIn: nat,
                     inp: Ptr, out2: Ptr, c2: bool, input0: Ptr, output0: Ptr)
    requires HasNul(b0, t) && Fields(CStr(b0, t), IN_SEPARATOR) != []
    requires Fields(Trim(Fields(CStr(b0, t), IN_SEPARATOR)[0]), OUT_SEPARATOR) != []
    requires OnlyNulsWithin(b0, b1, t, NulAt(b0, t)) && LeftParsed(b0, b1, t, p0, out1, saveIn)
    requires var H := Fields(CStr(b1, saveIn), IN_SEPARATOR);
      c2 <==> H != [] && Fields(Trim(H[0]), OUT_SEPARATOR) == []
    requires OnlyNulsWithin(b1, b2, saveIn, NulAt(b1, saveIn))
    requires !c2 ==> RightParsed(b1, b2, saveIn, inp, out2)
    ensures c2 <==> ParseStage(CStr(b0, t)).None?
    ensures OnlyNulsWithin(b0, b2, t, NulAt(b0, t))
    ensures !c2 ==>
      Parsed(b2, ParseStage(CStr(b0, t)).value, At(p0), if inp.At? then inp else input0,
             if out2.At? then out2 else if out1.At? then out1 else output0, input0, output0, t, NulAt(b0, t))
  {
    var E := NulAt(b0, t);
    CStrFrame(b1, b2, p0, saveIn, E);
    if out1.At? {
      CStrFrame(b1, b2, out1.index, saveIn, E);
    }
    NulsWiden(b1, b2, saveIn, E, t, E);
    NulsTrans(b0, b1, b2, t, E);
    var T := CStr(b0, t);
    var H := Fields(T, IN_SEPARATOR);
    assert Fields(CStr(b1, saveIn), IN_SEPARATOR) == H[1..];
    if |H| < 2 {
      assert inp.Null? && out2.Null? by {
        assert H[1..] == [];
      }
      ParsedLeftOnly(b2, T, p0, out1, input0, output0, t, E);
    } else if !c2 {
      assert H[1..][0] == H[1];
      ParsedBoth(b2, T, p0, out1, inp, out2, input0, output0, t, E);
    }
  }

  /** The pointers after a stage without `<`: the command, and the output of the left half if any. */
  lemma ParsedLeftOnly(b: seq<char>, T: seq<char>, p0: nat, out1: Ptr, input0: Ptr, output0: Ptr, lo: nat, hi: nat)
    requires |Fields(T, IN_SEPARATOR)| == 1
    requires var L := Fields(Trim(Fields(T, IN_SEPARATOR)[0]), OUT_SEPARATOR);
      L != [] && Within(b, p0, lo, hi) && CStr(b, p0) == Trim(L[0])
      && (out1.At? <==> |L| >= 2)
      && (out1.At? ==> Within(b, out1.index, lo, hi) && NulAt(b, p0) < out1.index && CStr(b, out1.index) == Trim(L[1]))
    ensures ParseStage(T).Some?
    ensures Parsed(b, ParseStage(T).value, At(p0), input0, if out1.At? then out1 else output0, input0, output0, lo, hi)
  {
    var H := Fields(T, IN_SEPARATOR);
    var L := Fields(Trim(H[0]), OUT_SEPARATOR);
    ParseOneHalf(T, H, L, Trim(L[0]), if |L| >= 2 then Some(Trim(L[1])) else None);
  }

  /** The pointers after a stage with `<`: the command, the input, and the later output if any. */
  lemma ParsedBoth(b: seq<char>, T: seq<char>, p0: nat, out1: Ptr, inp: Ptr, out2: Ptr, input0: Ptr, output0: Ptr,
                   lo: nat, hi: nat)
    requires |Fields(T, IN_SEPARATOR)| >= 2
    requires var H := Fields(T, IN_SEPARATOR);
      var L := Fields(Trim(H[0]), OUT_SEPARATOR);
      L != [] && Within(b, p0, lo, hi) && CStr(b, p0) == Trim(L[0])
      && (out1.At? <==> |L| >= 2)
      && (out1.At? ==> Within(b, out1.index, lo, hi) && NulAt(b, p0) < out1.index && CStr(b, out1.index) == Trim(L[1]))
    requires var r := Trim(Fields(T, IN_SEPARATOR)[1]);
      var R := Fields(r, OUT_SEPARATOR);
      R != [] && inp.At? && Within(b, inp.index, lo, hi) && NulAt(b, p0) < inp.index
      && CStr(b, inp.index) == ReadAfterSplit(r)
      && (out2.At? <==> |R| >= 2)
      && (out2.At? ==> Within(b, out2.index, lo, hi) && NulAt(b, p0) < out2.index && CStr(b, out2.index) == Trim(R[1]))
    ensures ParseStage(T).Some?
    ensures Parsed(b, ParseStage(T).value, At(p0), inp, if out2.At? then out2 else if out1.At? then out1 else output0,
                   input0, output0, lo, hi)
  {
    var H := Fields(T, IN_SEPARATOR);
    var L := Fields(Trim(H[0]), OUT_SEPARATOR);
    var r := Trim(H[1]);
    var R := Fields(r, OUT_SEPARATOR);
    var out := if |R| >= 2 then Some(Trim(R[1])) else if |L| >= 2 then Some(Trim(L[1])) else None;
    ParseTwoHalves(T, H, L, r, R, Trim(L[0]), ReadAfterSplit(r), out);
  }
}
