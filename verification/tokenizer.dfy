/** Whitespace tokenisation as done by Python's argument-less `str.split()`. */
module Tokenizer {

  /**
    The characters `str.isspace()` accepts: ASCII tab through carriage return, the
    information separators U+001C..U+001F, space, NEL, no-break space, and the
    Unicode space separators and line/paragraph separators.
  */
  predicate IsSpace(c: char)
  {
    var n := c as int;
    || (0x09 <= n <= 0x0D) || (0x1C <= n <= 0x20) || n == 0x85 || n == 0xA0 || n == 0x1680
    || (0x2000 <= n <= 0x200A) || n == 0x2028 || n == 0x2029 || n == 0x202F || n == 0x205F
    || n == 0x3000
  }

  /** The length of the longest prefix of `s` that holds no whitespace. */
  function RunLength(s: string): (n: nat)
    ensures n <= |s|
    ensures forall i :: 0 <= i < n ==> !IsSpace(s[i])
    ensures n == |s| || IsSpace(s[n])
  {
    if |s| == 0 || IsSpace(s[0]) then 0 else 1 + RunLength(s[1..])
  }

  /** The terms of `s`, in order: its maximal runs of non-whitespace characters. */
  function Split(s: string): seq<string>
    decreases |s|
  {
    if |s| == 0 then []
    else if IsSpace(s[0]) then Split(s[1..])
    else
      var n := RunLength(s);
      [s[..n]] + Split(s[n..])
  }

  /** `s[i..j]` is a maximal whitespace-free run of `s`. */
  predicate IsTermAt(s: string, i: int, j: int)
  {
    && 0 <= i < j <= |s|
    && (forall k :: i <= k < j ==> !IsSpace(s[k]))
    && (i == 0 || IsSpace(s[i - 1]))
    && (j == |s| || IsSpace(s[j]))
  }

  /** `w` occurs in `s` delimited by whitespace or the ends of `s`. */
  ghost predicate IsTermOf(s: string, w: string)
  {
    exists i, j :: IsTermAt(s, i, j) && s[i..j] == w
  }

  /** A run of a suffix `s[m..]` is a run of `s`, provided it does not continue leftwards past `m`. */
  lemma TermAtShiftOut(s: string, m: int, i: int, j: int)
    requires 0 <= m <= |s| && IsTermAt(s[m..], i, j)
    requires i > 0 || m == 0 || IsSpace(s[m - 1])
    ensures IsTermAt(s, i + m, j + m) && s[i + m..j + m] == s[m..][i..j]
  {
    var t := s[m..];
    assert forall k :: i + m <= k < j + m ==> s[k] == t[k - m];
    if i > 0 {
      assert s[i + m - 1] == t[i - 1];
    }
    if j < |t| {
      assert s[j + m] == t[j];
    }
  }

  /** A run of `s` that starts at or after `m` is a run of the suffix `s[m..]`. */
  lemma TermAtShiftIn(s: string, m: int, i: int, j: int)
    requires IsTermAt(s, i, j) && 0 <= m <= i
    ensures IsTermAt(s[m..], i - m, j - m) && s[m..][i - m..j - m] == s[i..j]
  {
    var t := s[m..];
    assert forall k :: i - m <= k < j - m ==> t[k] == s[k + m];
    if i - m > 0 {
      assert t[i - m - 1] == s[i - 1];
    }
    if j - m < |t| {
      assert t[j - m] == s[j];
    }
  }

  /** Every term `Split` returns is a maximal run of the input. */
  lemma {:induction false} SplitSound(s: string, w: string)
    requires w in Split(s)
    ensures IsTermOf(s, w)
    decreases |s|
  {
    if IsSpace(s[0]) {
      SplitSound(s[1..], w);
      var i, j :| IsTermAt(s[1..], i, j) && s[1..][i..j] == w;
      TermAtShiftOut(s, 1, i, j);
    } else {
      var n := RunLength(s);
      if w == s[..n] {
        assert IsTermAt(s, 0, n) && s[0..n] == w;
      } else {
        var t := s[n..];
        assert w in Split(t);
        SplitSound(t, w);
        var i, j :| IsTermAt(t, i, j) && t[i..j] == w;
        TermAtShiftOut(s, n, i, j);
      }
    }
  }

  /** A run starting at the front of `s` ends where the leading whitespace-free prefix ends. */
  lemma FirstTermIsRun(s: string, j: int)
    requires IsTermAt(s, 0, j)
    ensures j == RunLength(s)
  {
  }

  /** The leading run stops at or before any whitespace character. */
  lemma RunLengthBound(s: string, k: int)
    requires 0 <= k < |s| && IsSpace(s[k])
    ensures RunLength(s) <= k
  {
  }

  /** Every maximal run of the input is one of the terms `Split` returns. */
  lemma {:induction false} SplitComplete(s: string, i: int, j: int)
    requires IsTermAt(s, i, j)
    ensures s[i..j] in Split(s)
    decreases |s|, 1
  {
    if IsSpace(s[0]) {
      SplitCompleteAfterSpace(s, i, j);
    } else if i == 0 {
      FirstTermIsRun(s, j);
      assert Split(s) == [s[i..j]] + Split(s[j..]);
    } else {
      SplitCompleteAfterRun(s, i, j);
    }
  }

  /** Completeness when `s` starts with whitespace: the run lies in `s[1..]`. */
  lemma {:induction false} SplitCompleteAfterSpace(s: string, i: int, j: int)
    requires IsTermAt(s, i, j) && IsSpace(s[0])
    ensures s[i..j] in Split(s)
    decreases |s|, 0
  {
    TermAtShiftIn(s, 1, i, j);
    SplitComplete(s[1..], i - 1, j - 1);
  }

  /** Completeness for a run that does not start `s` when `s` starts with a term: the run lies after that term. */
  lemma {:induction false} SplitCompleteAfterRun(s: string, i: int, j: int)
    requires IsTermAt(s, i, j) && !IsSpace(s[0]) && i > 0
    ensures s[i..j] in Split(s)
    decreases |s|, 0
  {
    var n := RunLength(s);
    var t := s[n..];
    assert n < i by { RunLengthBound(s, i - 1); }
    TermAtShiftIn(s, n, i, j);
    SplitComplete(t, i - n, j - n);
    assert Split(s) == [s[..n]] + Split(t);
  }

  /** The terms of a text are exactly its maximal whitespace-delimited runs. */
  lemma SplitIsTerms(s: string, w: string)
    ensures w in Split(s) <==> IsTermOf(s, w)
  {
    if w in Split(s) {
      SplitSound(s, w);
    }
    if IsTermOf(s, w) {
      var i, j :| IsTermAt(s, i, j) && s[i..j] == w;
      SplitComplete(s, i, j);
    }
  }

  /** A text yields no terms exactly when it is empty or all whitespace. */
  lemma {:induction false} SplitEmpty(s: string)
    ensures Split(s) == [] <==> forall i :: 0 <= i < |s| ==> IsSpace(s[i])
    decreases |s|
  {
    if |s| > 0 {
      if IsSpace(s[0]) {
        SplitEmpty(s[1..]);
        assert forall i :: 1 <= i < |s| ==> s[i] == s[1..][i - 1];
      }
    }
  }
}
