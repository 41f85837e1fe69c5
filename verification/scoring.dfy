/**
  Per-query word scores of the analytics tool: every question created inside the
  query's year range adds its score once to each distinct word of its title.
*/
module Scoring {
  import opened WordOrder
  import opened Questions

  /** One `(word, score)` item of the score dictionary. */
  datatype Entry = Entry(word: Word, score: int)

  /** The score dictionary as its items in insertion order, as a Python dict keeps them. */
  type Table = seq<Entry>

  /** No word has two entries. */
  predicate DistinctWords(t: Table)
  {
    forall i, j :: 0 <= i < j < |t| ==> t[i].word != t[j].word
  }

  /** The words that have an entry. */
  function Words(t: Table): set<Word>
  {
    set i | 0 <= i < |t| :: t[i].word
  }

  /** The score recorded for `w`, 0 when absent (the `defaultdict(int)` default). */
  function ScoreOf(t: Table, w: Word): int
    decreases |t|
  {
    if |t| == 0 then 0 else if t[0].word == w then t[0].score else ScoreOf(t[1..], w)
  }

  lemma {:induction false} WordsCons(t: Table)
    requires |t| > 0
    ensures Words(t) == {t[0].word} + Words(t[1..])
  {
    forall w | w in Words(t) ensures w in {t[0].word} + Words(t[1..]) {
      var i :| 0 <= i < |t| && t[i].word == w;
      if i > 0 {
        assert t[1..][i - 1].word == w;
      }
    }
    forall w | w in Words(t[1..]) ensures w in Words(t) {
      var i :| 0 <= i < |t[1..]| && t[1..][i].word == w;
      assert t[i + 1].word == w;
    }
  }

  /** Adds `s` to the score of `w`: in place when `w` already has an entry, otherwise as a new entry at the end. */
  function Bump(t: Table, w: Word, s: int): (r: Table)
    requires DistinctWords(t)
    ensures DistinctWords(r)
    ensures Words(r) == Words(t) + {w}
    ensures forall v :: ScoreOf(r, v) == ScoreOf(t, v) + (if v == w then s else 0)
    decreases |t|
  {
    if |t| == 0 then
      var r := [Entry(w, s)];
      assert r[0].word == w;
      assert Words(r) == {w};
      r
    else
      WordsCons(t);
      if t[0].word == w then
        var r := [Entry(w, t[0].score + s)] + t[1..];
        WordsCons(r);
        assert r[1..] == t[1..];
        assert w !in Words(t[1..]);
        ScoreOfAbsent(t[1..], w);
        r
      else
        var tail := Bump(t[1..], w, s);
        var r := [t[0]] + tail;
        WordsCons(r);
        assert r[1..] == tail;
        assert t[0].word !in Words(tail);
        r
  }

  lemma {:induction false} ScoreOfAbsent(t: Table, w: Word)
    requires w !in Words(t)
    ensures ScoreOf(t, w) == 0
    decreases |t|
  {
    if |t| > 0 {
      WordsCons(t);
      ScoreOfAbsent(t[1..], w);
    }
  }

  /**
    The inner loop over one title: each word not yet in `seen` gets `s` added once and
    joins `seen`.
  */
  function AddWords(t: Table, ws: seq<Word>, seen: set<Word>, s: int): (r: Table)
    requires DistinctWords(t)
    ensures DistinctWords(r)
    decreases |ws|
  {
    if |ws| == 0 then t
    else if ws[0] in seen then AddWords(t, ws[1..], seen, s)
    else AddWords(Bump(t, ws[0], s), ws[1..], seen + {ws[0]}, s)
  }

  /** One title adds `s` once to each of its words outside `seen`, creating the entries that are missing. */
  lemma {:induction false} AddWordsSpec(t: Table, ws: seq<Word>, seen: set<Word>, s: int)
    requires DistinctWords(t)
    ensures Words(AddWords(t, ws, seen, s)) == Words(t) + (set w | w in ws && w !in seen)
    ensures forall v :: ScoreOf(AddWords(t, ws, seen, s), v) == ScoreOf(t, v) + (if v in ws && v !in seen then s else 0)
    decreases |ws|
  {
    if |ws| > 0 {
      assert ws == [ws[0]] + ws[1..];
      if ws[0] in seen {
        AddWordsSpec(t, ws[1..], seen, s);
        assert (set v | v in ws && v !in seen) == (set v | v in ws[1..] && v !in seen);
      } else {
        var t' := Bump(t, ws[0], s);
        var seen' := seen + {ws[0]};
        AddWordsSpec(t', ws[1..], seen', s);
        assert (set v | v in ws && v !in seen) == {ws[0]} + (set v | v in ws[1..] && v !in seen');
      }
    }
  }

  /** The question counts towards the query `[from, to]`. */
  predicate InRange(q: Question, from: int, to: int)
  {
    from <= q.year <= to
  }

  /** The score loop over the questions, in order, starting from `t`. */
  function ScoreFrom(t: Table, qs: seq<Question>, from: int, to: int): Table
    requires DistinctWords(t)
    decreases |qs|
  {
    if |qs| == 0 then t
    else if InRange(qs[0], from, to) then ScoreFrom(AddWords(t, qs[0].words, {}, qs[0].score), qs[1..], from, to)
    else ScoreFrom(t, qs[1..], from, to)
  }

  /** The fresh score dictionary of one query. */
  function Scores(qs: seq<Question>, from: int, to: int): Table
  {
    ScoreFrom([], qs, from, to)
  }

  /** Reference total: the sum of the scores of the in-range questions whose title holds `w`. */
  function WordTotal(qs: seq<Question>, w: Word, from: int, to: int): int
    decreases |qs|
  {
    if |qs| == 0 then 0
    else (if InRange(qs[0], from, to) && w in qs[0].words then qs[0].score else 0) + WordTotal(qs[1..], w, from, to)
  }

  /** `w` occurs in the title of some in-range question. */
  ghost predicate Scored(qs: seq<Question>, w: Word, from: int, to: int)
  {
    exists i :: 0 <= i < |qs| && InRange(qs[i], from, to) && w in qs[i].words
  }

  lemma ScoredCons(qs: seq<Question>, w: Word, from: int, to: int)
    requires |qs| > 0
    ensures Scored(qs, w, from, to) <==> (InRange(qs[0], from, to) && w in qs[0].words) || Scored(qs[1..], w, from, to)
  {
    if Scored(qs[1..], w, from, to) {
      var i :| 0 <= i < |qs[1..]| && InRange(qs[1..][i], from, to) && w in qs[1..][i].words;
      assert qs[i + 1] == qs[1..][i];
    }
    if Scored(qs, w, from, to) {
      var i :| 0 <= i < |qs| && InRange(qs[i], from, to) && w in qs[i].words;
      if i > 0 {
        assert qs[1..][i - 1] == qs[i];
      }
    }
  }

  /** The score loop adds, for every word, the reference total, and creates an entry exactly for the scored words. */
  lemma {:induction false} ScoreFromSpec(t: Table, qs: seq<Question>, from: int, to: int)
    requires DistinctWords(t)
    ensures DistinctWords(ScoreFrom(t, qs, from, to))
    ensures forall w :: w in Words(ScoreFrom(t, qs, from, to)) <==> w in Words(t) || Scored(qs, w, from, to)
    ensures forall w :: ScoreOf(ScoreFrom(t, qs, from, to), w) == ScoreOf(t, w) + WordTotal(qs, w, from, to)
    decreases |qs|
  {
    if |qs| > 0 {
      var t' := if InRange(qs[0], from, to) then AddWords(t, qs[0].words, {}, qs[0].score) else t;
      AddWordsSpec(t, qs[0].words, {}, qs[0].score);
      ScoreFromSpec(t', qs[1..], from, to);
      forall w ensures w in Words(ScoreFrom(t, qs, from, to)) <==> w in Words(t) || Scored(qs, w, from, to) {
        ScoredCons(qs, w, from, to);
      }
    }
  }

  /** A query's scores: one entry per word of an in-range title, holding the sum of those questions' scores. */
  lemma ScoresCorrect(qs: seq<Question>, from: int, to: int, w: Word)
    ensures DistinctWords(Scores(qs, from, to))
    ensures w in Words(Scores(qs, from, to)) <==> Scored(qs, w, from, to)
    ensures ScoreOf(Scores(qs, from, to), w) == WordTotal(qs, w, from, to)
  {
    ScoreFromSpec([], qs, from, to);
  }

  /** Questions outside the year range change nothing: scoring only the in-range ones gives the same dictionary, in the same order. */
  lemma {:induction false} OnlyInRangeCounts(t: Table, qs: seq<Question>, from: int, to: int)
    requires DistinctWords(t)
    ensures ScoreFrom(t, qs, from, to) == ScoreFrom(t, InRangeOnly(qs, from, to), from, to)
    decreases |qs|
  {
    if |qs| > 0 {
      var t' := if InRange(qs[0], from, to) then AddWords(t, qs[0].words, {}, qs[0].score) else t;
      OnlyInRangeCounts(t', qs[1..], from, to);
    }
  }

  /** The questions created inside `[from, to]`, in order. */
  function InRangeOnly(qs: seq<Question>, from: int, to: int): (r: seq<Question>)
    ensures forall i :: 0 <= i < |r| ==> InRange(r[i], from, to)
    ensures forall q :: multiset(r)[q] == if InRange(q, from, to) then multiset(qs)[q] else 0
    decreases |qs|
  {
    if |qs| == 0 then []
    else
      assert qs == [qs[0]] + qs[1..];
      if InRange(qs[0], from, to) then [qs[0]] + InRangeOnly(qs[1..], from, to)
    else InRangeOnly(qs[1..], from, to)
  }

  /** A question whose title kept no words contributes nothing. */
  lemma EmptyTitleContributesNothing(t: Table, q: Question, qs: seq<Question>, from: int, to: int)
    requires DistinctWords(t) && q.words == []
    ensures ScoreFrom(t, [q] + qs, from, to) == ScoreFrom(t, qs, from, to)
  {
    assert ([q] + qs)[1..] == qs;
  }

  /** With distinct words, a table has one entry per word. */
  lemma {:induction false} DistinctCard(t: Table)
    requires DistinctWords(t)
    ensures |Words(t)| == |t|
    decreases |t|
  {
    if |t| > 0 {
      WordsCons(t);
      DistinctCard(t[1..]);
      assert t[0].word !in Words(t[1..]);
    }
  }

  /** With distinct words, `ScoreOf` reads the score stored in a word's entry. */
  lemma {:induction false} ScoreOfAt(t: Table, i: int)
    requires DistinctWords(t) && 0 <= i < |t|
    ensures ScoreOf(t, t[i].word) == t[i].score
    decreases |t|
  {
    if i > 0 {
      ScoreOfAt(t[1..], i - 1);
    }
  }

  lemma {:induction false} WordsCard(t: Table)
    ensures |Words(t)| <= |t|
    decreases |t|
  {
    if |t| > 0 {
      WordsCons(t);
      WordsCard(t[1..]);
    }
  }

  /** A table with as many words as entries repeats no word. */
  lemma {:induction false} CardDistinct(t: Table)
    requires |Words(t)| == |t|
    ensures DistinctWords(t)
    decreases |t|
  {
    if |t| > 0 {
      WordsCons(t);
      WordsCard(t[1..]);
      assert t[0].word !in Words(t[1..]);
      CardDistinct(t[1..]);
      forall i, j | 0 <= i < j < |t| ensures t[i].word != t[j].word {
        if i == 0 {
          assert t[j].word == t[1..][j - 1].word;
        } else {
          assert t[i] == t[1..][i - 1] && t[j] == t[1..][j - 1];
        }
      }
    }
  }
}
