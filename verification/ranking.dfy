/**
  Ranking of the analytics tool: the score items sorted by the key `(-score, word)`,
  cut to the requested amount, one reply per query.
*/
module Ranking {
  import opened WordOrder
  import opened Questions
  import opened Scoring

  /** `a` sorts no later than `b` under the key `(-score, word)`: higher score first, then the smaller word. */
  predicate KeyLe(a: Entry, b: Entry)
  {
    a.score > b.score || (a.score == b.score && WordLe(a.word, b.word))
  }

  lemma KeyLeTotal(a: Entry, b: Entry)
    ensures KeyLe(a, b) || KeyLe(b, a)
  {
    WordLeTotal(a.word, b.word);
  }

  lemma KeyLeTransitive(a: Entry, b: Entry, c: Entry)
    requires KeyLe(a, b) && KeyLe(b, c)
    ensures KeyLe(a, c)
  {
    if a.score == b.score == c.score {
      WordLeTransitive(a.word, b.word, c.word);
    }
  }

  lemma KeyLeAntisymmetric(a: Entry, b: Entry)
    requires KeyLe(a, b) && KeyLe(b, a)
    ensures a == b
  {
    WordLeAntisymmetric(a.word, b.word);
  }

  /** Items ordered by descending score, equal scores by ascending word. */
  predicate Sorted(t: Table)
  {
    forall i, j :: 0 <= i < j < |t| ==> KeyLe(t[i], t[j])
  }

  lemma ConsSorted(x: Entry, t: Table)
    requires Sorted(t)
    requires forall y :: y in multiset(t) ==> KeyLe(x, y)
    ensures Sorted([x] + t)
  {
    var r := [x] + t;
    forall i, j | 0 <= i < j < |r| ensures KeyLe(r[i], r[j]) {
      if i == 0 {
        assert r[j] == t[j - 1] && r[j] in multiset(t);
      } else {
        assert r[i] == t[i - 1] && r[j] == t[j - 1];
      }
    }
  }

  /** Every suffix of a sorted table is sorted. */
  lemma SortedTail(t: Table)
    requires Sorted(t) && |t| > 0
    ensures Sorted(t[1..])
  {
    forall i, j | 0 <= i < j < |t[1..]| ensures KeyLe(t[1..][i], t[1..][j]) {
      assert t[1..][i] == t[i + 1] && t[1..][j] == t[j + 1];
    }
  }

  /** Dropping the head removes one copy of it from the items. */
  lemma TailMultiset(t: Table)
    requires |t| > 0
    ensures multiset(t[1..]) == multiset(t) - multiset{t[0]}
  {
    assert t == [t[0]] + t[1..];
  }

  /** `e` placed before a sorted table that it precedes. */
  lemma InsertFront(e: Entry, t: Table)
    requires Sorted(t) && |t| > 0 && KeyLe(e, t[0])
    ensures Sorted([e] + t)
  {
    forall y | y in multiset(t) ensures KeyLe(e, y) {
      var j :| 0 <= j < |t| && t[j] == y;
      if j > 0 {
        KeyLeTransitive(e, t[0], y);
      }
    }
    ConsSorted(e, t);
  }

  /** The head of a sorted table placed before `e` inserted into its tail. */
  lemma InsertBehind(e: Entry, t: Table, tail: Table)
    requires Sorted(t) && |t| > 0 && !KeyLe(e, t[0])
    requires Sorted(tail) && multiset(tail) == multiset(t[1..]) + multiset{e}
    ensures Sorted([t[0]] + tail)
    ensures multiset([t[0]] + tail) == multiset(t) + multiset{e}
  {
    KeyLeTotal(e, t[0]);
    forall y | y in multiset(tail) ensures KeyLe(t[0], y) {
      if y != e {
        assert y in multiset(t[1..]);
        var j :| 0 <= j < |t[1..]| && t[1..][j] == y;
        assert t[j + 1] == y;
      }
    }
    ConsSorted(t[0], tail);
    assert t == [t[0]] + t[1..];
  }

  /** Places `e` into a sorted table. */
  function Insert(e: Entry, t: Table): (r: Table)
    requires Sorted(t)
    ensures Sorted(r)
    ensures multiset(r) == multiset(t) + multiset{e}
    decreases |t|
  {
    if |t| == 0 then [e]
    else if KeyLe(e, t[0]) then
      InsertFront(e, t);
      [e] + t
    else
      SortedTail(t);
      var tail := Insert(e, t[1..]);
      InsertBehind(e, t, tail);
      [t[0]] + tail
  }

  /** The fully sorted items: an ordered rearrangement of the same items. */
  function Sort(t: Table): (r: Table)
    ensures Sorted(r)
    ensures multiset(r) == multiset(t)
    decreases |t|
  {
    if |t| == 0 then []
    else
      assert t == [t[0]] + t[1..];
      Insert(t[0], Sort(t[1..]))
  }

  /** Two sorted rearrangements of the same items are identical: the key order leaves no ties between distinct items. */
  lemma {:induction false} SortedUnique(a: Table, b: Table)
    requires Sorted(a) && Sorted(b) && multiset(a) == multiset(b)
    ensures a == b
    decreases |a|
  {
    assert |a| == |multiset(a)| == |multiset(b)| == |b|;
    if |a| > 0 {
      assert a[0] in multiset(b);
      var j :| 0 <= j < |b| && b[j] == a[0];
      assert b[0] in multiset(a);
      var i :| 0 <= i < |a| && a[i] == b[0];
      if i > 0 {
        assert KeyLe(a[0], b[0]);
      } else {
        assert a[0] == b[0];
      }
      if j > 0 {
        assert KeyLe(b[0], a[0]);
      }
      if i > 0 && j > 0 {
        KeyLeAntisymmetric(a[0], b[0]);
      }
      assert a[0] == b[0];
      TailMultiset(a);
      TailMultiset(b);
      SortedTail(a);
      SortedTail(b);
      SortedUnique(a[1..], b[1..]);
    }
  }

  /** Python's slice `items[:amount]`: a negative amount drops that many items from the end. */
  function Take(t: Table, amount: int): Table
  {
    if amount >= 0 then t[..if amount < |t| then amount else |t|]
    else t[..if |t| + amount > 0 then |t| + amount else 0]
  }

  /** The `top` list of one query. */
  function Answer(qs: seq<Question>, from: int, to: int, amount: int): Table
  {
    Take(Sort(Scores(qs, from, to)), amount)
  }

  /** One line of `queries.csv`: `from,to,amount`. */
  datatype Request = Request(from: int, to: int, amount: int)

  /** One JSON reply `{"start": ..., "end": ..., "top": ...}`. */
  datatype Reply = Reply(start: int, end: int, top: Table)

  /** Answers every request against the same questions, each from a fresh score dictionary. */
  function Report(qs: seq<Question>, reqs: seq<Request>): (r: seq<Reply>)
    ensures |r| == |reqs|
    ensures forall i :: 0 <= i < |reqs| ==>
      r[i] == Reply(reqs[i].from, reqs[i].to, Answer(qs, reqs[i].from, reqs[i].to, reqs[i].amount))
    decreases |reqs|
  {
    if |reqs| == 0 then []
    else [Reply(reqs[0].from, reqs[0].to, Answer(qs, reqs[0].from, reqs[0].to, reqs[0].amount))] + Report(qs, reqs[1..])
  }

  /** The whole tool over parsed posts: filter once, then answer each request. */
  function Analytics(raw: seq<RawPost>, stop: set<Word>, reqs: seq<Request>): seq<Reply>
  {
    Report(Filter(raw, stop), reqs)
  }

  /** The words that occur in the title of some question of the year range. */
  ghost function ScoredWords(qs: seq<Question>, from: int, to: int): set<Word>
  {
    set i, w | 0 <= i < |qs| && InRange(qs[i], from, to) && w in qs[i].words :: w
  }

  /** A query's dictionary has one entry per scored word. */
  lemma ScoresSize(qs: seq<Question>, from: int, to: int)
    ensures |Scores(qs, from, to)| == |ScoredWords(qs, from, to)|
  {
    var t := Scores(qs, from, to);
    forall w ensures w in Words(t) <==> w in ScoredWords(qs, from, to) {
      ScoresCorrect(qs, from, to, w);
    }
    assert Words(t) == ScoredWords(qs, from, to);
    ScoresCorrect(qs, from, to, []);
    DistinctCard(t);
  }

  /** The reply holds `amount` items, or every scored word when there are fewer; a negative amount drops that many from the end. */
  lemma AnswerLength(qs: seq<Question>, from: int, to: int, amount: int)
    ensures var n := |ScoredWords(qs, from, to)|;
      |Answer(qs, from, to, amount)| == if amount >= 0 then (if amount < n then amount else n)
                                        else (if n + amount > 0 then n + amount else 0)
  {
    ScoresSize(qs, from, to);
    var t := Scores(qs, from, to);
    assert |Sort(t)| == |multiset(Sort(t))| == |multiset(t)| == |t|;
  }

  /** The reply is sorted, and it is the front of every sorted arrangement of the query's scores, whatever the dictionary's order. */
  lemma AnswerIsPrefix(qs: seq<Question>, from: int, to: int, amount: int, u: Table)
    requires Sorted(u) && multiset(u) == multiset(Scores(qs, from, to))
    ensures Sorted(Answer(qs, from, to, amount))
    ensures Answer(qs, from, to, amount) == u[..|Answer(qs, from, to, amount)|]
  {
    var s := Sort(Scores(qs, from, to));
    SortedUnique(s, u);
  }

  /** Every reply item is a scored word with the sum of the scores of the in-range questions whose title holds it, and no word appears twice. */
  lemma AnswerScores(qs: seq<Question>, from: int, to: int, amount: int)
    ensures var r := Answer(qs, from, to, amount);
      && DistinctWords(r)
      && forall k :: 0 <= k < |r| ==> Scored(qs, r[k].word, from, to) && r[k].score == WordTotal(qs, r[k].word, from, to)
  {
    var t := Scores(qs, from, to);
    var s := Sort(t);
    var r := Answer(qs, from, to, amount);
    ScoresCorrect(qs, from, to, []);
    assert r == s[..|r|];
    forall k | 0 <= k < |r|
      ensures Scored(qs, r[k].word, from, to) && r[k].score == WordTotal(qs, r[k].word, from, to)
    {
      assert r[k] == s[k] && s[k] in multiset(t);
      var i :| 0 <= i < |t| && t[i] == r[k];
      ScoreOfAt(t, i);
      ScoresCorrect(qs, from, to, r[k].word);
      assert r[k].word in Words(t);
    }
    PermutationDistinct(s, t);
  }

  /** Rearranging a table with distinct words keeps its words distinct. */
  lemma PermutationDistinct(s: Table, t: Table)
    requires DistinctWords(t) && multiset(s) == multiset(t)
    ensures DistinctWords(s)
  {
    forall w | w in Words(s) ensures w in Words(t) {
      var k :| 0 <= k < |s| && s[k].word == w;
      assert s[k] in multiset(t);
      var i :| 0 <= i < |t| && t[i] == s[k];
    }
    forall w | w in Words(t) ensures w in Words(s) {
      var i :| 0 <= i < |t| && t[i].word == w;
      assert t[i] in multiset(s);
      var k :| 0 <= k < |s| && s[k] == t[i];
    }
    assert Words(s) == Words(t);
    assert |s| == |multiset(s)| == |multiset(t)| == |t|;
    DistinctCard(t);
    CardDistinct(s);
  }

  /** Every word that scored but is missing from the reply ranks no earlier than each reply item. */
  lemma AnswerIsTop(qs: seq<Question>, from: int, to: int, amount: int, w: Word, k: int)
    requires Scored(qs, w, from, to)
    requires forall l :: 0 <= l < |Answer(qs, from, to, amount)| ==> Answer(qs, from, to, amount)[l].word != w
    requires 0 <= k < |Answer(qs, from, to, amount)|
    ensures KeyLe(Answer(qs, from, to, amount)[k], Entry(w, WordTotal(qs, w, from, to)))
  {
    var t := Scores(qs, from, to);
    var s := Sort(t);
    var r := Answer(qs, from, to, amount);
    ScoresCorrect(qs, from, to, w);
    var i :| 0 <= i < |t| && t[i].word == w;
    ScoreOfAt(t, i);
    assert t[i] in multiset(s);
    var j :| 0 <= j < |s| && s[j] == t[i];
    assert r == s[..|r|];
    assert forall l :: 0 <= l < |r| ==> s[l].word != w by {
      forall l | 0 <= l < |r| ensures s[l].word != w {
        assert s[l] == r[l];
      }
    }
    assert j >= |r|;
    assert r[k] == s[k] && KeyLe(s[k], s[j]);
  }

  /** No stop word is ever reported. */
  lemma AnalyticsNoStopWords(raw: seq<RawPost>, stop: set<Word>, reqs: seq<Request>, i: int, k: int)
    requires 0 <= i < |reqs|
    requires 0 <= k < |Analytics(raw, stop, reqs)[i].top|
    ensures Analytics(raw, stop, reqs)[i].top[k].word !in stop
  {
    var qs := Filter(raw, stop);
    var rq := reqs[i];
    AnswerScores(qs, rq.from, rq.to, rq.amount);
    var w := Analytics(raw, stop, reqs)[i].top[k].word;
    var j :| 0 <= j < |qs| && InRange(qs[j], rq.from, rq.to) && w in qs[j].words;
  }
}
