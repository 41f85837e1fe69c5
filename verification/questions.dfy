/**
  The record filter of the Stack Overflow analytics tool: which parsed posts become
  scored questions, and with which title words.
*/
module Questions {
  import opened Wrappers
  import opened WordOrder

  /**
    One post as extracted from its XML row: each attribute may be missing. `title` holds
    the title's `\w+` tokens, already lower-cased.
  */
  datatype RawPost = RawPost(postType: Option<int>, score: Option<int>, year: Option<int>, title: Option<seq<Word>>)

  /** A kept question: its creation year, its score and its title words without stop words. */
  datatype Question = Question(year: int, score: int, words: seq<Word>)

  /** The title words that are not stop words, in their original order and multiplicity. */
  function RemoveStopWords(ws: seq<Word>, stop: set<Word>): (r: seq<Word>)
    ensures forall w :: multiset(r)[w] == if w in stop then 0 else multiset(ws)[w]
    decreases |ws|
  {
    if |ws| == 0 then []
    else
      assert ws == [ws[0]] + ws[1..];
      if ws[0] in stop then RemoveStopWords(ws[1..], stop)
      else [ws[0]] + RemoveStopWords(ws[1..], stop)
  }

  /**
    The question a post yields, if any: a missing attribute skips the post (the
    `IndexError` branch), as do a post type other than 1 and a title without tokens.
  */
  function Extract(p: RawPost, stop: set<Word>): Option<Question>
  {
    match p.postType
    case None => None
    case Some(t) =>
      if t != 1 then None
      else if p.score.None? || p.year.None? || p.title.None? then None
      else if |p.title.value| == 0 then None
      else Some(Question(p.year.value, p.score.value, RemoveStopWords(p.title.value, stop)))
  }

  /** The questions of a post sequence, in order. */
  function Filter(raw: seq<RawPost>, stop: set<Word>): (qs: seq<Question>)
    ensures |qs| <= |raw|
    ensures forall i, w :: 0 <= i < |qs| && w in qs[i].words ==> w !in stop
    decreases |raw|
  {
    if |raw| == 0 then []
    else
      match Extract(raw[0], stop)
      case None => Filter(raw[1..], stop)
      case Some(q) =>
        assert forall w :: w in q.words ==> multiset(q.words)[w] > 0;
        [q] + Filter(raw[1..], stop)
  }

  /** A post is kept iff it is a question (type 1) with every attribute present and a title of at least one token. */
  lemma ExtractKeeps(p: RawPost, stop: set<Word>)
    ensures Extract(p, stop).Some? <==>
      p.postType == Some(1) && p.score.Some? && p.year.Some? && p.title.Some? && |p.title.value| > 0
    ensures Extract(p, stop).Some? ==>
      && Extract(p, stop).value.year == p.year.value
      && Extract(p, stop).value.score == p.score.value
      && forall w :: w in Extract(p, stop).value.words <==> w in p.title.value && w !in stop
  {
    if Extract(p, stop).Some? {
      var ws := Extract(p, stop).value.words;
      forall w ensures w in ws <==> w in p.title.value && w !in stop {
        assert w in ws <==> multiset(ws)[w] > 0;
        assert w in p.title.value <==> multiset(p.title.value)[w] > 0;
      }
    }
  }

  /** A title made only of stop words is still kept, with no words. */
  lemma StopWordTitleKept(p: RawPost, stop: set<Word>)
    requires p.postType == Some(1) && p.score.Some? && p.year.Some? && p.title.Some? && |p.title.value| > 0
    requires forall i :: 0 <= i < |p.title.value| ==> p.title.value[i] in stop
    ensures Extract(p, stop) == Some(Question(p.year.value, p.score.value, []))
  {
    var r := RemoveStopWords(p.title.value, stop);
    assert multiset(r) == multiset{};
  }

  /** A question is in the result iff some post yields it. */
  lemma {:induction false} FilterIsKeptPosts(raw: seq<RawPost>, stop: set<Word>, q: Question)
    ensures q in Filter(raw, stop) <==> exists i :: 0 <= i < |raw| && Extract(raw[i], stop) == Some(q)
    decreases |raw|
  {
    if |raw| > 0 {
      FilterIsKeptPosts(raw[1..], stop, q);
      if exists i :: 0 <= i < |raw[1..]| && Extract(raw[1..][i], stop) == Some(q) {
        var i :| 0 <= i < |raw[1..]| && Extract(raw[1..][i], stop) == Some(q);
        assert raw[i + 1] == raw[1..][i];
      }
      if exists i :: 0 <= i < |raw| && Extract(raw[i], stop) == Some(q) {
        var i :| 0 <= i < |raw| && Extract(raw[i], stop) == Some(q);
        if i > 0 {
          assert raw[1..][i - 1] == raw[i];
        }
      }
    }
  }

  /** The questions of two runs of posts are those of the first run followed by those of the second. */
  lemma {:induction false} FilterAppend(a: seq<RawPost>, b: seq<RawPost>, stop: set<Word>)
    ensures Filter(a + b, stop) == Filter(a, stop) + Filter(b, stop)
    decreases |a|
  {
    if |a| == 0 {
      assert a + b == b;
    } else {
      assert (a + b)[0] == a[0];
      assert (a + b)[1..] == a[1..] + b;
      FilterAppend(a[1..], b, stop);
    }
  }

  /** One post yields its own question, or nothing. */
  lemma FilterSingle(p: RawPost, stop: set<Word>)
    ensures Filter([p], stop) == if Extract(p, stop).Some? then [Extract(p, stop).value] else []
  {
    assert [p][1..] == [];
  }

  /**
    Each question occurs in the result as many times as posts yield it: two equal posts
    give two equal questions, each scored on its own.
  */
  lemma {:induction false} FilterCount(raw: seq<RawPost>, stop: set<Word>, q: Question)
    ensures multiset(Filter(raw, stop))[q] == multiset(seq(|raw|, i requires 0 <= i < |raw| => Extract(raw[i], stop)))[Some(q)]
    decreases |raw|
  {
    var xs := seq(|raw|, i requires 0 <= i < |raw| => Extract(raw[i], stop));
    if |raw| > 0 {
      var ys := seq(|raw[1..]|, i requires 0 <= i < |raw[1..]| => Extract(raw[1..][i], stop));
      assert xs == [Extract(raw[0], stop)] + ys;
      FilterCount(raw[1..], stop, q);
    } else {
      assert xs == [];
    }
  }
}
