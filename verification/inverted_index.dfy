/**
  The inverted index: a map from each whitespace-delimited term to the set of ids of
  the documents whose text contains it, and the conjunctive query over it.
*/
module InvertedIndex {
  import opened Tokenizer
  import opened Seqs

  type DocId = int
  type Term = string
  type Index = map<Term, set<DocId>>

  /** One `(int(idx), text)` item of the loaded document dictionary. */
  datatype Document = Document(id: DocId, text: string)

  /** The posting set of `w`, empty when `w` is not a key (the `defaultdict(set)` default). */
  function Postings(ix: Index, w: Term): set<DocId>
  {
    if w in ix then ix[w] else {}
  }

  /** Adds `d` to the posting set of `w`, creating the set when `w` is new. */
  function AddTerm(ix: Index, w: Term, d: DocId): Index
  {
    ix[w := Postings(ix, w) + {d}]
  }

  /** Adds `d` to the posting set of every term of `ws`, left to right. */
  function AddTerms(ix: Index, d: DocId, ws: seq<Term>): (r: Index)
    ensures r.Keys == ix.Keys + Elems(ws)
    ensures forall w, x :: x in Postings(r, w) <==> x in Postings(ix, w) || (x == d && w in ws)
    decreases |ws|
  {
    if |ws| == 0 then ix else AddTerms(AddTerm(ix, ws[0], d), d, ws[1..])
  }

  /** Folds the documents, in the given order, into `ix`. */
  function BuildFrom(ix: Index, docs: seq<Document>): Index
    decreases |docs|
  {
    if |docs| == 0 then ix
    else BuildFrom(AddTerms(ix, docs[0].id, Split(docs[0].text)), docs[1..])
  }

  /** `build_inverted_index`: the index of a document collection. */
  function Build(docs: seq<Document>): Index
  {
    BuildFrom(map[], docs)
  }

  /** Some document with id `d` has `w` among its terms. */
  ghost predicate Occurs(docs: seq<Document>, w: Term, d: DocId)
  {
    exists k :: 0 <= k < |docs| && docs[k].id == d && w in Split(docs[k].text)
  }

  /** Some document has `w` among its terms. */
  ghost predicate Mentioned(docs: seq<Document>, w: Term)
  {
    exists k :: 0 <= k < |docs| && w in Split(docs[k].text)
  }

  lemma OccursCons(docs: seq<Document>, w: Term, d: DocId)
    requires |docs| > 0
    ensures Occurs(docs, w, d) <==> (docs[0].id == d && w in Split(docs[0].text)) || Occurs(docs[1..], w, d)
    ensures Mentioned(docs, w) <==> w in Split(docs[0].text) || Mentioned(docs[1..], w)
  {
    if Occurs(docs[1..], w, d) {
      var k :| 0 <= k < |docs[1..]| && docs[1..][k].id == d && w in Split(docs[1..][k].text);
      assert docs[k + 1] == docs[1..][k];
    }
    if Mentioned(docs[1..], w) {
      var k :| 0 <= k < |docs[1..]| && w in Split(docs[1..][k].text);
      assert docs[k + 1] == docs[1..][k];
    }
    if Occurs(docs, w, d) {
      var k :| 0 <= k < |docs| && docs[k].id == d && w in Split(docs[k].text);
      if k > 0 {
        assert docs[1..][k - 1] == docs[k];
      }
    }
    if Mentioned(docs, w) {
      var k :| 0 <= k < |docs| && w in Split(docs[k].text);
      if k > 0 {
        assert docs[1..][k - 1] == docs[k];
      }
    }
  }

  /** Folding documents into an index adds exactly their terms, each with the ids of the documents holding it. */
  lemma {:induction false} BuildFromSpec(ix: Index, docs: seq<Document>)
    ensures forall w :: w in BuildFrom(ix, docs) <==> w in ix || Mentioned(docs, w)
    ensures forall w, d :: d in Postings(BuildFrom(ix, docs), w) <==> d in Postings(ix, w) || Occurs(docs, w, d)
    decreases |docs|
  {
    if |docs| > 0 {
      var ix' := AddTerms(ix, docs[0].id, Split(docs[0].text));
      BuildFromSpec(ix', docs[1..]);
      forall w, d
        ensures d in Postings(BuildFrom(ix, docs), w) <==> d in Postings(ix, w) || Occurs(docs, w, d)
        ensures w in BuildFrom(ix, docs) <==> w in ix || Mentioned(docs, w)
      {
        OccursCons(docs, w, d);
      }
      forall w ensures w in BuildFrom(ix, docs) <==> w in ix || Mentioned(docs, w) {
        OccursCons(docs, w, 0);
      }
    }
  }

  /** Build is correct both ways: `d` is in the posting set of `w` iff `w` is a term of a document with id `d`. */
  lemma BuildCorrect(docs: seq<Document>, w: Term, d: DocId)
    ensures (w in Build(docs) && d in Build(docs)[w]) <==> Occurs(docs, w, d)
    ensures w in Build(docs) <==> Mentioned(docs, w)
  {
    BuildFromSpec(map[], docs);
    assert d in Postings(Build(docs), w) <==> Occurs(docs, w, d);
  }

  /** The same, stated against the maximal whitespace-free runs of the texts rather than `Split`. */
  lemma BuildMatchesTerms(docs: seq<Document>, w: Term, d: DocId)
    ensures (w in Build(docs) && d in Build(docs)[w])
        <==> exists k :: 0 <= k < |docs| && docs[k].id == d && IsTermOf(docs[k].text, w)
  {
    BuildCorrect(docs, w, d);
    forall k | 0 <= k < |docs| {
      SplitIsTerms(docs[k].text, w);
    }
  }

  /** Every key of a built index has a non-empty posting set. */
  lemma BuildPostingsNonEmpty(docs: seq<Document>, w: Term)
    requires w in Build(docs)
    ensures Build(docs)[w] != {}
  {
    BuildCorrect(docs, w, 0);
    var k :| 0 <= k < |docs| && w in Split(docs[k].text);
    BuildCorrect(docs, w, docs[k].id);
  }

  /** Document order, and listing a document twice, do not change the index. */
  lemma BuildOrderIrrelevant(docs1: seq<Document>, docs2: seq<Document>)
    requires Elems(docs1) == Elems(docs2)
    ensures Build(docs1) == Build(docs2)
  {
    var a, b := Build(docs1), Build(docs2);
    forall w ensures w in a <==> w in b {
      BuildCorrect(docs1, w, 0);
      BuildCorrect(docs2, w, 0);
      if Mentioned(docs1, w) {
        var k :| 0 <= k < |docs1| && w in Split(docs1[k].text);
        assert docs1[k] in Elems(docs2);
      }
      if Mentioned(docs2, w) {
        var k :| 0 <= k < |docs2| && w in Split(docs2[k].text);
        assert docs2[k] in Elems(docs1);
      }
    }
    forall w | w in a ensures a[w] == b[w] {
      forall d ensures d in a[w] <==> d in b[w] {
        BuildCorrect(docs1, w, d);
        BuildCorrect(docs2, w, d);
        if Occurs(docs1, w, d) {
          var k :| 0 <= k < |docs1| && docs1[k].id == d && w in Split(docs1[k].text);
          assert docs1[k] in Elems(docs2);
        }
        if Occurs(docs2, w, d) {
          var k :| 0 <= k < |docs2| && docs2[k].id == d && w in Split(docs2[k].text);
          assert docs2[k] in Elems(docs1);
        }
      }
    }
  }

  /** A document whose text is empty or all whitespace adds no key and no id. */
  lemma BuildBlankDocument(docs: seq<Document>, d: DocId, text: string)
    requires forall i :: 0 <= i < |text| ==> IsSpace(text[i])
    ensures Build(docs + [Document(d, text)]) == Build(docs)
  {
    SplitEmpty(text);
    var docs' := docs + [Document(d, text)];
    var a, b := Build(docs'), Build(docs);
    forall w ensures w in a <==> w in b {
      BuildCorrect(docs', w, 0);
      BuildCorrect(docs, w, 0);
      if Mentioned(docs, w) {
        var k :| 0 <= k < |docs| && w in Split(docs[k].text);
        assert docs'[k] == docs[k];
      }
    }
    forall w | w in a ensures a[w] == b[w] {
      forall x ensures x in a[w] <==> x in b[w] {
        BuildCorrect(docs', w, x);
        BuildCorrect(docs, w, x);
        if Occurs(docs, w, x) {
          var k :| 0 <= k < |docs| && docs[k].id == x && w in Split(docs[k].text);
          assert docs'[k] == docs[k];
        }
      }
    }
  }

  /** A term repeated within one document contributes that document's id once: only the set of its terms matters. */
  lemma AddTermsIgnoresRepeats(ix: Index, d: DocId, ws1: seq<Term>, ws2: seq<Term>)
    requires Elems(ws1) == Elems(ws2)
    ensures AddTerms(ix, d, ws1) == AddTerms(ix, d, ws2)
  {
    var a, b := AddTerms(ix, d, ws1), AddTerms(ix, d, ws2);
    forall w | w in a ensures a[w] == b[w] {
      assert a[w] == Postings(a, w) && b[w] == Postings(b, w);
      assert w in ws1 <==> w in ws2 by {
        assert w in ws1 <==> w in Elems(ws1);
      }
    }
  }

  /** One step of the query loop: an empty accumulator is re-seeded from `p`, otherwise it is intersected with `p`. */
  function Step(acc: set<DocId>, p: set<DocId>): set<DocId>
  {
    if |acc| == 0 then acc + p else acc * p
  }

  /** The query loop over the distinct query terms, in the iteration order `order`. */
  function Fold(ix: Index, order: seq<Term>, acc: set<DocId>): set<DocId>
    requires Elems(order) <= ix.Keys
    decreases |order|
  {
    if |order| == 0 then acc else Fold(ix, order[1..], Step(acc, ix[order[0]]))
  }

  /**
    `InvertedIndex.query`. `order` stands for Python's iteration order of the set of
    distinct query terms that are keys: it lists that set once each.
  */
  function Query(ix: Index, words: seq<Term>, order: seq<Term>): set<DocId>
    requires NoDup(order) && Elems(order) == Elems(words) * ix.Keys
  {
    var ws := Elems(words);
    if |ws| != |ws * ix.Keys| then {} else Fold(ix, order, {})
  }

  /** The ids in the posting set of every query term: the intended answer of an AND query. */
  function Intersection(ix: Index, words: seq<Term>): set<DocId>
    requires |words| > 0 && Elems(words) <= ix.Keys
  {
    set d | d in ix[words[0]] && forall t :: t in words ==> d in ix[t]
  }

  /** An empty query matches nothing. */
  lemma QueryNoWords(ix: Index, words: seq<Term>, order: seq<Term>)
    requires NoDup(order) && Elems(order) == Elems(words) * ix.Keys
    requires |words| == 0
    ensures Query(ix, words, order) == {}
  {
  }

  /** If any query term is not a key, the answer is empty, never a partial intersection. */
  lemma QueryUnknownTerm(ix: Index, words: seq<Term>, order: seq<Term>, w: Term)
    requires NoDup(order) && Elems(order) == Elems(words) * ix.Keys
    requires w in words && w !in ix
    ensures Query(ix, words, order) == {}
  {
    var ws := Elems(words);
    var known := ws * ix.Keys;
    assert w in ws && w !in known;
    SubsetCard(known, ws - {w});
    assert |ws - {w}| == |ws| - 1;
  }

  /** While the accumulator keeps a common id, the loop computes the ids common to the accumulator and every remaining term. */
  lemma {:induction false} FoldKeepsCommon(ix: Index, order: seq<Term>, acc: set<DocId>, common: set<DocId>)
    requires Elems(order) <= ix.Keys
    requires common != {} && common <= acc
    requires forall t :: t in order ==> common <= ix[t]
    ensures Fold(ix, order, acc) == set d | d in acc && forall t :: t in order ==> d in ix[t]
    decreases |order|
  {
    if |order| == 0 {
    } else {
      var acc' := acc * ix[order[0]];
      assert Step(acc, ix[order[0]]) == acc';
      FoldKeepsCommon(ix, order[1..], acc', common);
      var lhs := set d | d in acc' && forall t :: t in order[1..] ==> d in ix[t];
      var rhs := set d | d in acc && forall t :: t in order ==> d in ix[t];
      forall d ensures d in lhs <==> d in rhs {
        assert forall t :: t in order <==> t == order[0] || t in order[1..];
      }
    }
  }

  /** Whatever the order, the answer lies within the posting set of the term processed last. */
  lemma {:induction false} FoldWithinLast(ix: Index, order: seq<Term>, acc: set<DocId>)
    requires Elems(order) <= ix.Keys && |order| > 0
    ensures Fold(ix, order, acc) <= ix[order[|order| - 1]]
    decreases |order|
  {
    if |order| > 1 {
      FoldWithinLast(ix, order[1..], Step(acc, ix[order[0]]));
      assert order[1..][|order[1..]| - 1] == order[|order| - 1];
    }
  }

  /** Every id of an answer lies in the posting set of the last term processed. */
  lemma QueryWithinLast(ix: Index, words: seq<Term>, order: seq<Term>)
    requires NoDup(order) && Elems(order) == Elems(words) * ix.Keys
    requires |order| > 0
    ensures order[|order| - 1] in ix
    ensures Query(ix, words, order) <= ix[order[|order| - 1]]
  {
    assert order[|order| - 1] in Elems(order);
    var ws := Elems(words);
    if |ws| == |ws * ix.Keys| {
      FoldWithinLast(ix, order, {});
    }
  }

  /** When the query terms do share a document, the answer is exactly the intersection of their posting sets. */
  lemma QueryIsIntersection(ix: Index, words: seq<Term>, order: seq<Term>)
    requires NoDup(order) && Elems(order) == Elems(words) * ix.Keys
    requires |words| > 0 && Elems(words) <= ix.Keys
    requires Intersection(ix, words) != {}
    ensures Query(ix, words, order) == Intersection(ix, words)
  {
    var ws := Elems(words);
    assert ws * ix.Keys == ws;
    var I := Intersection(ix, words);
    assert words[0] in Elems(order);
    var o0 := order[0];
    assert Fold(ix, order, {}) == Fold(ix, order[1..], ix[o0]);
    forall t | t in order[1..] ensures I <= ix[t] {
      assert t in Elems(order);
    }
    assert I <= ix[o0] by {
      assert o0 in Elems(order);
    }
    FoldKeepsCommon(ix, order[1..], ix[o0], I);
    var r := set d | d in ix[o0] && forall t :: t in order[1..] ==> d in ix[t];
    forall d ensures d in r <==> d in I {
      forall t ensures t in words <==> t in order {
        assert t in words <==> t in Elems(words);
        assert t in order <==> t in Elems(order);
      }
      assert forall t :: t in order <==> t == o0 || t in order[1..];
    }
  }

  /** A query with one distinct term returns exactly that term's posting set. */
  lemma QuerySingleTerm(ix: Index, words: seq<Term>, order: seq<Term>, w: Term)
    requires NoDup(order) && Elems(order) == Elems(words) * ix.Keys
    requires Elems(words) == {w} && w in ix
    ensures Query(ix, words, order) == ix[w]
  {
    NoDupCard(order);
    assert Elems(order) == {w};
    assert |order| == 1;
    assert order[0] in Elems(order);
    assert order == [w];
    assert Elems(words) * ix.Keys == Elems(words);
    assert Fold(ix, order, {}) == Fold(ix, [], ix[w]);
  }

  /** No document holds all of a, b and c when a:{1}, b:{2}, c:{2}. */
  lemma ReseedIntersectionEmpty()
    ensures Intersection(map["a" := {1}, "b" := {2}, "c" := {2}], ["a", "b", "c"]) == {}
  {
    var ix := map["a" := {1}, "b" := {2}, "c" := {2}];
    var words := ["a", "b", "c"];
    assert Elems(words) == {"a", "b", "c"};
    assert 1 !in Intersection(ix, words);
  }

  /** A query of three distinct known terms, visited in query order, is three loop steps. */
  lemma QueryThree(ix: Index, a: Term, b: Term, c: Term)
    requires a in ix && b in ix && c in ix
    requires a != b && b != c && a != c
    ensures NoDup([a, b, c]) && Elems([a, b, c]) == Elems([a, b, c]) * ix.Keys
    ensures Query(ix, [a, b, c], [a, b, c]) == Step(Step(Step({}, ix[a]), ix[b]), ix[c])
  {
    var s := [a, b, c];
    assert Elems(s) == {a, b, c} by {
      forall t ensures t in Elems(s) <==> t == a || t == b || t == c {
        assert t in Elems(s) <==> t in s;
      }
    }
    assert Elems(s) * ix.Keys == Elems(s);
    assert s[1..] == [b, c] && [b, c][1..] == [c] && [c][1..] == [];
    var acc1 := Step({}, ix[a]);
    var acc2 := Step(acc1, ix[b]);
    assert Fold(ix, s, {}) == Fold(ix, [b, c], acc1);
    assert Fold(ix, [b, c], acc1) == Fold(ix, [c], acc2);
    assert Fold(ix, [c], acc2) == Step(acc2, ix[c]);
  }

  /** Visiting a, b, c on a:{1}, b:{2}, c:{2}: {1}, then {}, then re-seeded to {2}. */
  lemma ReseedQueryResult()
    ensures Query(map["a" := {1}, "b" := {2}, "c" := {2}], ["a", "b", "c"], ["a", "b", "c"]) == {2}
  {
    var ix := map["a" := {1}, "b" := {2}, "c" := {2}];
    QueryThree(ix, "a", "b", "c");
    assert Step(Step(Step({}, {1}), {2}), {2}) == {2};
  }

  /**
    Three terms where the first two share no document: the empty accumulator is
    re-seeded from the third term's posting set, so the answer is not the (empty)
    intersection.
  */
  lemma QueryReseedCounterexample()
    ensures var ix := map["a" := {1}, "b" := {2}, "c" := {2}];
      && Intersection(ix, ["a", "b", "c"]) == {}
      && Query(ix, ["a", "b", "c"], ["a", "b", "c"]) == {2}
  {
    ReseedIntersectionEmpty();
    ReseedQueryResult();
  }

  /** On the same three terms, another iteration order of the term set gives another answer. */
  lemma QueryOrderCounterexample()
    ensures var ix := map["a" := {1}, "b" := {2}, "c" := {2}];
      Query(ix, ["a", "b", "c"], ["b", "c", "a"]) == {}
  {
    var ix := map["a" := {1}, "b" := {2}, "c" := {2}];
    var words := ["a", "b", "c"];
    assert Elems(words) == {"a", "b", "c"};
    assert Elems(["b", "c", "a"]) == Elems(words);
    assert Elems(words) * ix.Keys == Elems(words);
    assert Fold(ix, ["b", "c", "a"], {}) == Fold(ix, ["c", "a"], {2});
    assert Fold(ix, ["c", "a"], {2}) == Fold(ix, ["a"], {2});
    assert Fold(ix, ["a"], {2}) == {};
  }

  /** Intersects the accumulator with the posting set of each remaining term. */
  function AndFold(ix: Index, ws: seq<Term>, acc: set<DocId>): (r: set<DocId>)
    requires Elems(ws) <= ix.Keys
    ensures forall d :: d in r <==> d in acc && forall t :: t in ws ==> d in ix[t]
    decreases |ws|
  {
    if |ws| == 0 then acc
    else
      assert ws[0] in Elems(ws);
      AndFold(ix, ws[1..], acc * ix[ws[0]])
  }

  /** The conjunctive query as intended: seeded once from the first term, then only intersected. */
  function AndQuery(ix: Index, words: seq<Term>): (r: set<DocId>)
    ensures forall d :: d in r <==> |words| > 0 && forall t :: t in words ==> t in ix && d in ix[t]
  {
    if |words| == 0 then {}
    else if !(Elems(words) <= ix.Keys) then {}
    else
      assert forall t :: t in words <==> t == words[0] || t in words[1..];
      AndFold(ix, words[1..], ix[words[0]])
  }

  /** The source's query agrees with the intended one whenever the intended answer is non-empty or a term is unknown. */
  lemma QueryAgreesWithAndQuery(ix: Index, words: seq<Term>, order: seq<Term>)
    requires NoDup(order) && Elems(order) == Elems(words) * ix.Keys
    ensures AndQuery(ix, words) != {} ==> Query(ix, words, order) == AndQuery(ix, words)
    ensures !(Elems(words) <= ix.Keys) ==> Query(ix, words, order) == {} == AndQuery(ix, words)
  {
    if !(Elems(words) <= ix.Keys) {
      var w :| w in Elems(words) && w !in ix;
      QueryUnknownTerm(ix, words, order, w);
    } else if AndQuery(ix, words) != {} {
      assert |words| > 0;
      assert forall d :: d in AndQuery(ix, words) <==> d in Intersection(ix, words);
      QueryIsIntersection(ix, words, order);
    }
  }
}
