/**
  `BinaryStoragePolicy`: the big-endian index file layout

    >i   number of terms
    then per term:
    >H   byte length L of the UTF-8 encoded term
    L    the term's UTF-8 octets
    >H   number of ids C
    >CH  the ids

  modelled on octet sequences instead of files.
*/
module BinaryStorage {
  import opened Bytes
  import opened Wrappers
  import opened Seqs
  import Utf8
  import opened InvertedIndex

  /** One `(term, ids)` item as written: the ids in the order the set yields them. */
  datatype Posting = Posting(term: Term, ids: seq<DocId>)

  /** Python's `struct.error` when a value does not fit its field. */
  datatype EncodeError = TooManyTerms | TermTooLong(term: Term) | TooManyIds(term: Term) | IdOutOfRange(term: Term)

  /** `struct.error` on a short read, or `UnicodeDecodeError` on a malformed term. */
  datatype DecodeError = Truncated | InvalidUtf8

  /**
    `entries` is `ix.items()` in some iteration order: each term once, each posting set
    listed once without repetition, and nothing else.
  */
  predicate Enumerates(entries: seq<Posting>, ix: Index)
  {
    && (forall i, j :: 0 <= i < j < |entries| ==> entries[i].term != entries[j].term)
    && (forall i :: 0 <= i < |entries| ==>
          entries[i].term in ix && NoDup(entries[i].ids) && Elems(entries[i].ids) == ix[entries[i].term])
    && (forall w :: w in ix ==> exists i :: 0 <= i < |entries| && entries[i].term == w)
  }

  /** Every id fits a `>H` field. */
  predicate IdsFit(ids: seq<DocId>)
  {
    forall i :: 0 <= i < |ids| ==> 0 <= ids[i] <= MaxU16
  }

  /** Every field of `p` fits its fixed width. */
  predicate Fits(p: Posting)
  {
    |Utf8.Encode(p.term)| <= MaxU16 && |p.ids| <= MaxU16 && IdsFit(p.ids)
  }

  /** The octets of one term record whose fields fit: `>H` length, the term octets, `>H` count, `>CH` ids. */
  function Record(tb: seq<byte>, ids: seq<DocId>): seq<byte>
    requires |tb| <= MaxU16 && |ids| <= MaxU16 && IdsFit(ids)
  {
    BE16(|tb|) + tb + BE16(|ids|) + BE16s(ids)
  }

  /** The octets written for one term, or the first field that overflows. */
  function EncodePosting(p: Posting): (r: Result<seq<byte>, EncodeError>)
    ensures r.Ok? <==> Fits(p)
  {
    var tb := Utf8.Encode(p.term);
    if |tb| > MaxU16 then Err(TermTooLong(p.term))
    else if |p.ids| > MaxU16 then Err(TooManyIds(p.term))
    else if !IdsFit(p.ids) then Err(IdOutOfRange(p.term))
    else Ok(Record(tb, p.ids))
  }

  /** The octets written for the terms in order, or the first overflow met. */
  function EncodePostings(ps: seq<Posting>): (r: Result<seq<byte>, EncodeError>)
    decreases |ps|
  {
    if |ps| == 0 then Ok([])
    else
      var head :- EncodePosting(ps[0]);
      var tail :- EncodePostings(ps[1..]);
      Ok(head + tail)
  }

  /** `BinaryStoragePolicy.dump` of the items `entries`, as the octets of the file. */
  function Encode(entries: seq<Posting>): Result<seq<byte>, EncodeError>
  {
    if |entries| > MaxI32 then Err(TooManyTerms)
    else
      var body :- EncodePostings(entries);
      Ok(BE32(|entries|) + body)
  }

  /** Reads one term record: the term, its ids in stored order, and the octets after it. */
  function ReadPosting(s: seq<byte>): (r: Result<(Term, seq<DocId>, seq<byte>), DecodeError>)
  {
    if |s| < 2 then Err(Truncated)
    else
      var len := ReadU16(s[0], s[1]);
      if |s| < 2 + len then Err(Truncated)
      else
        match Utf8.Decode(s[2..2 + len])
        case None => Err(InvalidUtf8)
        case Some(term) =>
          var rest := s[2 + len..];
          if |rest| < 2 then Err(Truncated)
          else
            var count := ReadU16(rest[0], rest[1]);
            if |rest| < 2 + 2 * count then Err(Truncated)
            else Ok((term, ReadU16s(rest[2..2 + 2 * count]), rest[2 + 2 * count..]))
  }

  /** Reads `n` term records into `acc`; a term read twice keeps its last posting set. */
  function DecodePostings(s: seq<byte>, n: nat, acc: Index): Result<Index, DecodeError>
    decreases n
  {
    if n == 0 then Ok(acc)
    else
      var (term, ids, rest) :- ReadPosting(s);
      DecodePostings(rest, n - 1, acc[term := Elems(ids)])
  }

  /**
    `BinaryStoragePolicy.load` of the file's octets. A negative count reads no terms,
    as `range` of a negative number is empty; octets after the last term are not read.
  */
  function Decode(s: seq<byte>): Result<Index, DecodeError>
  {
    if |s| < 4 then Err(Truncated)
    else
      var n := ReadI32(s[..4]);
      DecodePostings(s[4..], if n < 0 then 0 else n, map[])
  }

  /** A term record reads back field by field: its length, its octets, its id count and its ids. */
  lemma RecordLayout(tb: seq<byte>, ids: seq<DocId>)
    requires |tb| <= MaxU16 && |ids| <= MaxU16 && IdsFit(ids)
    ensures var e := Record(tb, ids); var L := |tb|;
      && |e| == 4 + L + 2 * |ids|
      && ReadU16(e[0], e[1]) == L
      && e[2..2 + L] == tb
      && ReadU16(e[2 + L], e[3 + L]) == |ids|
      && ReadU16s(e[4 + L..]) == ids
  {
    var L := |tb|;
    var e := Record(tb, ids);
    var h := BE16(L);
    var c := BE16(|ids|);
    assert e == h + tb + c + BE16s(ids);
    assert e[0] == h[0] && e[1] == h[1];
    assert e[2..2 + L] == tb;
    assert e[2 + L] == c[0] && e[3 + L] == c[1];
    assert e[4 + L..] == BE16s(ids);
    ReadU16sBE16s(ids);
  }

  /** Reading a written term record gives back the term and its ids in order, and stops exactly at its end. */
  lemma ReadPostingEncoded(p: Posting, rest: seq<byte>)
    requires Fits(p)
    ensures ReadPosting(EncodePosting(p).value + rest) == Ok((p.term, p.ids, rest))
  {
    var tb := Utf8.Encode(p.term);
    var L := |tb|;
    var m := |p.ids|;
    var e := EncodePosting(p).value;
    RecordLayout(tb, p.ids);
    var s := e + rest;
    assert ReadU16(s[0], s[1]) == L by { assert s[0] == e[0] && s[1] == e[1]; }
    assert s[2..2 + L] == e[2..2 + L];
    assert Utf8.Decode(s[2..2 + L]) == Some(p.term) by { Utf8.DecodeEncode(p.term); }
    var r := s[2 + L..];
    assert r == e[2 + L..] + rest;
    assert ReadU16(r[0], r[1]) == m by { assert r[0] == e[2 + L] && r[1] == e[3 + L]; }
    assert r[2..2 + 2 * m] == e[4 + L..];
    assert r[2 + 2 * m..] == rest;
  }

  /** Any proper prefix of a term record fails to read as a short read. */
  lemma ReadPostingTruncated(p: Posting, k: nat)
    requires Fits(p)
    requires k < |EncodePosting(p).value|
    ensures ReadPosting(EncodePosting(p).value[..k]) == Err(Truncated)
  {
    var tb := Utf8.Encode(p.term);
    var L := |tb|;
    var m := |p.ids|;
    var e := EncodePosting(p).value;
    RecordLayout(tb, p.ids);
    var s := e[..k];
    if k >= 2 {
      assert ReadU16(s[0], s[1]) == L by { assert s[0] == e[0] && s[1] == e[1]; }
      if k >= 2 + L {
        assert s[2..2 + L] == e[2..2 + L];
        assert Utf8.Decode(s[2..2 + L]) == Some(p.term) by { Utf8.DecodeEncode(p.term); }
        var r := s[2 + L..];
        assert |r| == k - 2 - L < 2 + 2 * m;
        if |r| >= 2 {
          assert ReadU16(r[0], r[1]) == m by { assert r[0] == e[2 + L] && r[1] == e[3 + L]; }
        }
      }
    }
  }

  /** The octets one term record takes: two length fields, the term and two octets per id. */
  function RecordSize(p: Posting): nat
  {
    4 + |Utf8.Encode(p.term)| + 2 * |p.ids|
  }

  /** The octets all term records take. */
  function TotalSize(ps: seq<Posting>): nat
    decreases |ps|
  {
    if |ps| == 0 then 0 else RecordSize(ps[0]) + TotalSize(ps[1..])
  }

  /** Writing term records succeeds iff every field of every record fits, and then takes `TotalSize` octets. */
  lemma {:induction false} EncodePostingsSpec(ps: seq<Posting>)
    ensures EncodePostings(ps).Ok? <==> forall i :: 0 <= i < |ps| ==> Fits(ps[i])
    ensures EncodePostings(ps).Ok? ==> |EncodePostings(ps).value| == TotalSize(ps)
    decreases |ps|
  {
    if |ps| > 0 {
      EncodePostingsSpec(ps[1..]);
      if Fits(ps[0]) {
        RecordLayout(Utf8.Encode(ps[0].term), ps[0].ids);
      }
      assert forall i :: 1 <= i < |ps| ==> ps[i] == ps[1..][i - 1];
    }
  }

  /** The map that reading the records `ps` into `acc` builds: later records overwrite earlier ones. */
  function InsertAll(acc: Index, ps: seq<Posting>): Index
    decreases |ps|
  {
    if |ps| == 0 then acc else InsertAll(acc[ps[0].term := Elems(ps[0].ids)], ps[1..])
  }

  /** The records of `ps`, each written on its own, followed by `rest`. */
  function Chain(ps: seq<Posting>, rest: seq<byte>): seq<byte>
    requires forall i :: 0 <= i < |ps| ==> Fits(ps[i])
    decreases |ps|
  {
    if |ps| == 0 then rest
    else EncodePosting(ps[0]).value + Chain(ps[1..], rest)
  }

  /** A successful write followed by `rest` is that chain of records. */
  lemma {:induction false} EncodePostingsChain(ps: seq<Posting>, rest: seq<byte>)
    requires forall i :: 0 <= i < |ps| ==> Fits(ps[i])
    ensures EncodePostings(ps).Ok?
    ensures EncodePostings(ps).value + rest == Chain(ps, rest)
    decreases |ps|
  {
    if |ps| > 0 {
      EncodePostingsChain(ps[1..], rest);
      var head := EncodePosting(ps[0]).value;
      var tail := EncodePostings(ps[1..]).value;
      assert EncodePostings(ps).value == head + tail;
      AppendAssoc(head, tail, rest);
    }
  }

  /** Reading a chain of records inserts exactly those records. */
  lemma {:induction false} DecodeChain(ps: seq<Posting>, rest: seq<byte>, acc: Index)
    requires forall i :: 0 <= i < |ps| ==> Fits(ps[i])
    ensures DecodePostings(Chain(ps, rest), |ps|, acc) == Ok(InsertAll(acc, ps))
    decreases |ps|
  {
    if |ps| > 0 {
      var acc' := acc[ps[0].term := Elems(ps[0].ids)];
      DecodeChain(ps[1..], rest, acc');
      DecodeStep(ps[0], Chain(ps[1..], rest), |ps|, acc);
    }
  }

  /** Reading written records, followed by anything, inserts exactly those records. */
  lemma DecodePostingsEncoded(ps: seq<Posting>, rest: seq<byte>, acc: Index)
    requires EncodePostings(ps).Ok?
    ensures DecodePostings(EncodePostings(ps).value + rest, |ps|, acc) == Ok(InsertAll(acc, ps))
  {
    EncodePostingsSpec(ps);
    EncodePostingsChain(ps, rest);
    DecodeChain(ps, rest, acc);
  }

  /** Reading one more record than the written one consumes it and continues after it. */
  lemma DecodeStep(p: Posting, more: seq<byte>, n: nat, acc: Index)
    requires Fits(p) && n > 0
    ensures DecodePostings(EncodePosting(p).value + more, n, acc) == DecodePostings(more, n - 1, acc[p.term := Elems(p.ids)])
  {
    ReadPostingEncoded(p, more);
  }

  /** Any proper prefix of written records fails to read as a short read. */
  lemma {:induction false} DecodePostingsTruncated(ps: seq<Posting>, k: nat, acc: Index)
    requires EncodePostings(ps).Ok? && k < |EncodePostings(ps).value|
    ensures DecodePostings(EncodePostings(ps).value[..k], |ps|, acc) == Err(Truncated)
    decreases |ps|
  {
    assert |ps| > 0;
    var head := EncodePosting(ps[0]).value;
    var tail := EncodePostings(ps[1..]).value;
    var b := EncodePostings(ps).value;
    assert b == head + tail;
    if k < |head| {
      assert b[..k] == head[..k];
      ReadPostingTruncated(ps[0], k);
      assert ReadPosting(b[..k]).Err?;
    } else {
      var t := tail[..k - |head|];
      assert b[..k] == head + t;
      ReadPostingEncoded(ps[0], t);
      var acc' := acc[ps[0].term := Elems(ps[0].ids)];
      assert DecodePostings(b[..k], |ps|, acc) == DecodePostings(t, |ps[1..]|, acc');
      DecodePostingsTruncated(ps[1..], k - |head|, acc');
    }
  }

  /** Inserting records with distinct terms keeps the old keys and adds each record's term with its id set. */
  lemma {:induction false} InsertAllSpec(acc: Index, ps: seq<Posting>)
    requires forall i, j :: 0 <= i < j < |ps| ==> ps[i].term != ps[j].term
    ensures forall i :: 0 <= i < |ps| ==> ps[i].term in InsertAll(acc, ps) && InsertAll(acc, ps)[ps[i].term] == Elems(ps[i].ids)
    ensures forall w :: w in InsertAll(acc, ps) ==> w in acc || exists i :: 0 <= i < |ps| && ps[i].term == w
    ensures forall w :: w in acc && (forall i :: 0 <= i < |ps| ==> ps[i].term != w) ==>
      w in InsertAll(acc, ps) && InsertAll(acc, ps)[w] == acc[w]
    decreases |ps|
  {
    if |ps| > 0 {
      var acc' := acc[ps[0].term := Elems(ps[0].ids)];
      InsertAllSpec(acc', ps[1..]);
      var r := InsertAll(acc, ps);
      assert r == InsertAll(acc', ps[1..]);
      forall i | 0 <= i < |ps| ensures ps[i].term in r && r[ps[i].term] == Elems(ps[i].ids) {
        if i == 0 {
          forall j | 0 <= j < |ps[1..]| ensures ps[1..][j].term != ps[0].term {
            assert ps[1..][j] == ps[j + 1];
          }
        } else {
          assert ps[i] == ps[1..][i - 1];
        }
      }
      forall w | w in acc && (forall i :: 0 <= i < |ps| ==> ps[i].term != w) ensures w in r && r[w] == acc[w] {
        forall j | 0 <= j < |ps[1..]| ensures ps[1..][j].term != w {
          assert ps[1..][j] == ps[j + 1];
        }
      }
      forall w | w in r ensures w in acc || exists i :: 0 <= i < |ps| && ps[i].term == w {
        if w !in acc && w != ps[0].term {
          var i :| 0 <= i < |ps[1..]| && ps[1..][i].term == w;
          assert ps[i + 1].term == w;
        }
      }
    }
  }

  /** Reading back the records of an enumeration of `ix` into an empty map rebuilds `ix`. */
  lemma InsertAllEnumeration(ps: seq<Posting>, ix: Index)
    requires Enumerates(ps, ix)
    ensures InsertAll(map[], ps) == ix
  {
    InsertAllSpec(map[], ps);
    var r := InsertAll(map[], ps);
    forall w | w in ix ensures w in r && r[w] == ix[w] {
      var i :| 0 <= i < |ps| && ps[i].term == w;
    }
  }

  /** An enumeration lists as many records as the index has terms, and as many ids as each posting set holds. */
  lemma EnumerationSizes(ps: seq<Posting>, ix: Index)
    requires Enumerates(ps, ix)
    ensures |ps| == |ix|
    ensures forall i :: 0 <= i < |ps| ==> |ps[i].ids| == |ix[ps[i].term]|
  {
    var terms := seq(|ps|, i requires 0 <= i < |ps| => ps[i].term);
    assert Elems(terms) == ix.Keys by {
      forall w | w in ix ensures w in Elems(terms) {
        var i :| 0 <= i < |ps| && ps[i].term == w;
        assert terms[i] == w;
      }
    }
    NoDupCard(terms);
    forall i | 0 <= i < |ps| ensures |ps[i].ids| == |ix[ps[i].term]| {
      NoDupCard(ps[i].ids);
    }
  }

  /** Every field the index needs fits its fixed width: at most 2^31-1 terms, and per term at most 65535 octets, at most 65535 ids, each in 0..65535. */
  predicate IndexFits(ix: Index)
  {
    && |ix| <= MaxI32
    && forall w :: w in ix ==>
         && |Utf8.Encode(w)| <= MaxU16
         && |ix[w]| <= MaxU16
         && forall d :: d in ix[w] ==> 0 <= d <= MaxU16
  }

  /** Dumping fails, rather than truncating a field, exactly when some field of the index does not fit; the iteration order is irrelevant. */
  lemma EncodeSucceedsIff(entries: seq<Posting>, ix: Index)
    requires Enumerates(entries, ix)
    ensures Encode(entries).Ok? <==> IndexFits(ix)
  {
    EnumerationSizes(entries, ix);
    EncodePostingsSpec(entries);
    if Encode(entries).Ok? {
      EncodableFits(entries, ix);
    }
    if IndexFits(ix) {
      FitsEncodable(entries, ix);
    }
  }

  /** When every record of an enumeration fits, so does every term and id of the index. */
  lemma EncodableFits(entries: seq<Posting>, ix: Index)
    requires Enumerates(entries, ix) && |ix| <= MaxI32
    requires forall i :: 0 <= i < |entries| ==> Fits(entries[i])
    ensures IndexFits(ix)
  {
    forall w | w in ix
      ensures |Utf8.Encode(w)| <= MaxU16 && |ix[w]| <= MaxU16 && forall d :: d in ix[w] ==> 0 <= d <= MaxU16
    {
      var i :| 0 <= i < |entries| && entries[i].term == w;
      assert Fits(entries[i]);
      NoDupCard(entries[i].ids);
      forall d | d in ix[w] ensures 0 <= d <= MaxU16 {
        assert d in Elems(entries[i].ids);
      }
    }
  }

  /** When the index fits, every record of an enumeration of it fits. */
  lemma FitsEncodable(entries: seq<Posting>, ix: Index)
    requires Enumerates(entries, ix) && IndexFits(ix)
    ensures forall i :: 0 <= i < |entries| ==> Fits(entries[i])
  {
    forall i | 0 <= i < |entries| ensures Fits(entries[i]) {
      var p := entries[i];
      NoDupCard(p.ids);
      forall j | 0 <= j < |p.ids| ensures 0 <= p.ids[j] <= MaxU16 {
        assert p.ids[j] in Elems(p.ids);
      }
    }
  }

  /** A successful write is the `>i` count followed by the term records. */
  lemma EncodeOk(entries: seq<Posting>)
    requires Encode(entries).Ok?
    ensures |entries| <= MaxI32 && EncodePostings(entries).Ok?
    ensures Encode(entries).value == BE32(|entries|) + EncodePostings(entries).value
  {
  }

  /** Reading a file that starts with a non-negative count reads that many records from the octets after it. */
  lemma DecodeHeader(n: nat, rest: seq<byte>)
    requires n <= MaxI32
    ensures Decode(BE32(n) + rest) == DecodePostings(rest, n, map[])
  {
    var s := BE32(n) + rest;
    assert s[..4] == BE32(n);
    assert s[4..] == rest;
  }

  /** A dump is the `>i` term count followed by the term records: 4 + sum of (4 + L + 2C) octets. */
  lemma EncodeLayout(entries: seq<Posting>)
    requires Encode(entries).Ok?
    ensures |Encode(entries).value| == 4 + TotalSize(entries)
    ensures ReadI32(Encode(entries).value[..4]) == |entries|
  {
    EncodeOk(entries);
    EncodePostingsSpec(entries);
    var b := Encode(entries).value;
    assert b[..4] == BE32(|entries|);
  }

  /** Loading a dump, whatever follows it, inserts its records in order into an empty map. */
  lemma DecodeEncoded(entries: seq<Posting>, trailing: seq<byte>)
    requires Encode(entries).Ok?
    ensures Decode(Encode(entries).value + trailing) == Ok(InsertAll(map[], entries))
  {
    var n := |entries|;
    EncodeOk(entries);
    var body := EncodePostings(entries).value;
    var s := Encode(entries).value + trailing;
    assert Decode(s) == DecodePostings(body + trailing, n, map[]) by {
      AppendAssoc(BE32(n), body, trailing);
      DecodeHeader(n, body + trailing);
    }
    DecodePostingsEncoded(entries, trailing, map[]);
  }

  /** An index whose fields all fit is dumped without error, and loading the dump, whatever follows it, gives that index back. */
  lemma RoundTrip(entries: seq<Posting>, ix: Index, trailing: seq<byte>)
    requires Enumerates(entries, ix) && IndexFits(ix)
    ensures Encode(entries).Ok?
    ensures Decode(Encode(entries).value + trailing) == Ok(ix)
  {
    EncodeSucceedsIff(entries, ix);
    DecodeEncoded(entries, trailing);
    InsertAllEnumeration(entries, ix);
  }

  /** Loading any proper prefix of a dump fails with a short read. */
  lemma DecodeTruncated(entries: seq<Posting>, k: nat)
    requires Encode(entries).Ok?
    requires k < |Encode(entries).value|
    ensures Decode(Encode(entries).value[..k]) == Err(Truncated)
  {
    var n := |entries|;
    EncodeOk(entries);
    var b := Encode(entries).value;
    var body := EncodePostings(entries).value;
    if k >= 4 {
      assert b[..k] == BE32(n) + body[..k - 4];
      DecodeHeader(n, body[..k - 4]);
      DecodePostingsTruncated(entries, k - 4, map[]);
    }
  }

  /** A stored term count with its top bit set reads as negative, and the loop over it reads no terms. */
  lemma DecodeNegativeCount(s: seq<byte>)
    requires |s| >= 4 && s[0] >= 0x80
    ensures Decode(s) == Ok(map[])
  {
    assert s[..4][0] == s[0];
  }

  /** Fewer than four octets cannot hold the term count. */
  lemma DecodeShort(s: seq<byte>)
    requires |s| < 4
    ensures Decode(s) == Err(Truncated)
  {
  }
}
