/** The posting store: the term-to-postings map, the insertion of one
    occurrence, and the ingestion of a sequence of files, as specification
    functions with the lemmas that say what an index built from scratch
    contains. The imperative counterparts live in BooleanModel. */
module Store {
  import opened Postings
  import opened Text

  type PostingMap = map<string, seq<Posting>>

  /** The postings of a term; an unknown term has none. */
  function Lookup(pl: PostingMap, term: string): (r: seq<Posting>)
    ensures term !in pl ==> r == []
  {
    if term in pl then pl[term] else []
  }

  /** The index of the first posting with the given id, if any. */
  function Find(list: seq<Posting>, id: nat): (r: Option<nat>)
    ensures r.Some? ==> r.value < |list| && list[r.value].id == id
    ensures r.None? <==> id !in Ids(list)
  {
    if list == [] then None
    else if list[0].id == id then Some(0)
    else match Find(list[1..], id) {
      case None => None
      case Some(m) => Some(m + 1)
    }
  }

  /** In an id-sorted list the posting with an id is the only one. */
  lemma {:induction false} FindSorted(list: seq<Posting>, m: nat)
    requires StrictlySorted(list) && m < |list|
    ensures Find(list, list[m].id) == Some(m)
  {
    if m > 0 {
      SortedTail(list);
      assert list[1..][m - 1] == list[m];
      FindSorted(list[1..], m - 1);
    }
  }

  /** Binary search by id over an id-sorted list. */
  method BinarySearch(list: seq<Posting>, id: nat) returns (r: Option<nat>)
    requires StrictlySorted(list)
    ensures r == Find(list, id)
  {
    var lo, hi := 0, |list|;
    while lo < hi
      invariant 0 <= lo <= hi <= |list|
      invariant forall m :: 0 <= m < lo ==> list[m].id < id
      invariant forall m :: hi <= m < |list| ==> list[m].id > id
    {
      var mid := lo + (hi - lo) / 2;
      if list[mid].id < id {
        lo := mid + 1;
      } else if list[mid].id > id {
        hi := mid;
      } else {
        FindSorted(list, mid);
        return Some(mid);
      }
    }
    forall p | p in list ensures p.id != id {
      var m :| 0 <= m < |list| && list[m] == p;
    }
    IdsMember(list);
    return None;
  }

  /** One posting list after inserting the occurrence record `doc`: a
      posting already present for the id gets `doc`'s positions appended;
      otherwise `doc` goes at the end of the list. */
  function InsertPosting(list: seq<Posting>, doc: Posting): seq<Posting> {
    match Find(list, doc.id) {
      case Some(idx) => list[idx := list[idx].(positions := list[idx].positions + doc.positions)]
      case None => list + [doc]
    }
  }

  /** The effect of inserting `doc` for `term` on the whole store; a new
      term starts from no postings, so it gets the one-posting list [doc]. */
  function InsertInto(pl: PostingMap, term: string, doc: Posting): PostingMap {
    pl[term := InsertPosting(Lookup(pl, term), doc)]
  }

  /** What an insert changes: only `term`'s list; that list gains `doc`'s
      id; a posting already there for the id keeps its place, name and
      summary and gets `doc`'s positions appended, every other posting is
      unchanged; a missing id is added at the end. */
  lemma InsertCases(pl: PostingMap, term: string, doc: Posting)
    ensures InsertInto(pl, term, doc).Keys == pl.Keys + {term}
    ensures forall t :: t in pl && t != term ==> InsertInto(pl, term, doc)[t] == pl[t]
    ensures term !in pl ==> InsertInto(pl, term, doc)[term] == [doc]
    ensures Ids(InsertInto(pl, term, doc)[term]) == Ids(Lookup(pl, term)) + {doc.id}
    ensures doc.id !in Ids(Lookup(pl, term)) ==> InsertInto(pl, term, doc)[term] == Lookup(pl, term) + [doc]
    ensures doc.id in Ids(Lookup(pl, term)) ==>
              var old_ := Lookup(pl, term);
              var new_ := InsertInto(pl, term, doc)[term];
              && |new_| == |old_|
              && forall m :: 0 <= m < |old_| ==>
                   new_[m] == if Find(old_, doc.id) == Some(m)
                              then old_[m].(positions := old_[m].positions + doc.positions)
                              else old_[m]
  {
    var list := Lookup(pl, term);
    match Find(list, doc.id) {
      case Some(idx) =>
        IdsUpdate(list, idx, list[idx].(positions := list[idx].positions + doc.positions));
      case None =>
        IdsAppend(list, doc);
        assert [] + [doc] == [doc];
    }
  }

  lemma {:induction false} IdsAppend(list: seq<Posting>, doc: Posting)
    ensures Ids(list + [doc]) == Ids(list) + {doc.id}
  {
    if list == [] {
      assert [] + [doc] == [doc];
    } else {
      assert (list + [doc])[1..] == list[1..] + [doc];
      IdsAppend(list[1..], doc);
    }
  }

  lemma {:induction false} IdsUpdate(list: seq<Posting>, idx: nat, p: Posting)
    requires idx < |list| && p.id == list[idx].id
    ensures Ids(list[idx := p]) == Ids(list)
  {
    if idx > 0 {
      assert list[idx := p][1..] == list[1..][idx - 1 := p];
      IdsUpdate(list[1..], idx - 1, p);
    }
  }

  /** Inserting an id at least as large as every id of the term's id-sorted
      list keeps it id-sorted; this is what the indexer's increasing ids
      guarantee. */
  lemma InsertKeepsSorted(list: seq<Posting>, doc: Posting)
    requires StrictlySorted(list) && IdsBelow(list, doc.id + 1)
    ensures StrictlySorted(InsertPosting(list, doc))
    ensures IdsBelow(InsertPosting(list, doc), doc.id + 1)
  {
    var r := InsertPosting(list, doc);
    match Find(list, doc.id) {
      case None =>
        IdsMember(list);
        SnocSorted(list, doc);
        assert forall p :: p in r ==> p in list || p == doc;
      case Some(idx) =>
        assert forall m :: 0 <= m < |r| ==> r[m].id == list[m].id;
        forall p | p in r ensures p.id < doc.id + 1 {
          var m :| 0 <= m < |r| && r[m] == p;
          assert list[m] in list;
        }
    }
  }

  /** Appending a posting above every id keeps a list id-sorted. */
  lemma SnocSorted(list: seq<Posting>, doc: Posting)
    requires StrictlySorted(list) && forall p :: p in list ==> p.id < doc.id
    ensures StrictlySorted(list + [doc])
  {
    var r := list + [doc];
    forall i, j | 0 <= i < j < |r| ensures r[i].id < r[j].id {
      if j == |list| {
        assert r[i] in list;
      }
    }
  }

  /** A miss appends at the end rather than at the insertion point: a
      smaller id inserted after a larger one leaves the list out of order. */
  lemma InsertMissAppends(x: Posting, doc: Posting, term: string)
    requires doc.id < x.id
    ensures InsertInto(map[term := [x]], term, doc)[term] == [x, doc]
    ensures !StrictlySorted(InsertInto(map[term := [x]], term, doc)[term])
  {
    assert Find([x], doc.id) == None;
    assert [x] + [doc] == [x, doc];
    assert [x, doc][0].id > [x, doc][1].id;
  }

  // ------------------------------------------------------------ ingestion

  /** A file of the listing: its name and its contents, or None when it
      could not be read. */
  datatype SourceFile = SourceFile(name: string, contents: Option<string>)

  /** The normalised text of a file; an unreadable file counts as empty. */
  function FileText(f: SourceFile): (r: string)
    ensures f.contents.None? ==> r == []
    ensures f.contents.Some? ==> |r| == |f.contents.value|
    ensures forall c :: c in r ==> IsTermChar(c) || c == ' '
  {
    Normalize(if f.contents.Some? then f.contents.value else "")
  }

  /** The term stream of a file. */
  function FileTerms(f: SourceFile, stopwords: set<string>): seq<string> {
    Terms(FileText(f), stopwords)
  }

  const SummaryLength: nat := 50

  /** The first 50 characters of the normalised text. The source slices
      unconditionally, so a shorter text is only ever summarised when it
      yields no term (and then the summary is never built). */
  function Summary(text: string): (r: string)
    ensures |r| == if |text| >= SummaryLength then SummaryLength else |text|
    ensures r <= text
  {
    if |text| >= SummaryLength then text[..SummaryLength] else text
  }

  /** The source's summary slice does not panic on this file: its text is
      long enough, or it yields no term, so the slice is never evaluated. */
  predicate SummaryDefined(f: SourceFile, stopwords: set<string>) {
    |FileText(f)| >= SummaryLength || FileTerms(f, stopwords) == []
  }

  /** The names of the listed files, in listing order. */
  function FileNames(files: seq<SourceFile>): (r: seq<string>)
    ensures |r| == |files|
  {
    seq(|files|, i requires 0 <= i < |files| => files[i].name)
  }

  /** A file ready for ingestion: its name, its summary and its term
      stream. */
  datatype Prepared = Prepared(name: string, summary: string, terms: seq<string>)

  function Prepare(f: SourceFile, stopwords: set<string>): Prepared {
    Prepared(f.name, Summary(FileText(f)), FileTerms(f, stopwords))
  }

  function PrepareAll(files: seq<SourceFile>, stopwords: set<string>): (r: seq<Prepared>)
    ensures |r| == |files|
  {
    seq(|files|, i requires 0 <= i < |files| => Prepare(files[i], stopwords))
  }

  /** Inserting the terms of one document, the term at index n with
      position n. */
  function IngestTerms(pl: PostingMap, ts: seq<string>, id: nat, name: string, summary: string): PostingMap
    decreases |ts|
  {
    if ts == [] then pl
    else
      var n := |ts| - 1;
      InsertInto(IngestTerms(pl, ts[..n], id, name, summary), ts[n], Posting(id, name, summary, [n]))
  }

  function IngestDoc(pl: PostingMap, doc: Prepared, id: nat): PostingMap {
    IngestTerms(pl, doc.terms, id, doc.name, doc.summary)
  }

  /** Ingesting prepared files in order, the one at index i with id i+1. */
  function IndexDocs(pl: PostingMap, docs: seq<Prepared>): PostingMap
    decreases |docs|
  {
    if docs == [] then pl
    else
      var n := |docs| - 1;
      IngestDoc(IndexDocs(pl, docs[..n]), docs[n], n + 1)
  }

  /** Ingesting the listed files in order, the file at index i with id i+1. */
  function IndexFiles(pl: PostingMap, files: seq<SourceFile>, stopwords: set<string>): PostingMap {
    IndexDocs(pl, PrepareAll(files, stopwords))
  }

  lemma AscendingSnoc(ns: seq<nat>, n: nat)
    requires Ascending(ns) && forall m :: m in ns ==> m < n
    ensures Ascending(ns + [n])
  {
    var r := ns + [n];
    forall i, j | 0 <= i < j < |r| ensures r[i] < r[j] {
      if j == |ns| {
        assert r[i] in ns;
      }
    }
  }

  /** The indices at which `t` occurs in `ts`, ascending. */
  function Occurrences(ts: seq<string>, t: string): (r: seq<nat>)
    ensures forall n: nat :: n in r <==> n < |ts| && ts[n] == t
    ensures Ascending(r)
    ensures forall n :: n in r ==> n < |ts|
    decreases |ts|
  {
    if ts == [] then []
    else
      var n := |ts| - 1;
      var prev := Occurrences(ts[..n], t);
      assert forall m: nat :: m < n ==> ts[..n][m] == ts[m];
      AscendingSnoc(prev, n);
      prev + (if ts[n] == t then [n] else [])
  }

  lemma OccurrencesEmpty(ts: seq<string>, t: string)
    ensures t !in ts <==> Occurrences(ts, t) == []
  {
    var r := Occurrences(ts, t);
    if t in ts {
      var n :| 0 <= n < |ts| && ts[n] == t;
      assert n in r;
    }
  }

  /** The posting list a term has in the index of `docs` built from an
      empty store: for each file, in listing order, that contains the term,
      one posting with the file's id and the term's positions in it. */
  function Expected(docs: seq<Prepared>, t: string): seq<Posting>
    decreases |docs|
  {
    if docs == [] then []
    else
      var n := |docs| - 1;
      var doc := docs[n];
      Expected(docs[..n], t)
        + (if t in doc.terms then [Posting(n + 1, doc.name, doc.summary, Occurrences(doc.terms, t))] else [])
  }

  lemma {:induction false} ExpectedSorted(docs: seq<Prepared>, t: string)
    ensures StrictlySorted(Expected(docs, t))
    ensures IdsBelow(Expected(docs, t), |docs| + 1)
    decreases |docs|
  {
    if docs != [] {
      var n := |docs| - 1;
      var doc := docs[n];
      ExpectedSorted(docs[..n], t);
      if t in doc.terms {
        SnocSorted(Expected(docs[..n], t), Posting(n + 1, doc.name, doc.summary, Occurrences(doc.terms, t)));
      }
    }
  }

  /** Every list of the store is id-sorted and below `id`. */
  ghost predicate Below(pl: PostingMap, id: nat) {
    forall t :: t in pl ==> StrictlySorted(pl[t]) && IdsBelow(pl[t], id)
  }

  /** The list of `t` after ingesting `ts` as document `id` into `pl`. */
  function Extended(pl: PostingMap, ts: seq<string>, id: nat, name: string, summary: string, t: string): seq<Posting> {
    Lookup(pl, t) + (if t in ts then [Posting(id, name, summary, Occurrences(ts, t))] else [])
  }

  /** `r` is `pl` with every term of `ts` given one more posting, for
      document `id`, at the end of its list, and nothing else changed. */
  ghost predicate IngestedAs(r: PostingMap, pl: PostingMap, ts: seq<string>, id: nat, name: string, summary: string) {
    && (forall t :: t in r <==> t in pl || t in ts)
    && (forall t :: t in r ==> r[t] == Extended(pl, ts, id, name, summary, t))
  }

  /** One step of the ingestion of a document, on one term's list: the
      occurrence at the next position joins the document's posting, which
      is the last one, or starts it. */
  lemma InsertNextPosition(L: seq<Posting>, pre: seq<string>, x: string, id: nat, name: string, summary: string)
    requires StrictlySorted(L) && IdsBelow(L, id)
    ensures InsertPosting(L + (if x in pre then [Posting(id, name, summary, Occurrences(pre, x))] else []),
                          Posting(id, name, summary, [|pre|]))
            == L + [Posting(id, name, summary, Occurrences(pre + [x], x))]
  {
    var n := |pre|;
    var ts := pre + [x];
    assert ts[..n] == pre;
    assert Occurrences(ts, x) == Occurrences(pre, x) + [n];
    IdsMember(L);
    assert id !in Ids(L);
    if x in pre {
      var p0 := Posting(id, name, summary, Occurrences(pre, x));
      SnocSorted(L, p0);
      FindSorted(L + [p0], |L|);
      assert (L + [p0])[|L| := p0.(positions := p0.positions + [n])] == L + [p0.(positions := p0.positions + [n])];
    } else {
      OccurrencesEmpty(pre, x);
      assert L + [] == L;
      assert Find(L, id) == None;
      assert Occurrences(ts, x) == [n];
    }
  }

  /** A term other than the one appended keeps its extended list. */
  lemma ExtendedOther(pl: PostingMap, pre: seq<string>, x: string, id: nat, name: string, summary: string, t: string)
    requires t != x
    ensures t in pre + [x] <==> t in pre
    ensures Extended(pl, pre + [x], id, name, summary, t) == Extended(pl, pre, id, name, summary, t)
  {
    assert (pre + [x])[..|pre|] == pre;
    assert Occurrences(pre + [x], t) == Occurrences(pre, t) + [];
    assert Occurrences(pre, t) + [] == Occurrences(pre, t);
  }

  /** The list of the term an ingestion step inserts. */
  lemma IngestStepTerm(pl: PostingMap, r0: PostingMap, pre: seq<string>, x: string, id: nat, name: string, summary: string)
    requires Below(pl, id)
    requires IngestedAs(r0, pl, pre, id, name, summary)
    ensures InsertInto(r0, x, Posting(id, name, summary, [|pre|]))[x] == Extended(pl, pre + [x], id, name, summary, x)
  {
    if x in pl {
      assert StrictlySorted(pl[x]) && IdsBelow(pl[x], id);
    }
    assert Lookup(r0, x) == Extended(pl, pre, id, name, summary, x);
    InsertNextPosition(Lookup(pl, x), pre, x, id, name, summary);
    assert x in pre + [x];
  }

  /** One insert of the ingestion of a document, given what the earlier
      inserts of that document did. */
  lemma IngestStep(pl: PostingMap, r0: PostingMap, pre: seq<string>, x: string, id: nat, name: string, summary: string)
    requires Below(pl, id)
    requires IngestedAs(r0, pl, pre, id, name, summary)
    ensures IngestedAs(InsertInto(r0, x, Posting(id, name, summary, [|pre|])), pl, pre + [x], id, name, summary)
  {
    var r := InsertInto(r0, x, Posting(id, name, summary, [|pre|]));
    IngestStepTerm(pl, r0, pre, x, id, name, summary);
    assert x in pre + [x];
    forall t | t != x
      ensures t in r <==> t in pl || t in pre + [x]
      ensures t in r ==> r[t] == Extended(pl, pre + [x], id, name, summary, t)
    {
      ExtendedOther(pl, pre, x, id, name, summary, t);
    }
  }

  /** The effect of ingesting one document with an id above every id in the
      store: each of its terms gains one posting at the end, carrying the
      term's positions in the document; nothing else changes. */
  lemma {:induction false} IngestTermsEffect(pl: PostingMap, ts: seq<string>, id: nat, name: string, summary: string)
    requires Below(pl, id)
    ensures IngestedAs(IngestTerms(pl, ts, id, name, summary), pl, ts, id, name, summary)
    decreases |ts|
  {
    if ts != [] {
      var n := |ts| - 1;
      IngestTermsEffect(pl, ts[..n], id, name, summary);
      assert ts == ts[..n] + [ts[n]];
      IngestStep(pl, IngestTerms(pl, ts[..n], id, name, summary), ts[..n], ts[n], id, name, summary);
    }
  }

  /** The index built from an empty store holds, for every term, exactly
      the expected posting list, and a term is a key exactly when some file
      contains it. */
  lemma {:induction false} IndexDocsEffect(docs: seq<Prepared>)
    ensures var r := IndexDocs(map[], docs);
            && (forall t :: t in r <==> Expected(docs, t) != [])
            && (forall t :: t in r ==> r[t] == Expected(docs, t))
    decreases |docs|
  {
    if docs != [] {
      var n := |docs| - 1;
      IndexDocsEffect(docs[..n]);
      var pl := IndexDocs(map[], docs[..n]);
      forall t | t in pl ensures StrictlySorted(pl[t]) && IdsBelow(pl[t], n + 1) {
        ExpectedSorted(docs[..n], t);
      }
      var doc := docs[n];
      IngestTermsEffect(pl, doc.terms, n + 1, doc.name, doc.summary);
      var r := IndexDocs(map[], docs);
      forall t
        ensures t in r <==> Expected(docs, t) != []
        ensures t in r ==> r[t] == Expected(docs, t)
      {
        assert Lookup(pl, t) == Expected(docs[..n], t);
      }
    }
  }

  /** The posting file number `d` (counting from 1) contributes to the list
      of `t`. */
  function DocPosting(docs: seq<Prepared>, t: string, d: nat): Posting
    requires 1 <= d <= |docs|
  {
    var doc := docs[d - 1];
    Posting(d, doc.name, doc.summary, Occurrences(doc.terms, t))
  }

  /** `p` is the posting of a file that contains `t`. */
  ghost predicate FromDoc(docs: seq<Prepared>, t: string, p: Posting) {
    && 1 <= p.id <= |docs|
    && t in docs[p.id - 1].terms
    && p == DocPosting(docs, t, p.id)
  }

  lemma FromDocNext(docs: seq<Prepared>, t: string, p: Posting)
    requires docs != []
    ensures var n := |docs| - 1;
            FromDoc(docs, t, p) <==>
              || FromDoc(docs[..n], t, p)
              || (p.id == n + 1 && t in docs[n].terms && p == DocPosting(docs, t, n + 1))
  {
    var n := |docs| - 1;
    if 1 <= p.id <= n {
      assert docs[..n][p.id - 1] == docs[p.id - 1];
    }
  }

  /** The expected list holds exactly one posting per file containing the
      term, and that posting is the file's. */
  lemma {:induction false} ExpectedMember(docs: seq<Prepared>, t: string)
    ensures forall p :: p in Expected(docs, t) <==> FromDoc(docs, t, p)
    decreases |docs|
  {
    if docs != [] {
      var n := |docs| - 1;
      ExpectedMember(docs[..n], t);
      forall p ensures p in Expected(docs, t) <==> FromDoc(docs, t, p) {
        FromDocNext(docs, t, p);
      }
    }
  }

  /** Indexing one more file ingests it, with the next id, into the index
      of the files before it. */
  lemma IndexDocsNext(docs: seq<Prepared>, i: nat)
    requires i < |docs|
    ensures IndexDocs(map[], docs[..i + 1]) == IngestDoc(IndexDocs(map[], docs[..i]), docs[i], i + 1)
  {
    assert docs[..i + 1][..i] == docs[..i];
  }

  /** After indexing, every list is id-sorted and below the next id. */
  lemma IndexedBelow(docs: seq<Prepared>)
    ensures Below(IndexDocs(map[], docs), |docs| + 1)
  {
    var r := IndexDocs(map[], docs);
    IndexDocsEffect(docs);
    forall t | t in r ensures StrictlySorted(r[t]) && IdsBelow(r[t], |docs| + 1) {
      ExpectedSorted(docs, t);
    }
  }

  /** While a document is ingested with an id above every id in the store,
      each term's list stays id-sorted: the binary search of each insert
      is over a sorted list. */
  lemma IngestKeepsSorted(pl: PostingMap, ts: seq<string>, id: nat, name: string, summary: string, t: string)
    requires Below(pl, id)
    ensures StrictlySorted(Lookup(IngestTerms(pl, ts, id, name, summary), t))
  {
    IngestTermsEffect(pl, ts, id, name, summary);
    var r := IngestTerms(pl, ts, id, name, summary);
    var L := Lookup(pl, t);
    assert StrictlySorted(L) && IdsBelow(L, id);
    if t in r && t in ts {
      SnocSorted(L, Posting(id, name, summary, Occurrences(ts, t)));
    }
  }

  /** Some file's term stream contains `t`. */
  ghost predicate InSomeDoc(docs: seq<Prepared>, t: string) {
    exists d :: 0 <= d < |docs| && t in docs[d].terms
  }

  lemma InSomeDocNext(docs: seq<Prepared>, t: string)
    requires docs != []
    ensures InSomeDoc(docs, t) <==> InSomeDoc(docs[..|docs| - 1], t) || t in docs[|docs| - 1].terms
  {
    var n := |docs| - 1;
    var pre := docs[..n];
    if InSomeDoc(pre, t) {
      var d :| 0 <= d < n && t in pre[d].terms;
      assert docs[d] == pre[d];
    }
    if InSomeDoc(docs, t) && t !in docs[n].terms {
      var d :| 0 <= d < |docs| && t in docs[d].terms;
      assert pre[d] == docs[d];
    }
  }

  lemma {:induction false} ExpectedNonEmpty(docs: seq<Prepared>, t: string)
    ensures Expected(docs, t) != [] <==> InSomeDoc(docs, t)
    decreases |docs|
  {
    if docs != [] {
      ExpectedNonEmpty(docs[..|docs| - 1], t);
      InSomeDocNext(docs, t);
    }
  }

  /** Every posting of an indexed term carries the term's positions in its
      file: ascending, non-empty, and exactly the indices of the term in
      the file's term stream. */
  lemma DocPostingPositions(docs: seq<Prepared>, t: string, p: Posting)
    requires FromDoc(docs, t, p)
    ensures p.positions != [] && Ascending(p.positions)
    ensures forall n: nat :: n in p.positions <==> n < |docs[p.id - 1].terms| && docs[p.id - 1].terms[n] == t
  {
    OccurrencesEmpty(docs[p.id - 1].terms, t);
  }

  /** What the index built from prepared files contains. A term is a key
      exactly when some file's term stream contains it. Its list is
      id-sorted and holds, for each file containing the term, one posting:
      the file's id (its listing index plus one), name and summary and the
      term's positions in the file's term stream, ascending and non-empty. */
  lemma IndexDocsContents(docs: seq<Prepared>, t: string)
    ensures var r := IndexDocs(map[], docs);
            && (t in r <==> InSomeDoc(docs, t))
            && (t in r ==> StrictlySorted(r[t]))
            && (t in r ==> forall p :: p in r[t] <==> FromDoc(docs, t, p))
            && (t in r ==> forall p :: p in r[t] ==> p.positions != [] && Ascending(p.positions))
  {
    var r := IndexDocs(map[], docs);
    IndexDocsEffect(docs);
    ExpectedNonEmpty(docs, t);
    ExpectedSorted(docs, t);
    ExpectedMember(docs, t);
    if t in r {
      forall p: Posting | p in r[t] ensures p.positions != [] && Ascending(p.positions) {
        DocPostingPositions(docs, t, p);
      }
    }
  }

  /** The terms of the index built from files: each key is a term of some
      file, so it is longer than one character, made of lower-case ASCII
      letters and digits, and not a stopword. */
  lemma IndexedTermsAreTerms(files: seq<SourceFile>, stopwords: set<string>, t: string)
    requires t in IndexFiles(map[], files, stopwords)
    ensures |t| > 1 && t !in stopwords
    ensures forall c :: c in t ==> IsTermChar(c)
  {
    var docs := PrepareAll(files, stopwords);
    IndexDocsContents(docs, t);
    var d :| 0 <= d < |docs| && t in docs[d].terms;
    var f := files[d];
    assert docs[d] == Prepare(f, stopwords);
    TermsAreIndexable(if f.contents.Some? then f.contents.value else "", stopwords, t);
  }
}
