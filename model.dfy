/** The boolean retrieval model: an inverted index from terms to posting
    lists, filled by indexing a directory listing and read by the two
    query evaluators. */
module Model {
  import opened Postings
  import opened Text
  import opened Store
  import opened Merge
  import opened Queries
  import opened Listing

  /** The stopword set of an optional stopword file: an unreadable file
      gives no stopwords. */
  function StopwordSet(stopwordsText: Option<string>): (r: set<string>)
    ensures stopwordsText.None? ==> r == {}
    ensures stopwordsText.Some? ==> r == ParseStopwords(stopwordsText.value)
    ensures forall w :: w in r ==> w != [] && '\n' !in w
  {
    assert Split("", '\n') == [[]];
    ParseStopwords(if stopwordsText.Some? then stopwordsText.value else "")
  }

  class BooleanModel {
    var postingList: PostingMap

    /** A model with an empty index. */
    constructor()
      ensures postingList == map[]
    {
      postingList := map[];
    }

    /** Record one occurrence: `doc` carries the document and the position.
        The binary search needs the term's list sorted by id, which indexing
        with increasing ids guarantees. */
    method Insert(term: string, doc: Posting)
      modifies this
      requires StrictlySorted(Lookup(postingList, term))
      ensures postingList == InsertInto(old(postingList), term, doc)
    {
      if term in postingList {
        var list := postingList[term];
        var found := BinarySearch(list, doc.id);
        match found {
          case Some(idx) =>
            var entry := list[idx];
            postingList := postingList[term := list[idx := entry.(positions := entry.positions + doc.positions)]];
          case None =>
            postingList := postingList[term := list + [doc]];
        }
      } else {
        assert Find([], doc.id) == None && [] + [doc] == [doc];
        postingList := postingList[term := [doc]];
      }
    }

    /** Insert the terms of one document, the term at index j with
        position j, all under the same id, name and summary. */
    method IngestDocument(terms: seq<string>, docId: nat, name: string, summary: string)
      modifies this
      requires Below(postingList, docId)
      ensures postingList == IngestTerms(old(postingList), terms, docId, name, summary)
    {
      ghost var base := postingList;
      var j := 0;
      while j < |terms|
        invariant 0 <= j <= |terms|
        invariant postingList == IngestTerms(base, terms[..j], docId, name, summary)
      {
        IngestKeepsSorted(base, terms[..j], docId, name, summary, terms[j]);
        Insert(terms[j], Posting(docId, name, summary, [j]));
        assert terms[..j + 1][..j] == terms[..j];
        j := j + 1;
      }
      assert terms[..j] == terms;
    }

    /** Index the listed files, in the listing comparator's order, into an
        empty model: file number i (from 0) gets id i + 1, and each of its
        terms is inserted with its position in the file's term stream. */
    method Index(files: seq<SourceFile>, stopwordsText: Option<string>)
      modifies this
      requires postingList == map[]
      requires SortedListing(FileNames(files))
      requires forall f :: f in files ==> SummaryDefined(f, StopwordSet(stopwordsText))
      ensures postingList == IndexFiles(map[], files, StopwordSet(stopwordsText))
    {
      var stopwords := StopwordSet(stopwordsText);
      ghost var docs := PrepareAll(files, stopwords);
      var i := 0;
      while i < |files|
        invariant 0 <= i <= |files|
        invariant postingList == IndexDocs(map[], docs[..i])
      {
        var file := files[i];
        IndexedBelow(docs[..i]);
        IndexDocsNext(docs, i);
        assert docs[i] == Prepare(file, stopwords);
        IngestDocument(FileTerms(file, stopwords), i + 1, file.name, Summary(FileText(file)));
        i := i + 1;
      }
      assert docs[..i] == docs;
    }

    /** Evaluate a boolean query; None when the evaluation panics. */
    method QueryBoolean(query: string) returns (r: Option<seq<Posting>>)
      ensures r == BooleanQuery(postingList, query)
    {
      var tokens := Tokenize(query);
      var ans: seq<Posting> := [];
      var op := NoOp;
      var i := 0;
      while i < |tokens|
        invariant 0 <= i <= |tokens|
        invariant BooleanFold(postingList, FoldState(ans, op), tokens[i..]) == BooleanFold(postingList, FoldState([], NoOp), tokens)
      {
        var token := tokens[i];
        FoldAt(postingList, FoldState(ans, op), tokens, i);
        ghost var step := BooleanStep(postingList, FoldState(ans, op), token);
        if token == "AND" {
          op := And;
        } else if token == "OR" {
          op := Or;
        } else {
          var docs := Lookup(postingList, Lower(token));
          match op {
            case And =>
              ans := Intersect(ans, docs);
            case Or =>
              var u := Union(ans, docs);
              if u.None? {
                assert step == None;
                return None;
              }
              ans := u.value;
            case NoOp =>
              if ans == [] {
                ans := docs;
              }
          }
        }
        assert step == Some(FoldState(ans, op));
        i := i + 1;
      }
      return Some(ans);
    }

    /** The pass over a positional query's tokens: a window token sets the
        window (1 when its number does not parse), every other token adds
        its term's postings to the list of lists. */
    method ReadPositionalTokens(tokens: seq<string>) returns (k: nat, docsList: seq<seq<Posting>>)
      ensures k == WindowOf(tokens)
      ensures docsList == TermLists(postingList, tokens)
    {
      docsList := [];
      k := 1;
      var i := 0;
      while i < |tokens|
        invariant 0 <= i <= |tokens|
        invariant k == WindowOf(tokens[..i])
        invariant docsList == TermLists(postingList, tokens[..i])
      {
        var token := tokens[i];
        assert tokens[..i + 1][..i] == tokens[..i];
        if |token| > 0 && token[0] == '/' {
          match ParseU32(token[1..]) {
            case Some(v) => k := v;
            case None => k := 1;
          }
        } else {
          docsList := docsList + [Lookup(postingList, Lower(token))];
        }
        i := i + 1;
      }
      assert tokens[..i] == tokens;
    }

    /** Evaluate a positional query: the window is set by the last window
        token (1 by default), and positional intersect is folded over the
        term lists from the left. */
    method QueryPositional(query: string) returns (r: seq<Posting>)
      ensures r == PositionalQuery(postingList, query)
    {
      var k, docsList := ReadPositionalTokens(Tokenize(query));
      r := Chain(docsList, k);
    }
  }

  /** Fold positional intersect over the lists from the left, the first
      list as the start; no lists give no postings. */
  method Chain(docsList: seq<seq<Posting>>, k: nat) returns (docs: seq<Posting>)
    ensures docs == ChainOf(docsList, k)
  {
    docs := [];
    var m := 0;
    while m < |docsList|
      invariant 0 <= m <= |docsList|
      invariant docs == ChainOf(docsList[..m], k)
    {
      assert docsList[..m + 1][..m] == docsList[..m];
      if m == 0 {
        docs := docsList[0];
      } else {
        docs := PositionalIntersect(docs, docsList[m], k);
      }
      m := m + 1;
    }
    assert docsList[..m] == docsList;
  }
}
