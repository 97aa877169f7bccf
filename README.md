# Boolean retrieval: a verified model of the indexing and query core

This project models the core of a small boolean-retrieval engine, the
`BooleanModel` of `src/model.rs`. The engine does four things:

- It keeps an inverted index from terms to posting lists. A posting is a
  document id, the document's name and summary, and the positions at which
  the term occurs.
- It fills the index from a directory listing. Each file is lower-cased,
  stripped of everything but ASCII letters and digits, tokenized, cleaned
  of stopwords and inserted term by term.
- It answers boolean queries (`x AND y`, `x OR y`, juxtaposition) by
  folding two-pointer merges over the terms' posting lists.
- It answers positional queries (`x y /k`) by folding a positional merge
  over the lists.

The modules follow the structure of the source:

- `Postings` holds the posting record and its id-only equality, plus the
  id-sortedness the merges rely on.
- `Text` is the text pipeline: normalisation, splitting on single spaces,
  the byte-length filter of `tokenize`, stopwords, and the identity stem.
- `Listing` is the comparator that orders the directory listing, and so
  fixes which file gets which id.
- `Merge` holds `union`, `intersect` and `positional_intersect`. Each is a
  method with the source's loops, proved equal to a recursive
  specification function. Lemmas then say what those functions compute on
  id-sorted lists.
- `Store` is the posting map. It holds the binary search, the effect of
  one `insert`, and the ingestion of a listing. Lemmas characterise the
  index built from scratch: which terms are keys, what their lists hold,
  and that the lists are id-sorted.
- `Queries` holds the specification functions of both query evaluators,
  the `u32` parse of the window token, and lemmas on the answers.
- `Model` holds the class `BooleanModel`, whose field `postingList` is
  updated in place by `Insert` and `Index`, and the query methods proved
  against the `Queries` functions.

The quirks of the source are reproduced as written:

- The tail loop of `union` copies from the wrong list, and it panics when
  that list is shorter. A panic is modelled as `None`.
- `insert` appends on a binary-search miss instead of inserting in order.
- A boolean operator stays pending after the term it applies to.
- `positional_intersect` only acts on a match when it goes on to another
  position of the first list, so a match on the last position is lost.

Most lemmas on queries are stated on token lists. `Queries.Tokens2`,
`Queries.Tokens3` and `Queries.Tokens4` give the token list of a query
made of single-space-separated words. The lemmas `Queries.AndQueryIsIntersect`,
`Queries.OrQueryIsUnion`, `Queries.PendingQuery` and
`Queries.JuxtapositionQuery` use them to state the answers on query
strings.

## Model

| member | source | states |
|---|---|---|
| Postings.SortedHasNoDuplicateDocuments | src/model.rs:19-23 | Documents are equal when their ids are. A strictly id-sorted posting list therefore never holds two equal documents. |
| Text.Normalize | src/model.rs:88-97 | The normalised text has the input's length. A character becomes a space exactly when it is not an ASCII letter or digit. Every other character becomes a lower-case letter or digit: a capital becomes its small letter (code point plus 32), and small letters and digits are kept. |
| Text.NormalizeIdempotent | src/model.rs:90-92 | Normalising normalised text changes nothing. |
| Text.JoinSplit | src/model.rs:303-305 | Splitting on the separator loses nothing: the pieces joined with it give back the input. |
| Text.SplitJoin | src/model.rs:303-305 | Splitting undoes joining whenever no piece contains the separator. |
| Text.Tokenize | src/model.rs:303-305 | Every token is longer than one UTF-8 byte, holds no space, and consists of characters of the input. |
| Text.LongPiecesAppend | src/model.rs:304 | The length filter is an order-preserving filter: it distributes over concatenation. |
| Text.TokenizeWords | src/model.rs:303-305 | Words longer than one byte, joined by single spaces, tokenize back to exactly those words in order. |
| Text.DropStopwords | src/model.rs:100 | A token survives exactly when it is not a stopword. |
| Text.DropStopwordsAppend | src/model.rs:100-103 | The stopword filter distributes over concatenation, so it keeps the surviving tokens in order and once each; a term's position is its index among them. |
| Text.StemIsIdentity | src/model.rs:307-309 | Stemming changes no term, so the term stream is the tokens without stopwords. |
| Text.Lower | src/model.rs:132 | A query term keeps its length; each ASCII capital becomes its small letter, every other character is kept, and no capital remains. |
| Text.LowerKeepsTerms | src/model.rs:132 | Lower-casing leaves a term made of lower-case letters and digits unchanged, so such a query term looks up exactly itself. |
| Text.LowerIdempotent | src/model.rs:132 | Lower-casing twice is lower-casing once. |
| Model.StopwordSet | src/model.rs:78-82 | An unreadable stopword file gives no stopwords; a readable one gives the non-empty lines of its text. |
| Store.FileText | src/model.rs:86-97 | An unreadable file counts as empty text; a readable one is normalised, so the text keeps its length and holds only lower-case letters, digits and spaces. |
| Store.Summary | src/model.rs:110 | The summary is the text's first 50 characters. The branch for a shorter text is never carried by a posting: SummaryDefined admits a short text only when it yields no term, and then no posting is built. |
| Text.ParseStopwords | src/model.rs:79-82 | The stopwords are non-empty lines of the stopword text. |
| Text.TermsAreIndexable | src/model.rs:88-101 | Every term indexed from a text is longer than one character, made only of lower-case ASCII letters and digits, and not a stopword. |
| Listing.CompareEntries | src/model.rs:317-322 | A name with fewer bytes is Less and one with more bytes Greater; the comparator is Equal exactly on identical names. |
| Listing.CompareLexEqual | src/model.rs:319 | The lexicographic tie-break calls two names equal exactly when they are identical. |
| Listing.CompareEntriesTotalOrder | src/model.rs:317-322 | The listing comparator (byte length first, then lexicographic) is a strict total order: Equal only on identical names, antisymmetric, and transitive. |
| Listing.ShorterNameListedFirst | src/model.rs:317-322 | In a listing sorted by the comparator, a name with fewer bytes comes first and so gets the smaller id. |
| Merge.Union | src/model.rs:189-220 | The two-pointer union loops compute UnionOf, panics included. On id-sorted lists where `b` leaves no tail, the result is their union by id. |
| Merge.MergeUnionIsUnion | src/model.rs:195-207 | The textbook merge of two id-sorted lists is strictly sorted, holds exactly the ids of either list, and takes `b`'s posting for a shared id. |
| Merge.UnionIsSetUnion | src/model.rs:189-220 | When `b` leaves no tail for the last loop, union returns the set union by id of two id-sorted lists. |
| Merge.UnionFromMissesLast | src/model.rs:209-217 | When every id of `a` is below `b`'s last id, the merge from any point panics or never emits `b`'s last id. |
| Merge.UnionIsSetUnionExactly | src/model.rs:189-220 | On id-sorted lists, union is the set union by id exactly when `b` leaves no tail; otherwise it panics or misses `b`'s last id. |
| Merge.UnionTailCopiesA | src/model.rs:214-217 | The loop over the rest of `b` pushes `a[j]`: with `[x]` and `[y]` and x's id smaller, the result is `[x, x]`, and `y` is lost. |
| Merge.UnionEmptyLeftPanics | src/model.rs:214-217 | With `a` empty and `b` non-empty, the tail loop indexes `a[0]` and panics. |
| Merge.Intersect | src/model.rs:222-241 | The intersect loop computes IntersectOf. On id-sorted lists it keeps exactly the postings of `b` whose id occurs in `a`, in `b`'s order. |
| Merge.IntersectIsCommon | src/model.rs:222-241 | On id-sorted lists, intersect keeps exactly `b`'s postings whose id is in `a`. |
| Merge.IntersectIds | src/model.rs:222-241 | The ids of the intersection are the ids common to both lists. The result is strictly id-sorted and drawn from `b`. |
| Merge.ScanDocument | src/model.rs:255-272 | The two position loops push `b`'s posting exactly when some position of `a` other than the last hits in the early-stopping scan of `b`'s positions. |
| Merge.PositionalIntersect | src/model.rs:243-284 | The positional merge computes PositionalOf: the intersect walk that keeps a shared document only when ScanDocument pushes it. |
| Merge.ScanHitsIffNear | src/model.rs:265-271 | With ascending positions, the early break of the inner scan loses nothing: it hits exactly when some position of `b` is within `k` of `p`. |
| Merge.SinglePositionNeverEmitted | src/model.rs:258-262 | A document with at most one position in `a` is never pushed, however close the positions are. |
| Merge.PositionalIntersectSpec | src/model.rs:243-284 | On id-sorted lists the result is strictly id-sorted and drawn from `b`, for documents of both lists. A shared document is kept exactly when a position in `a`, other than its last, is within `k` of a position in `b`. |
| Store.Find | src/model.rs:289 | A found index holds the id, and nothing is found exactly when no posting carries the id. |
| Store.BinarySearch | src/model.rs:288-289 | Binary search by id over an id-sorted list finds exactly what a linear search finds. |
| Store.InsertCases | src/model.rs:286-301 | Insert changes only the term's list, and that list gains the id. A new term gets `[doc]`, and a missing id is appended at the end. A present id keeps the list's length and its place, and gets the positions appended; every other posting is unchanged. |
| Store.InsertKeepsSorted | src/model.rs:286-301 | Inserting an id at least as large as every id of an id-sorted list keeps it id-sorted and bounded. |
| Store.InsertMissAppends | src/model.rs:296 | A miss appends instead of inserting in order: a smaller id inserted after a larger one leaves `[x, doc]` out of order. |
| Store.IngestTermsEffect | src/model.rs:99-114 | Ingesting a document with an id above the store's ids gives each term of the document one more posting at the end of its list: the document's id, name, summary and the term's positions. Other lists are unchanged. |
| Store.IngestKeepsSorted | src/model.rs:99-114 | While a document is ingested with an id above the store's ids, every list stays id-sorted, so each insert's binary search is on a sorted list. |
| Store.ExpectedSorted | src/model.rs:84-115 | The expected list of a term over a listing is strictly id-sorted and below the next id. |
| Store.IndexDocsEffect | src/model.rs:84-115 | Indexing files in order from an empty store gives every term exactly its expected list. A term is a key exactly when that list is non-empty. |
| Store.ExpectedMember | src/model.rs:84-115 | A posting is in a term's expected list exactly when it is the posting of a file containing the term, with that file's id. |
| Store.ExpectedNonEmpty | src/model.rs:84-115 | A term's expected list is non-empty exactly when some file's term stream contains the term. |
| Store.DocPostingPositions | src/model.rs:104-111 | Each posting's positions are non-empty, ascending, and exactly the indices of the term in its file's term stream. |
| Store.IndexDocsContents | src/model.rs:84-115 | The index built from scratch has a key exactly for the terms of some file. Each key's list is id-sorted and holds exactly one posting per file containing the term: its id (listing index plus one), name, summary and ascending positions. |
| Store.IndexedTermsAreTerms | src/model.rs:84-115 | Every key of the index built from files is longer than one character, made of lower-case ASCII letters and digits, and not a stopword. |
| Model.BooleanModel.constructor | src/model.rs:70-74 | A new model has an empty index. |
| Model.BooleanModel.Insert | src/model.rs:286-301 | Updates the posting map in place to InsertInto of the old map: binary search, then append positions or push. |
| Model.BooleanModel.IngestDocument | src/model.rs:99-114 | Inserting a document's terms one by one, each with its position, leaves the map at IngestTerms of the old map. |
| Model.BooleanModel.Index | src/model.rs:76-116 | Indexing a listing, ordered by the listing comparator, into an empty model leaves the map at IndexFiles: file i gets id i+1. Unreadable files count as empty text, and the stopword file counts as empty when missing. |
| Model.BooleanModel.QueryBoolean | src/model.rs:118-153 | The imperative fold over the query's tokens returns BooleanQuery, with None for a panicking union. |
| Model.BooleanModel.ReadPositionalTokens | src/model.rs:156-169 | The token pass sets the window from the last slash token (1 when it does not parse) and collects the term lists in order. |
| Model.BooleanModel.QueryPositional | src/model.rs:155-181 | The positional query returns PositionalQuery: the left fold of positional intersect over the term lists, with the first list as the start. |
| Model.Chain | src/model.rs:171-176 | The fold over the term lists equals ChainOf: no lists give none, and the first list is the start. |
| Queries.TermDocs | src/model.rs:183-187 | A query term selects the postings of its lower-cased form, and none when the index does not hold it. |
| Queries.TermDocsIgnoresCase | src/model.rs:132 | A term and its lower-cased form select the same postings, and a term in index form is looked up as it is. |
| Queries.BooleanStep | src/model.rs:122-150 | AND and OR set the pending operator and keep the answer. A term never changes the pending operator. Only a term under a pending OR can panic. |
| Queries.AndIsIntersect | src/model.rs:122-136 | `x AND y` answers with the intersect of the two terms' postings. On sorted lists, these are the postings of `y` whose document also has `x`. |
| Queries.OrIsUnion | src/model.rs:127-139 | `x OR y` answers with the union merge (None on its panic). On sorted lists with no `b` tail, it holds each document of either term once, in id order. |
| Queries.OrAfterUnknownPanics | src/model.rs:132-139 | `x OR y` with `x` unknown and `y` known panics in union's tail loop. |
| Queries.OperatorStaysPending | src/model.rs:134-147 | The operator is not reset after a term: `x AND y z` intersects `z` as well. |
| Queries.JuxtapositionKeepsFirst | src/model.rs:141-148 | With no operator, a second term only counts when the first has no postings. |
| Queries.SingleTerm | src/model.rs:131-145 | A single term is answered with its lower-cased term's postings, none when unknown. |
| Queries.AndQueryIsIntersect | src/model.rs:118-153 | The query string `x AND y` answers with the intersect of the two terms' postings. |
| Queries.OrQueryIsUnion | src/model.rs:118-153 | The query string `x OR y` answers with the union merge of the two terms' postings, None on its panic. |
| Queries.PendingQuery | src/model.rs:118-153 | The query string `x AND y z` intersects all three terms' postings. |
| Queries.JuxtapositionQuery | src/model.rs:118-153 | The query string `x y` answers with `x`'s postings, or `y`'s when `x` has none. |
| Queries.OperatorsOnly | src/model.rs:123-130 | A query of operators alone selects nothing. |
| Queries.ParseU32 | src/model.rs:161 | A parsed window fits in 32 bits and comes from a non-empty string of digits with at most a leading `+`. |
| Queries.ParseToDecimal | src/model.rs:161 | The u32 parse of the window inverts decimal printing for every u32, also with a leading `+`. |
| Queries.ParseU32Rejects | src/model.rs:161-163 | The parse fails on the empty string, a lone `+`, a minus sign and values beyond 32 bits. |
| Queries.LastWindowWins | src/model.rs:159-164 | The last slash token decides the window. |
| Queries.DefaultWindow | src/model.rs:157 | Without a slash token the window is 1. |
| Queries.TermListsMember | src/model.rs:165-167 | Every term token contributes its term's postings to the list of lists. |
| Queries.UnknownTermSelectsNothing | src/model.rs:165-176 | A positional query with a term the index does not hold selects nothing. |
| Queries.ChainSorted | src/model.rs:171-176 | On id-sorted lists the chain is id-sorted. Its postings are drawn from the last list, for documents every list holds. |
| Queries.TwoTermPhrase | src/model.rs:155-181 | A two-term positional query without a slash token is the positional intersect of the two lists with window 1. |
| Queries.PhraseOnLastPositionMissed | src/model.rs:255-272 | The tokens `cat sat /1` find nothing over an index where document 1 holds `cat` only at position 0 and `sat` only at position 1 (a text whose term stream is `cat sat` and whose normalised form has at least 50 bytes): the only position of `cat` is its last. |
| Queries.NoTermsSelectsNothing | src/model.rs:171-176 | A positional query made only of window tokens has no term lists and selects nothing. |
| Queries.WindowOf | src/model.rs:156-164 | The window never exceeds the u32 range. |

## Left out

- Text.Lower: only ASCII letters are lowered. Unicode `to_lowercase` is left out. It can turn a non-ASCII character into an ASCII letter (the Kelvin sign) or into several characters.
- Text.Normalize: lowers ASCII only, for the same reason. Unicode `to_lowercase` of the file text can change the normalised text's length and letters, and with them the terms, their positions and the summaries.
- Ids, positions and the window are unbounded naturals, not `u32`. A listing of more than 2^32 - 1 files, or a file of more than 2^32 terms, would overflow the source's `u32`. ParseU32 does bound the window.
- Model.BooleanModel.Index requires an empty model. The only caller, `src/main.rs`, indexes into a fresh `BooleanModel::new()`, so prior contents are never present.
- Model.BooleanModel.Index requires SummaryDefined for every file. The slice `filtered_text[0..50]` panics on a normalised text shorter than 50 bytes that yields a term, and that panic is not modelled.
- Model.BooleanModel.Insert requires the term's list to be id-sorted, because `binary_search_by` gives no guarantee otherwise. Store.IngestKeepsSorted shows that indexing always meets this.
- File reading, `read_dir` and the stopword file become parameters. A file is a name with `Option` contents (None for a read error), and the stopword text is an `Option`.
- The sort algorithm of `list_dir_sorted` is not modelled. `Index` requires its listing to be ordered by the comparator, as `list_dir_sorted` guarantees. Only the comparator is modelled, with the name standing for the whole path, since entries of one directory share their prefix.
- Serialisation, `Debug` output and `dbg!` are left out: they do not affect the index or the answers.
- `src/main.rs` (the GUI) is not part of this model. It calls `index` with one argument, while `src/model.rs` takes two; the model follows `src/model.rs`.
- The queries return borrowed postings that are cloned at the end. The model works on values throughout, so aliasing is not represented.
- `positions` is a linked list in the source and a sequence here. Appending positions on a repeated insert is sequence concatenation.
- The pending operator is kept after a term, indexing inserts into whatever index the model already holds, and `cat sat /1` finds nothing over an index where document 1 holds `cat` only at position 0 and `sat` only at position 1. These look unintended, but the model follows the code as written (Queries.OperatorStaysPending, Queries.PhraseOnLastPositionMissed).
