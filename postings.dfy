/** Postings: the entries of the inverted index and the orderings the merges rely on. */
module Postings {

  datatype Option<T> = None | Some(value: T)

  /** One entry of a term's posting list: a document, identified by `id`,
      together with the positions at which the term occurs in it. The
      name and summary travel with the posting because the source stores
      them in the same record. */
  datatype Posting = Posting(id: nat, name: string, summary: string, positions: seq<nat>)

  /** Equality of documents as the source defines it: by id alone. */
  predicate SameDocument(x: Posting, y: Posting) {
    x.id == y.id
  }

  /** The ids occurring in a posting list. */
  function Ids(ps: seq<Posting>): set<nat> {
    if ps == [] then {} else {ps[0].id} + Ids(ps[1..])
  }

  /** An id is in the list's ids exactly when some posting carries it. */
  lemma {:induction false} IdsMember(ps: seq<Posting>)
    ensures forall p :: p in ps ==> p.id in Ids(ps)
    ensures forall d :: d in Ids(ps) ==> exists p :: p in ps && p.id == d
  {
    if ps != [] {
      IdsMember(ps[1..]);
      assert forall p :: p in ps ==> p == ps[0] || p in ps[1..];
    }
  }

  lemma IdsCons(x: Posting, rest: seq<Posting>)
    ensures Ids([x] + rest) == {x.id} + Ids(rest)
  {
    assert ([x] + rest)[1..] == rest;
  }

  /** Strictly ascending by id: sorted and free of duplicate documents. */
  predicate StrictlySorted(ps: seq<Posting>) {
    forall i, j :: 0 <= i < j < |ps| ==> ps[i].id < ps[j].id
  }

  /** Strictly ascending positions. */
  predicate Ascending(ns: seq<nat>) {
    forall i, j :: 0 <= i < j < |ns| ==> ns[i] < ns[j]
  }

  /** Every id in the list is below `bound`. */
  predicate IdsBelow(ps: seq<Posting>, bound: nat) {
    forall p :: p in ps ==> p.id < bound
  }

  /** The postings of `b` whose document also occurs in `a`, in `b`'s order. */
  function KeepIds(b: seq<Posting>, ids: set<nat>): (r: seq<Posting>)
    ensures forall x :: x in r <==> x in b && x.id in ids
    ensures |r| <= |b|
  {
    if b == [] then []
    else (if b[0].id in ids then [b[0]] else []) + KeepIds(b[1..], ids)
  }

  /** A strictly id-sorted list never holds the same document twice, in the
      sense of the source's id-only equality. */
  lemma SortedHasNoDuplicateDocuments(ps: seq<Posting>, i: nat, j: nat)
    requires StrictlySorted(ps)
    requires i < |ps| && j < |ps| && SameDocument(ps[i], ps[j])
    ensures i == j
  {
  }

  /** The tail of an id-sorted list is id-sorted and lies above its head. */
  lemma SortedTail(s: seq<Posting>)
    requires StrictlySorted(s) && s != []
    ensures StrictlySorted(s[1..])
    ensures forall y :: y in s[1..] ==> s[0].id < y.id
    ensures forall y :: y in s ==> s[0].id <= y.id
    ensures s[0].id !in Ids(s[1..])
  {
    forall y | y in s[1..] ensures s[0].id < y.id {
      var m :| 0 <= m < |s[1..]| && s[1..][m] == y;
      assert s[m + 1] == y;
    }
    assert forall y :: y in s ==> y == s[0] || y in s[1..];
    IdsMember(s[1..]);
  }

  /** An id below the head of an id-sorted list does not occur in it. */
  lemma BelowHead(s: seq<Posting>, d: nat)
    requires StrictlySorted(s) && s != [] && d < s[0].id
    ensures d !in Ids(s)
  {
    SortedTail(s);
    IdsMember(s);
  }

  /** Putting a posting below every id of a sorted list in front keeps it sorted. */
  lemma ConsSorted(x: Posting, rest: seq<Posting>)
    requires StrictlySorted(rest)
    requires forall y :: y in rest ==> x.id < y.id
    ensures StrictlySorted([x] + rest)
  {
    var r := [x] + rest;
    forall m, n | 0 <= m < n < |r| ensures r[m].id < r[n].id {
      if m > 0 {
        assert r[m] == rest[m - 1] && r[n] == rest[n - 1];
      } else {
        assert r[n] in rest;
      }
    }
  }

  lemma {:induction false} KeepIdsSorted(b: seq<Posting>, ids: set<nat>)
    requires StrictlySorted(b)
    ensures StrictlySorted(KeepIds(b, ids))
  {
    if b != [] {
      SortedTail(b);
      KeepIdsSorted(b[1..], ids);
      var rest := KeepIds(b[1..], ids);
      if b[0].id in ids {
        ConsSorted(b[0], rest);
      }
    }
  }

  /** Keeping by two id sets that agree on every id of `b` gives the same list. */
  lemma {:induction false} KeepIdsAgree(b: seq<Posting>, s: set<nat>, t: set<nat>)
    requires forall x :: x in b ==> (x.id in s <==> x.id in t)
    ensures KeepIds(b, s) == KeepIds(b, t)
  {
    if b != [] {
      assert b[0] in b;
      KeepIdsAgree(b[1..], s, t);
    }
  }
}
