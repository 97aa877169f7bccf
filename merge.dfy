/** The three two-pointer merges over posting lists: union, intersect and
    positional intersect. Each is a method with the source's loops, proved
    equal to a recursive function that walks the same two lists, and the
    lemmas below say what those functions compute on id-sorted inputs. */
module Merge {
  import opened Postings

  /** Prepends `xs` to a result that may be a panic (None). */
  function Prefix(xs: seq<Posting>, o: Option<seq<Posting>>): Option<seq<Posting>> {
    if o.None? then None else Some(xs + o.value)
  }

  lemma PrefixPrefix(xs: seq<Posting>, ys: seq<Posting>, o: Option<seq<Posting>>)
    ensures Prefix(xs, Prefix(ys, o)) == Prefix(xs + ys, o)
  {
    if o.Some? {
      assert xs + (ys + o.value) == (xs + ys) + o.value;
    }
  }

  // ---------------------------------------------------------------- union

  /** The union merge from positions i of `a` and j of `b`. While both lists
      have elements it merges by id, emitting a shared id once with `b`'s
      posting. Then it copies the rest of `a`; the loop meant to copy the
      rest of `b` pushes `a[j]` instead, and indexing past the end of `a`
      panics (None). */
  function UnionFrom(a: seq<Posting>, b: seq<Posting>, i: nat, j: nat): Option<seq<Posting>>
    requires i <= |a| && j <= |b|
    decreases |a| - i + |b| - j
  {
    if i < |a| && j < |b| then
      if a[i].id == b[j].id then Prefix([b[j]], UnionFrom(a, b, i + 1, j + 1))
      else if a[i].id < b[j].id then Prefix([a[i]], UnionFrom(a, b, i + 1, j))
      else Prefix([b[j]], UnionFrom(a, b, i, j + 1))
    else if i < |a| then Some(a[i..])
    else if j < |b| then (if |b| <= |a| then Some(a[j..|b|]) else None)
    else Some([])
  }

  function UnionOf(a: seq<Posting>, b: seq<Posting>): Option<seq<Posting>> {
    UnionFrom(a, b, 0, 0)
  }

  /** `r` is the union of `a` and `b` by id: strictly id-sorted, holding
      exactly the ids of either list, each posting taken from `b` when `b`
      has its id and from `a` otherwise. */
  predicate IsUnion(r: seq<Posting>, a: seq<Posting>, b: seq<Posting>) {
    && StrictlySorted(r)
    && Ids(r) == Ids(a) + Ids(b)
    && forall x :: x in r ==> x in b || (x in a && x.id !in Ids(b))
  }

  /** The merge loop leaves no tail of `b` to copy: `b` is empty, or `a`
      reaches an id at least as large as `b`'s last. */
  predicate BTailEmpty(a: seq<Posting>, b: seq<Posting>) {
    b == [] || (a != [] && b[|b| - 1].id <= a[|a| - 1].id)
  }

  method Union(a: seq<Posting>, b: seq<Posting>) returns (r: Option<seq<Posting>>)
    ensures r == UnionOf(a, b)
    ensures StrictlySorted(a) && StrictlySorted(b) && BTailEmpty(a, b) ==> r.Some? && IsUnion(r.value, a, b)
  {
    var result: seq<Posting> := [];
    var i, j := 0, 0;
    assert UnionFrom(a, b, 0, 0).Some? ==> [] + UnionFrom(a, b, 0, 0).value == UnionFrom(a, b, 0, 0).value;
    while i < |a| && j < |b|
      invariant 0 <= i <= |a| && 0 <= j <= |b|
      invariant UnionOf(a, b) == Prefix(result, UnionFrom(a, b, i, j))
    {
      if a[i].id == b[j].id {
        PrefixPrefix(result, [b[j]], UnionFrom(a, b, i + 1, j + 1));
        result := result + [b[j]];
        i, j := i + 1, j + 1;
      } else if a[i].id < b[j].id {
        PrefixPrefix(result, [a[i]], UnionFrom(a, b, i + 1, j));
        result := result + [a[i]];
        i := i + 1;
      } else {
        PrefixPrefix(result, [b[j]], UnionFrom(a, b, i, j + 1));
        result := result + [b[j]];
        j := j + 1;
      }
    }
    while i < |a|
      invariant 0 <= i <= |a| && 0 <= j <= |b|
      invariant i < |a| ==> j == |b|
      invariant UnionOf(a, b) == Prefix(result, UnionFrom(a, b, i, j))
    {
      assert a[i..] == [a[i]] + a[i + 1..];
      PrefixPrefix(result, [a[i]], UnionFrom(a, b, i + 1, j));
      result := result + [a[i]];
      i := i + 1;
    }
    while j < |b|
      invariant i == |a| && 0 <= j <= |b|
      invariant UnionOf(a, b) == Prefix(result, UnionFrom(a, b, i, j))
    {
      if j >= |a| {
        // a[j] is out of bounds: the source panics here.
        UnionIsSetUnion(a, b);
        return None;
      }
      if |b| <= |a| {
        assert a[j..|b|] == [a[j]] + a[j + 1..|b|];
      }
      PrefixPrefix(result, [a[j]], UnionFrom(a, b, i, j + 1));
      result := result + [a[j]];
      j := j + 1;
    }
    assert UnionFrom(a, b, i, j) == Some([]);
    assert result + [] == result;
    r := Some(result);
    UnionIsSetUnion(a, b);
  }

  /** One step of the union merge on a shared id: `b`'s head goes in front
      of the union of the two tails. */
  lemma PrependShared(a: seq<Posting>, b: seq<Posting>, rest: seq<Posting>)
    requires a != [] && b != [] && a[0].id == b[0].id
    requires IsUnion(rest, a[1..], b[1..])
    requires forall y :: y in a[1..] ==> b[0].id < y.id
    requires forall y :: y in b[1..] ==> b[0].id < y.id
    ensures IsUnion([b[0]] + rest, a, b)
  {
    assert forall y :: y in rest ==> y in b[1..] || y in a[1..];
    ConsSorted(b[0], rest);
    IdsCons(b[0], rest);
    assert Ids(a) == {a[0].id} + Ids(a[1..]);
    forall y | y in [b[0]] + rest ensures y in b || (y in a && y.id !in Ids(b)) {
      if y != b[0] {
        assert y in rest;
        if y in b[1..] {
          assert y in b;
        } else {
          assert y in a[1..] && y.id !in Ids(b[1..]);
          assert y in a;
        }
      }
    }
  }

  /** One step of the union merge taking the head of `a`, the smaller id. */
  lemma PrependLeft(a: seq<Posting>, b: seq<Posting>, rest: seq<Posting>)
    requires a != []
    requires IsUnion(rest, a[1..], b)
    requires forall y :: y in a[1..] ==> a[0].id < y.id
    requires forall y :: y in b ==> a[0].id < y.id
    ensures IsUnion([a[0]] + rest, a, b)
  {
    assert forall y :: y in rest ==> y in b || y in a[1..];
    ConsSorted(a[0], rest);
    IdsCons(a[0], rest);
    assert Ids(a) == {a[0].id} + Ids(a[1..]);
    IdsMember(b);
    forall y | y in [a[0]] + rest ensures y in b || (y in a && y.id !in Ids(b)) {
      if y != a[0] {
        assert y in rest;
        if y !in b {
          assert y in a[1..];
          assert y in a;
        }
      }
    }
  }

  /** One step of the union merge taking the head of `b`, the smaller id. */
  lemma PrependRight(a: seq<Posting>, b: seq<Posting>, rest: seq<Posting>)
    requires b != []
    requires IsUnion(rest, a, b[1..])
    requires forall y :: y in a ==> b[0].id < y.id
    requires forall y :: y in b[1..] ==> b[0].id < y.id
    ensures IsUnion([b[0]] + rest, a, b)
  {
    assert forall y :: y in rest ==> y in b[1..] || y in a;
    ConsSorted(b[0], rest);
    IdsCons(b[0], rest);
    forall y | y in [b[0]] + rest ensures y in b || (y in a && y.id !in Ids(b)) {
      if y != b[0] {
        assert y in rest;
        if y in b[1..] {
          assert y in b;
        } else {
          assert y in a && y.id !in Ids(b[1..]);
        }
      }
    }
  }

  /** The textbook union merge of two id-sorted lists, taking `b`'s posting
      for a shared id and copying whichever tail is left. */
  function MergeUnion(a: seq<Posting>, b: seq<Posting>): seq<Posting>
    decreases |a| + |b|
  {
    if a == [] then b
    else if b == [] then a
    else if a[0].id == b[0].id then [b[0]] + MergeUnion(a[1..], b[1..])
    else if a[0].id < b[0].id then [a[0]] + MergeUnion(a[1..], b)
    else [b[0]] + MergeUnion(a, b[1..])
  }

  /** The textbook merge computes the union of two id-sorted lists. */
  lemma {:induction false} MergeUnionIsUnion(a: seq<Posting>, b: seq<Posting>)
    requires StrictlySorted(a) && StrictlySorted(b)
    ensures IsUnion(MergeUnion(a, b), a, b)
    decreases |a| + |b|
  {
    if a == [] {
      assert Ids(a) == {};
    } else if b == [] {
      assert Ids(b) == {};
    } else {
      SortedTail(a);
      SortedTail(b);
      if a[0].id == b[0].id {
        MergeUnionIsUnion(a[1..], b[1..]);
        PrependShared(a, b, MergeUnion(a[1..], b[1..]));
      } else if a[0].id < b[0].id {
        MergeUnionIsUnion(a[1..], b);
        PrependLeft(a, b, MergeUnion(a[1..], b));
      } else {
        MergeUnionIsUnion(a, b[1..]);
        PrependRight(a, b, MergeUnion(a, b[1..]));
      }
    }
  }

  /** Without a tail of `b` left over, the source's union walks the same
      path as the textbook merge. */
  lemma {:induction false} UnionFromIsMerge(a: seq<Posting>, b: seq<Posting>, i: nat, j: nat)
    requires StrictlySorted(a) && StrictlySorted(b)
    requires i <= |a| && j <= |b|
    requires j == |b| || (i < |a| && b[|b| - 1].id <= a[|a| - 1].id)
    ensures UnionFrom(a, b, i, j) == Some(MergeUnion(a[i..], b[j..]))
    decreases |a| - i + |b| - j
  {
    if i < |a| && j < |b| {
      assert a[i..][0] == a[i] && a[i..][1..] == a[i + 1..];
      assert b[j..][0] == b[j] && b[j..][1..] == b[j + 1..];
      if a[i].id == b[j].id {
        if j + 1 < |b| {
          assert b[j].id < b[|b| - 1].id;
        }
        UnionFromIsMerge(a, b, i + 1, j + 1);
      } else if a[i].id < b[j].id {
        assert b[j].id <= b[|b| - 1].id;
        UnionFromIsMerge(a, b, i + 1, j);
      } else {
        UnionFromIsMerge(a, b, i, j + 1);
      }
    } else if i < |a| {
      assert b[j..] == [];
    } else {
      assert a[i..] == [] && b[j..] == [];
    }
  }

  /** When the merge leaves no tail of `b`, union computes the set union of
      the two id-sorted lists. */
  lemma UnionIsSetUnion(a: seq<Posting>, b: seq<Posting>)
    ensures StrictlySorted(a) && StrictlySorted(b) && BTailEmpty(a, b) ==>
              UnionOf(a, b).Some? && IsUnion(UnionOf(a, b).value, a, b)
  {
    if StrictlySorted(a) && StrictlySorted(b) && BTailEmpty(a, b) {
      assert a[0..] == a && b[0..] == b;
      UnionFromIsMerge(a, b, 0, 0);
      MergeUnionIsUnion(a, b);
    }
  }

  /** When every id of `a` lies below the last id of `b`, the merge leaves
      a tail of `b`, and the tail loop never pushes `b`'s last posting: the
      union panics or loses that id. */
  lemma {:induction false} UnionFromMissesLast(a: seq<Posting>, b: seq<Posting>, i: nat, j: nat)
    requires StrictlySorted(b) && b != []
    requires forall p :: p in a ==> p.id < b[|b| - 1].id
    requires i <= |a| && j <= |b|
    ensures UnionFrom(a, b, i, j).None? || b[|b| - 1].id !in Ids(UnionFrom(a, b, i, j).value)
    decreases |a| - i + |b| - j
  {
    var last := b[|b| - 1].id;
    if i < |a| && j < |b| {
      assert a[i] in a;
      if a[i].id == b[j].id {
        UnionFromMissesLast(a, b, i + 1, j + 1);
        var rest := UnionFrom(a, b, i + 1, j + 1);
        if rest.Some? {
          IdsCons(b[j], rest.value);
        }
      } else if a[i].id < b[j].id {
        UnionFromMissesLast(a, b, i + 1, j);
        var rest := UnionFrom(a, b, i + 1, j);
        if rest.Some? {
          IdsCons(a[i], rest.value);
        }
      } else {
        UnionFromMissesLast(a, b, i, j + 1);
        var rest := UnionFrom(a, b, i, j + 1);
        if rest.Some? {
          IdsCons(b[j], rest.value);
        }
      }
    } else if i < |a| {
      IdsMember(a[i..]);
      assert forall p :: p in a[i..] ==> p in a;
    } else if j < |b| && |b| <= |a| {
      IdsMember(a[j..|b|]);
      assert forall p :: p in a[j..|b|] ==> p in a;
    }
  }

  /** On id-sorted lists, the source's union is the set union by id exactly
      when the merge leaves no tail of `b`: otherwise it panics or misses
      `b`'s last id. */
  lemma UnionIsSetUnionExactly(a: seq<Posting>, b: seq<Posting>)
    requires StrictlySorted(a) && StrictlySorted(b)
    ensures (UnionOf(a, b).Some? && IsUnion(UnionOf(a, b).value, a, b)) <==> BTailEmpty(a, b)
    ensures !BTailEmpty(a, b) ==> UnionOf(a, b).None? || b[|b| - 1].id !in Ids(UnionOf(a, b).value)
  {
    UnionIsSetUnion(a, b);
    if !BTailEmpty(a, b) {
      forall p | p in a ensures p.id < b[|b| - 1].id {
        var m :| 0 <= m < |a| && a[m] == p;
        assert m == |a| - 1 || a[m].id < a[|a| - 1].id;
      }
      UnionFromMissesLast(a, b, 0, 0);
      IdsMember(b);
      assert b[|b| - 1] in b;
    }
  }

  /** The tail loop of `b` copies `a` instead: with one posting on each side
      and `b`'s id larger, `a`'s posting comes out twice and `b`'s is lost. */
  lemma UnionTailCopiesA(x: Posting, y: Posting)
    requires x.id < y.id
    ensures UnionOf([x], [y]) == Some([x, x])
  {
    assert [x][0..1] == [x];
    assert UnionFrom([x], [y], 1, 0) == Some([x]);
    assert UnionFrom([x], [y], 0, 0) == Prefix([x], Some([x]));
    assert [x] + [x] == [x, x];
  }

  /** With `a` empty and `b` not, the tail loop reads `a[0]` and panics. */
  lemma UnionEmptyLeftPanics(b: seq<Posting>)
    requires b != []
    ensures UnionOf([], b) == None
  {
  }

  // ------------------------------------------------------------ intersect

  /** The intersect merge: advance the smaller id; on a shared id emit `b`'s
      posting and advance both. */
  function IntersectOf(a: seq<Posting>, b: seq<Posting>): seq<Posting>
    decreases |a| + |b|
  {
    if a == [] || b == [] then []
    else if a[0].id == b[0].id then [b[0]] + IntersectOf(a[1..], b[1..])
    else if a[0].id < b[0].id then IntersectOf(a[1..], b)
    else IntersectOf(a, b[1..])
  }

  method Intersect(a: seq<Posting>, b: seq<Posting>) returns (r: seq<Posting>)
    ensures r == IntersectOf(a, b)
    ensures StrictlySorted(a) && StrictlySorted(b) ==> r == KeepIds(b, Ids(a))
  {
    r := [];
    var i, j := 0, 0;
    while i < |a| && j < |b|
      invariant 0 <= i <= |a| && 0 <= j <= |b|
      invariant r + IntersectOf(a[i..], b[j..]) == IntersectOf(a, b)
    {
      assert a[i..][1..] == a[i + 1..] && b[j..][1..] == b[j + 1..];
      if a[i].id == b[j].id {
        r := r + [b[j]];
        i, j := i + 1, j + 1;
      } else if a[i].id < b[j].id {
        i := i + 1;
      } else {
        j := j + 1;
      }
    }
    assert IntersectOf(a[i..], b[j..]) == [];
    assert a[0..] == a && b[0..] == b;
    if StrictlySorted(a) && StrictlySorted(b) {
      IntersectIsCommon(a, b);
    }
  }

  /** On id-sorted lists, intersect keeps exactly the postings of `b` whose
      id also occurs in `a`, in `b`'s order. */
  lemma {:induction false} IntersectIsCommon(a: seq<Posting>, b: seq<Posting>)
    requires StrictlySorted(a) && StrictlySorted(b)
    ensures IntersectOf(a, b) == KeepIds(b, Ids(a))
    decreases |a| + |b|
  {
    if a == [] {
      KeepIdsNone(b);
    } else if b == [] {
    } else {
      SortedTail(a);
      SortedTail(b);
      if a[0].id == b[0].id {
        IntersectIsCommon(a[1..], b[1..]);
        KeepIdsAgree(b[1..], Ids(a[1..]), Ids(a));
      } else if a[0].id < b[0].id {
        IntersectIsCommon(a[1..], b);
        KeepIdsAgree(b, Ids(a[1..]), Ids(a));
      } else {
        IntersectIsCommon(a, b[1..]);
        BelowHead(a, b[0].id);
      }
    }
  }

  lemma {:induction false} KeepIdsNone(b: seq<Posting>)
    ensures KeepIds(b, {}) == []
  {
    if b != [] {
      KeepIdsNone(b[1..]);
    }
  }

  /** The ids of the intersection are exactly the ids common to both lists,
      and it is strictly id-sorted. */
  lemma IntersectIds(a: seq<Posting>, b: seq<Posting>)
    requires StrictlySorted(a) && StrictlySorted(b)
    ensures Ids(IntersectOf(a, b)) == Ids(a) * Ids(b)
    ensures StrictlySorted(IntersectOf(a, b))
    ensures forall x :: x in IntersectOf(a, b) ==> x in b
  {
    IntersectIsCommon(a, b);
    KeepIdsSorted(b, Ids(a));
    var r := KeepIds(b, Ids(a));
    IdsMember(b);
    IdsMember(r);
    forall d | d in Ids(a) * Ids(b) ensures d in Ids(r) {
      var x :| x in b && x.id == d;
      assert x in r;
    }
  }

  // ------------------------------------------------- positional intersect

  /** |p - q| on naturals, as `u32::abs_diff`. */
  function Dist(p: nat, q: nat): nat {
    if p >= q then p - q else q - p
  }

  /** The inner scan for one position `p` of `a`: walk `b`'s positions in
      order, succeed on one within `k` of `p`, stop early at one that is far
      and beyond `p`. */
  function ScanHits(p: nat, pb: seq<nat>, k: nat): bool {
    if pb == [] then false
    else if Dist(p, pb[0]) <= k then true
    else if pb[0] > p then false
    else ScanHits(p, pb[1..], k)
  }

  /** Whether a shared document is emitted: the flag set by a scan is only
      acted on at the top of the next outer iteration, so some position of
      `a` other than its last must have hit. */
  ghost predicate Emits(pa: seq<nat>, pb: seq<nat>, k: nat) {
    exists m :: 0 <= m < |pa| - 1 && ScanHits(pa[m], pb, k)
  }

  /** The positional intersect merge: like intersect, but a shared document
      is kept (with `b`'s posting) only when it is emitted. */
  ghost function PositionalOf(a: seq<Posting>, b: seq<Posting>, k: nat): seq<Posting>
    decreases |a| + |b|
  {
    if a == [] || b == [] then []
    else if a[0].id == b[0].id then
      (if Emits(a[0].positions, b[0].positions, k) then [b[0]] else []) + PositionalOf(a[1..], b[1..], k)
    else if a[0].id < b[0].id then PositionalOf(a[1..], b, k)
    else PositionalOf(a, b[1..], k)
  }

  /** The two nested position loops for one shared document; true when the
      source pushes `b`'s posting. */
  method ScanDocument(pa: seq<nat>, pb: seq<nat>, k: nat) returns (push: bool)
    ensures push == Emits(pa, pb, k)
  {
    var ok := false;
    push := false;
    var m := 0;
    while m < |pa|
      invariant 0 <= m <= |pa|
      invariant forall m' :: 0 <= m' < m - 1 ==> !ScanHits(pa[m'], pb, k)
      invariant ok == (m > 0 && ScanHits(pa[m - 1], pb, k))
      invariant !push
    {
      if ok {
        push := true;
        break;
      }
      var pp1 := pa[m];
      var n := 0;
      while n < |pb|
        invariant 0 <= n <= |pb|
        invariant ScanHits(pp1, pb, k) <==> ok || ScanHits(pp1, pb[n..], k)
      {
        assert pb[n..][1..] == pb[n + 1..];
        if Dist(pp1, pb[n]) <= k {
          ok := true;
        } else if pb[n] > pp1 {
          break;
        }
        n := n + 1;
      }
      m := m + 1;
    }
  }

  /** The positional merge of two posting lists, walking both by id as
      intersect does and scanning the positions of each shared document. */
  method PositionalIntersect(a: seq<Posting>, b: seq<Posting>, k: nat) returns (answer: seq<Posting>)
    ensures answer == PositionalOf(a, b, k)
  {
    answer := [];
    var i, j := 0, 0;
    while i < |a| && j < |b|
      invariant 0 <= i <= |a| && 0 <= j <= |b|
      invariant answer + PositionalOf(a[i..], b[j..], k) == PositionalOf(a, b, k)
    {
      assert a[i..][1..] == a[i + 1..] && b[j..][1..] == b[j + 1..];
      if a[i].id == b[j].id {
        var push := ScanDocument(a[i].positions, b[j].positions, k);
        if push {
          answer := answer + [b[j]];
        }
        i, j := i + 1, j + 1;
      } else if a[i].id < b[j].id {
        i := i + 1;
      } else {
        j := j + 1;
      }
    }
    assert PositionalOf(a[i..], b[j..], k) == [];
    assert a[0..] == a && b[0..] == b;
  }

  /** With ascending positions in `b`, the early stop loses no match: the
      scan succeeds exactly when some position of `b` is within `k` of `p`. */
  lemma {:induction false} ScanHitsIffNear(p: nat, pb: seq<nat>, k: nat)
    requires Ascending(pb)
    ensures ScanHits(p, pb, k) <==> exists n :: 0 <= n < |pb| && Dist(p, pb[n]) <= k
  {
    if pb != [] {
      assert Ascending(pb[1..]);
      ScanHitsIffNear(p, pb[1..], k);
      if Dist(p, pb[0]) > k && pb[0] > p {
        forall n | 0 <= n < |pb| ensures Dist(p, pb[n]) > k {
          assert pb[n] >= pb[0];
        }
      } else if Dist(p, pb[0]) > k {
        if exists n :: 0 <= n < |pb| && Dist(p, pb[n]) <= k {
          var n :| 0 <= n < |pb| && Dist(p, pb[n]) <= k;
          assert pb[1..][n - 1] == pb[n];
        }
      }
    }
  }

  /** A shared document whose positions in `a` number fewer than two is
      never emitted, however close the positions are. */
  lemma SinglePositionNeverEmitted(pa: seq<nat>, pb: seq<nat>, k: nat)
    requires |pa| <= 1
    ensures !Emits(pa, pb, k)
  {
  }

  /** The posting of `a` with the given id, if any. */
  function PositionsOf(a: seq<Posting>, id: nat): (r: Option<seq<nat>>)
    ensures r.Some? <==> id in Ids(a)
  {
    if a == [] then None
    else if a[0].id == id then Some(a[0].positions)
    else PositionsOf(a[1..], id)
  }

  /** The postings of `b` emitted against `a`, in `b`'s order. */
  ghost function KeepNear(b: seq<Posting>, a: seq<Posting>, k: nat): (r: seq<Posting>)
    ensures forall x :: x in r ==> x in b && x.id in Ids(a)
  {
    if b == [] then []
    else
      var ps := PositionsOf(a, b[0].id);
      (if ps.Some? && Emits(ps.value, b[0].positions, k) then [b[0]] else []) + KeepNear(b[1..], a, k)
  }

  lemma {:induction false} KeepNearSkipsSmaller(b: seq<Posting>, a: seq<Posting>, k: nat)
    requires a != [] && forall x :: x in b ==> x.id != a[0].id
    ensures KeepNear(b, a, k) == KeepNear(b, a[1..], k)
  {
    if b != [] {
      assert b[0] in b;
      assert forall x :: x in b[1..] ==> x in b;
      KeepNearSkipsSmaller(b[1..], a, k);
    }
  }

  /** On id-sorted lists, positional intersect keeps exactly the postings of
      `b` whose document is in `a` and is emitted there. */
  lemma {:induction false} PositionalIsKeepNear(a: seq<Posting>, b: seq<Posting>, k: nat)
    requires StrictlySorted(a) && StrictlySorted(b)
    ensures PositionalOf(a, b, k) == KeepNear(b, a, k)
    decreases |a| + |b|
  {
    if a == [] {
      KeepNearEmpty(b, k);
    } else if b == [] {
    } else {
      SortedTail(a);
      SortedTail(b);
      if a[0].id == b[0].id {
        PositionalIsKeepNear(a[1..], b[1..], k);
        KeepNearSkipsSmaller(b[1..], a, k);
      } else if a[0].id < b[0].id {
        PositionalIsKeepNear(a[1..], b, k);
        KeepNearSkipsSmaller(b, a, k);
      } else {
        PositionalIsKeepNear(a, b[1..], k);
        BelowHead(a, b[0].id);
      }
    }
  }

  lemma {:induction false} KeepNearEmpty(b: seq<Posting>, k: nat)
    ensures KeepNear(b, [], k) == []
  {
    if b != [] {
      KeepNearEmpty(b[1..], k);
    }
  }

  /** What positional intersect returns on id-sorted lists: a strictly
      id-sorted selection of `b`'s postings, each for a document that is in
      both lists; and a document in both lists is kept exactly when a
      position of it in `a`, other than the last, is within `k` of one of
      its positions in `b` (for ascending positions). */
  lemma PositionalIntersectSpec(a: seq<Posting>, b: seq<Posting>, k: nat)
    requires StrictlySorted(a) && StrictlySorted(b)
    ensures StrictlySorted(PositionalOf(a, b, k))
    ensures forall x :: x in PositionalOf(a, b, k) ==> x in b && x.id in Ids(a)
    ensures forall x, y :: x in b && y in a && x.id == y.id && Ascending(x.positions) ==>
              (x in PositionalOf(a, b, k) <==>
                 exists m, n :: 0 <= m < |y.positions| - 1 && 0 <= n < |x.positions| &&
                   Dist(y.positions[m], x.positions[n]) <= k)
  {
    PositionalIsKeepNear(a, b, k);
    KeepNearSorted(b, a, k);
    forall x, y | x in b && y in a && x.id == y.id && Ascending(x.positions)
      ensures x in PositionalOf(a, b, k) <==>
                exists m, n :: 0 <= m < |y.positions| - 1 && 0 <= n < |x.positions| &&
                  Dist(y.positions[m], x.positions[n]) <= k
    {
      PositionsOfSorted(a, y);
      KeepNearMember(b, a, k, x);
      forall m | 0 <= m < |y.positions| - 1 {
        ScanHitsIffNear(y.positions[m], x.positions, k);
      }
    }
  }

  lemma {:induction false} PositionsOfSorted(a: seq<Posting>, y: Posting)
    requires StrictlySorted(a) && y in a
    ensures PositionsOf(a, y.id) == Some(y.positions)
  {
    SortedTail(a);
    if a[0] != y {
      assert y in a[1..];
      PositionsOfSorted(a[1..], y);
    }
  }

  lemma {:induction false} KeepNearMember(b: seq<Posting>, a: seq<Posting>, k: nat, x: Posting)
    requires StrictlySorted(b) && x in b
    ensures x in KeepNear(b, a, k) <==>
              PositionsOf(a, x.id).Some? && Emits(PositionsOf(a, x.id).value, x.positions, k)
  {
    SortedTail(b);
    if b[0] != x {
      assert x in b[1..];
      KeepNearMember(b[1..], a, k, x);
    }
  }

  lemma {:induction false} KeepNearSorted(b: seq<Posting>, a: seq<Posting>, k: nat)
    requires StrictlySorted(b)
    ensures StrictlySorted(KeepNear(b, a, k))
  {
    if b != [] {
      SortedTail(b);
      KeepNearSorted(b[1..], a, k);
      var ps := PositionsOf(a, b[0].id);
      if ps.Some? && Emits(ps.value, b[0].positions, k) {
        ConsSorted(b[0], KeepNear(b[1..], a, k));
      }
    }
  }
}
