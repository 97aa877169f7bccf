/** The order in which a directory's entries are listed before ids are
    assigned: shorter names first, names of equal length in lexicographic
    order. Entries of one directory share their directory prefix, so the
    order is stated on the file names. */
module Listing {
  import opened Text

  datatype Ordering = Less | Equal | Greater

  /** Character-by-character lexicographic comparison. */
  function CompareLex(a: string, b: string): Ordering {
    if a == [] && b == [] then Equal
    else if a == [] then Less
    else if b == [] then Greater
    else if a[0] < b[0] then Less
    else if a[0] > b[0] then Greater
    else CompareLex(a[1..], b[1..])
  }

  /** The comparator of the directory listing: length in bytes first, then
      lexicographic. Comparing characters by code point orders UTF-8
      strings as comparing their bytes does. */
  function CompareEntries(a: string, b: string): (r: Ordering)
    ensures Utf8Length(a) < Utf8Length(b) ==> r == Less
    ensures Utf8Length(a) > Utf8Length(b) ==> r == Greater
    ensures r == Equal <==> a == b
  {
    CompareLexEqual(a, b);
    if Utf8Length(a) < Utf8Length(b) then Less
    else if Utf8Length(a) > Utf8Length(b) then Greater
    else CompareLex(a, b)
  }

  lemma {:induction false} CompareLexEqual(a: string, b: string)
    ensures CompareLex(a, b) == Equal <==> a == b
  {
    if a != [] && b != [] {
      CompareLexEqual(a[1..], b[1..]);
      assert a == [a[0]] + a[1..] && b == [b[0]] + b[1..];
    }
  }

  lemma {:induction false} CompareLexFlip(a: string, b: string)
    ensures CompareLex(a, b) == Less <==> CompareLex(b, a) == Greater
  {
    if a != [] && b != [] {
      CompareLexFlip(a[1..], b[1..]);
    }
  }

  lemma {:induction false} CompareLexTransitive(a: string, b: string, c: string)
    requires CompareLex(a, b) == Less && CompareLex(b, c) == Less
    ensures CompareLex(a, c) == Less
  {
    if a != [] && b != [] && c != [] && a[0] == b[0] && b[0] == c[0] {
      CompareLexTransitive(a[1..], b[1..], c[1..]);
    }
  }

  /** The listing comparator identifies only equal names, is antisymmetric
      and transitive: a strict total order, so the sorted listing, and with
      it the id assignment, is determined by the set of names. */
  lemma CompareEntriesTotalOrder(a: string, b: string, c: string)
    ensures CompareEntries(a, b) == Equal <==> a == b
    ensures CompareEntries(a, b) == Less <==> CompareEntries(b, a) == Greater
    ensures CompareEntries(a, b) == Less && CompareEntries(b, c) == Less ==> CompareEntries(a, c) == Less
  {
    CompareLexEqual(a, b);
    CompareLexFlip(a, b);
    if CompareEntries(a, b) == Less && CompareEntries(b, c) == Less && Utf8Length(a) == Utf8Length(b) == Utf8Length(c) {
      CompareLexTransitive(a, b, c);
    }
  }

  /** A listing in the comparator's order. */
  predicate SortedListing(names: seq<string>) {
    forall i, j :: 0 <= i < j < |names| ==> CompareEntries(names[i], names[j]) != Greater
  }

  /** In a sorted listing a shorter name always comes first, and so gets the
      smaller id. */
  lemma ShorterNameListedFirst(names: seq<string>, i: nat, j: nat)
    requires SortedListing(names)
    requires i < |names| && j < |names| && Utf8Length(names[i]) < Utf8Length(names[j])
    ensures i < j
  {
  }
}
