/** The two query languages, as specification functions over the posting
    store: boolean queries (terms joined by AND and OR, evaluated left to
    right) and positional queries (terms, each within a window of the
    next, the window given by a token such as `/3`). */
module Queries {
  import opened Postings
  import opened Text
  import opened Store
  import opened Merge

  /** The postings a query term stands for: the term, lower-cased, looked
      up in the store; an unknown term stands for no postings. */
  function TermDocs(pl: PostingMap, token: string): (r: seq<Posting>)
    ensures Lower(token) !in pl ==> r == []
    ensures Lower(token) in pl ==> r == pl[Lower(token)]
  {
    Lookup(pl, Lower(token))
  }

  // ------------------------------------------------------ boolean queries

  /** The pending operator of a boolean query. */
  datatype Op = And | Or | NoOp

  /** What the boolean fold carries from token to token: the running
      result and the pending operator. */
  datatype FoldState = FoldState(ans: seq<Posting>, op: Op)

  /** One token of a boolean query. `AND` and `OR` set the pending
      operator. A term combines its postings with the running result by the
      pending operator, which stays pending afterwards; with no operator
      pending, the term's postings replace an empty running result and are
      ignored otherwise. None stands for the panic of a union. */
  function BooleanStep(pl: PostingMap, st: FoldState, token: string): (r: Option<FoldState>)
    ensures token == "AND" ==> r == Some(FoldState(st.ans, And))
    ensures token == "OR" ==> r == Some(FoldState(st.ans, Or))
    ensures token != "AND" && token != "OR" && r.Some? ==> r.value.op == st.op
    ensures r.None? ==> st.op == Or && token != "AND" && token != "OR"
  {
    if token == "AND" then Some(st.(op := And))
    else if token == "OR" then Some(st.(op := Or))
    else
      var docs := TermDocs(pl, token);
      match st.op
      case And => Some(FoldState(IntersectOf(st.ans, docs), And))
      case Or =>
        (match UnionOf(st.ans, docs)
         case None => None
         case Some(u) => Some(FoldState(u, Or)))
      case NoOp => Some(FoldState(if st.ans == [] then docs else st.ans, NoOp))
  }

  /** The fold of BooleanStep over the tokens, from the first. */
  function BooleanFold(pl: PostingMap, st: FoldState, tokens: seq<string>): Option<FoldState>
    decreases |tokens|
  {
    if tokens == [] then Some(st)
    else match BooleanStep(pl, st, tokens[0])
      case None => None
      case Some(next) => BooleanFold(pl, next, tokens[1..])
  }

  /** The fold from token i on takes one step, then goes on from i + 1. */
  lemma FoldAt(pl: PostingMap, st: FoldState, tokens: seq<string>, i: nat)
    requires i < |tokens|
    ensures BooleanFold(pl, st, tokens[i..]) ==
              match BooleanStep(pl, st, tokens[i])
              case None => None
              case Some(next) => BooleanFold(pl, next, tokens[i + 1..])
  {
    assert tokens[i..][0] == tokens[i] && tokens[i..][1..] == tokens[i + 1..];
  }

  /** The answer to the boolean query made of the given tokens, starting
      from no postings and no pending operator; None when evaluation
      panics. */
  function BooleanAnswer(pl: PostingMap, tokens: seq<string>): Option<seq<Posting>> {
    match BooleanFold(pl, FoldState([], NoOp), tokens)
    case None => None
    case Some(st) => Some(st.ans)
  }

  /** The answer to a boolean query. */
  function BooleanQuery(pl: PostingMap, query: string): Option<seq<Posting>> {
    BooleanAnswer(pl, Tokenize(query))
  }

  /** A query term: a word that is not an operator. */
  predicate IsTerm(w: string) {
    IsWord(w) && w != "AND" && w != "OR"
  }

  /** Tokenizing words separated by single spaces. */
  lemma Tokens2(x: string, y: string)
    requires IsWord(x) && IsWord(y)
    ensures Tokenize(x + " " + y) == [x, y]
  {
    assert Join([y], ' ') == y;
    assert Join([x, y], ' ') == x + [' '] + y;
    TokenizeWords([x, y]);
  }

  lemma Tokens3(x: string, y: string, z: string)
    requires IsWord(x) && IsWord(y) && IsWord(z)
    ensures Tokenize(x + " " + y + " " + z) == [x, y, z]
  {
    assert Join([z], ' ') == z;
    assert Join([y, z], ' ') == y + [' '] + z;
    assert Join([x, y, z], ' ') == x + [' '] + (y + [' '] + z);
    assert x + [' '] + (y + [' '] + z) == x + " " + y + " " + z;
    TokenizeWords([x, y, z]);
  }

  lemma Tokens4(w: string, x: string, y: string, z: string)
    requires IsWord(w) && IsWord(x) && IsWord(y) && IsWord(z)
    ensures Tokenize(w + " " + x + " " + y + " " + z) == [w, x, y, z]
  {
    assert Join([z], ' ') == z;
    assert Join([y, z], ' ') == y + [' '] + z;
    assert Join([x, y, z], ' ') == x + [' '] + (y + [' '] + z);
    assert Join([w, x, y, z], ' ') == w + [' '] + (x + [' '] + (y + [' '] + z));
    assert w + [' '] + (x + [' '] + (y + [' '] + z)) == w + " " + x + " " + y + " " + z;
    TokenizeWords([w, x, y, z]);
  }

  lemma OperatorsAreWords()
    ensures IsWord("AND") && IsWord("OR")
  {
    assert |"AND"| == 3 && |"OR"| == 2;
  }

  /** The fold over a single token. */
  lemma FoldOne(pl: PostingMap, st: FoldState, t: string)
    ensures BooleanFold(pl, st, [t]) == BooleanStep(pl, st, t)
  {
    assert [t][1..] == [];
  }

  /** The fold over a token list, one token at a time. */
  lemma FoldCons(pl: PostingMap, st: FoldState, t: string, rest: seq<string>, next: FoldState)
    requires BooleanStep(pl, st, t) == Some(next)
    ensures BooleanFold(pl, st, [t] + rest) == BooleanFold(pl, next, rest)
  {
    assert ([t] + rest)[0] == t && ([t] + rest)[1..] == rest;
  }

  /** A query reading `x AND y` is the intersection of the two terms'
      postings; on sorted lists, the postings of `y` whose document also
      has `x`. */
  lemma AndIsIntersect(pl: PostingMap, x: string, y: string)
    requires IsTerm(x) && IsTerm(y)
    ensures BooleanAnswer(pl, [x, "AND", y]) == Some(IntersectOf(TermDocs(pl, x), TermDocs(pl, y)))
    ensures StrictlySorted(TermDocs(pl, x)) && StrictlySorted(TermDocs(pl, y)) ==>
              BooleanAnswer(pl, [x, "AND", y]) == Some(KeepIds(TermDocs(pl, y), Ids(TermDocs(pl, x))))
  {
    var s1 := FoldState(TermDocs(pl, x), NoOp);
    var s2 := FoldState(TermDocs(pl, x), And);
    FoldOne(pl, s2, y);
    FoldCons(pl, s1, "AND", [y], s2);
    FoldCons(pl, FoldState([], NoOp), x, ["AND", y], s1);
    assert [x, "AND", y] == [x] + (["AND"] + [y]);
    if StrictlySorted(TermDocs(pl, x)) && StrictlySorted(TermDocs(pl, y)) {
      IntersectIsCommon(TermDocs(pl, x), TermDocs(pl, y));
    }
  }

  /** A query reading `x OR y` is the union merge of the two terms'
      postings (None when that merge panics); on sorted lists whose last
      ids let the merge finish, it holds each document of either term once,
      in id order. */
  lemma OrIsUnion(pl: PostingMap, x: string, y: string)
    requires IsTerm(x) && IsTerm(y)
    ensures BooleanAnswer(pl, [x, "OR", y]) == UnionOf(TermDocs(pl, x), TermDocs(pl, y))
    ensures var a, b := TermDocs(pl, x), TermDocs(pl, y);
            StrictlySorted(a) && StrictlySorted(b) && BTailEmpty(a, b) ==>
              BooleanAnswer(pl, [x, "OR", y]).Some? && IsUnion(BooleanAnswer(pl, [x, "OR", y]).value, a, b)
  {
    var s1 := FoldState(TermDocs(pl, x), NoOp);
    var s2 := FoldState(TermDocs(pl, x), Or);
    FoldOne(pl, s2, y);
    FoldCons(pl, s1, "OR", [y], s2);
    FoldCons(pl, FoldState([], NoOp), x, ["OR", y], s1);
    assert [x, "OR", y] == [x] + (["OR"] + [y]);
    UnionIsSetUnion(TermDocs(pl, x), TermDocs(pl, y));
  }

  /** `x OR y` with an unknown first term and a known second one panics: the
      union copies the rest of the second list from the first. */
  lemma OrAfterUnknownPanics(pl: PostingMap, x: string, y: string)
    requires IsTerm(x) && IsTerm(y)
    requires Lower(x) !in pl && TermDocs(pl, y) != []
    ensures BooleanAnswer(pl, [x, "OR", y]) == None
  {
    OrIsUnion(pl, x, y);
    UnionEmptyLeftPanics(TermDocs(pl, y));
  }

  /** The operator stays pending after a term: in `x AND y z` the third
      term is intersected too. */
  lemma OperatorStaysPending(pl: PostingMap, x: string, y: string, z: string)
    requires IsTerm(x) && IsTerm(y) && IsTerm(z)
    ensures BooleanAnswer(pl, [x, "AND", y, z])
            == Some(IntersectOf(IntersectOf(TermDocs(pl, x), TermDocs(pl, y)), TermDocs(pl, z)))
  {
    var s1 := FoldState(TermDocs(pl, x), NoOp);
    var s2 := FoldState(TermDocs(pl, x), And);
    var s3 := FoldState(IntersectOf(TermDocs(pl, x), TermDocs(pl, y)), And);
    FoldOne(pl, s3, z);
    FoldCons(pl, s2, y, [z], s3);
    FoldCons(pl, s1, "AND", [y, z], s2);
    FoldCons(pl, FoldState([], NoOp), x, ["AND", y, z], s1);
    assert [y] + [z] == [y, z];
    assert ["AND"] + [y, z] == ["AND", y, z];
    assert [x] + ["AND", y, z] == [x, "AND", y, z];
  }

  /** Two terms with no operator between them: the second only counts when
      the first has no postings. */
  lemma JuxtapositionKeepsFirst(pl: PostingMap, x: string, y: string)
    requires IsTerm(x) && IsTerm(y)
    ensures BooleanAnswer(pl, [x, y])
            == Some(if TermDocs(pl, x) == [] then TermDocs(pl, y) else TermDocs(pl, x))
  {
    var s1 := FoldState(TermDocs(pl, x), NoOp);
    FoldOne(pl, s1, y);
    FoldCons(pl, FoldState([], NoOp), x, [y], s1);
    assert [x] + [y] == [x, y];
  }

  lemma Spaced(x: string, op: string, y: string)
    requires op == "AND" || op == "OR"
    ensures x + " " + op + " " + y == x + (" " + op + " ") + y
    ensures op == "AND" ==> " " + op + " " == " AND "
    ensures op == "OR" ==> " " + op + " " == " OR "
  {
  }

  /** The same facts on query strings: terms and operators separated
      by single spaces. */
  lemma AndQueryIsIntersect(pl: PostingMap, x: string, y: string)
    requires IsTerm(x) && IsTerm(y)
    ensures BooleanQuery(pl, x + " AND " + y) == Some(IntersectOf(TermDocs(pl, x), TermDocs(pl, y)))
  {
    OperatorsAreWords();
    Tokens3(x, "AND", y);
    Spaced(x, "AND", y);
    AndIsIntersect(pl, x, y);
  }

  lemma OrQueryIsUnion(pl: PostingMap, x: string, y: string)
    requires IsTerm(x) && IsTerm(y)
    ensures BooleanQuery(pl, x + " OR " + y) == UnionOf(TermDocs(pl, x), TermDocs(pl, y))
  {
    OperatorsAreWords();
    Tokens3(x, "OR", y);
    Spaced(x, "OR", y);
    OrIsUnion(pl, x, y);
  }

  lemma PendingQuery(pl: PostingMap, x: string, y: string, z: string)
    requires IsTerm(x) && IsTerm(y) && IsTerm(z)
    ensures BooleanQuery(pl, x + " AND " + y + " " + z)
            == Some(IntersectOf(IntersectOf(TermDocs(pl, x), TermDocs(pl, y)), TermDocs(pl, z)))
  {
    OperatorsAreWords();
    Tokens4(x, "AND", y, z);
    Spaced(x, "AND", y);
    OperatorStaysPending(pl, x, y, z);
  }

  lemma JuxtapositionQuery(pl: PostingMap, x: string, y: string)
    requires IsTerm(x) && IsTerm(y)
    ensures BooleanQuery(pl, x + " " + y)
            == Some(if TermDocs(pl, x) == [] then TermDocs(pl, y) else TermDocs(pl, x))
  {
    Tokens2(x, y);
    JuxtapositionKeepsFirst(pl, x, y);
  }

  /** Query terms are looked up case-insensitively: a term and its
      lower-cased form select the same postings, and a term already in
      index form is looked up as it is. */
  lemma TermDocsIgnoresCase(pl: PostingMap, token: string)
    ensures TermDocs(pl, token) == TermDocs(pl, Lower(token))
    ensures (forall c :: c in token ==> IsTermChar(c)) ==> TermDocs(pl, token) == Lookup(pl, token)
  {
    LowerIdempotent(token);
    if forall c :: c in token ==> IsTermChar(c) {
      LowerKeepsTerms(token);
    }
  }

  /** A single term is answered with its postings, none when unknown. */
  lemma SingleTerm(pl: PostingMap, x: string)
    requires IsTerm(x)
    ensures BooleanAnswer(pl, [x]) == Some(TermDocs(pl, x))
    ensures Lower(x) !in pl ==> BooleanAnswer(pl, [x]) == Some([])
  {
    FoldOne(pl, FoldState([], NoOp), x);
  }

  /** Operators alone select nothing. */
  lemma {:induction false} OperatorsOnly(pl: PostingMap, op: Op, tokens: seq<string>)
    requires forall t :: t in tokens ==> t == "AND" || t == "OR"
    ensures BooleanFold(pl, FoldState([], op), tokens).Some?
    ensures BooleanFold(pl, FoldState([], op), tokens).value.ans == []
    decreases |tokens|
  {
    if tokens != [] {
      assert tokens[0] in tokens;
      assert forall t :: t in tokens[1..] ==> t in tokens;
      var next := if tokens[0] == "AND" then And else Or;
      OperatorsOnly(pl, next, tokens[1..]);
    }
  }

  // ---------------------------------------------------- positional queries

  /** The largest value of a u32. */
  const U32Max: nat := 0xFFFF_FFFF

  predicate IsDigit(c: char) {
    '0' <= c <= '9'
  }

  function DigitValue(c: char): nat
    requires IsDigit(c)
  {
    c as int - '0' as int
  }

  predicate AllDigits(s: string) {
    forall c :: c in s ==> IsDigit(c)
  }

  /** The value of a string of decimal digits, most significant first. */
  function DecimalValue(ds: string): nat
    requires AllDigits(ds)
    decreases |ds|
  {
    if ds == [] then 0
    else
      var n := |ds| - 1;
      assert ds[n] in ds;
      assert forall c :: c in ds[..n] ==> c in ds;
      DecimalValue(ds[..n]) * 10 + DigitValue(ds[n])
  }

  /** Parsing a u32 as Rust's `str::parse` does: an optional `+`, then one
      or more decimal digits whose value fits in 32 bits. */
  function ParseU32(s: string): (r: Option<nat>)
    ensures r.Some? ==> r.value <= U32Max
    ensures r.Some? ==> s != [] && s != "+"
    ensures r.Some? ==> forall i :: 0 <= i < |s| ==> IsDigit(s[i]) || (i == 0 && s[i] == '+')
  {
    var ds := if |s| > 0 && s[0] == '+' then s[1..] else s;
    if ds == [] || !AllDigits(ds) then None
    else if DecimalValue(ds) > U32Max then None
    else Some(DecimalValue(ds))
  }

  function DigitChar(d: nat): (c: char)
    requires d < 10
    ensures IsDigit(c) && DigitValue(c) == d
  {
    ('0' as int + d) as char
  }

  /** The decimal digits of a value, without leading zeros. */
  function ToDecimal(v: nat): (r: string)
    ensures r != [] && AllDigits(r)
    decreases v
  {
    if v < 10 then [DigitChar(v)] else ToDecimal(v / 10) + [DigitChar(v % 10)]
  }

  lemma {:induction false} DecimalValueToDecimal(v: nat)
    ensures DecimalValue(ToDecimal(v)) == v
    decreases v
  {
    if v >= 10 {
      DecimalValueToDecimal(v / 10);
      var ds := ToDecimal(v);
      assert ds[..|ds| - 1] == ToDecimal(v / 10);
    } else {
      assert ToDecimal(v)[..0] == [];
    }
  }

  /** Printing a u32 in decimal and parsing it gives it back, also with a
      leading `+`. */
  lemma ParseToDecimal(v: nat)
    requires v <= U32Max
    ensures ParseU32(ToDecimal(v)) == Some(v)
    ensures ParseU32("+" + ToDecimal(v)) == Some(v)
  {
    DecimalValueToDecimal(v);
    assert ToDecimal(v)[0] in ToDecimal(v);
    assert ("+" + ToDecimal(v))[1..] == ToDecimal(v);
  }

  /** The parse fails on an empty string, a lone sign, a minus sign and a
      value beyond 32 bits. */
  lemma ParseU32Rejects(v: nat)
    requires v > U32Max
    ensures ParseU32("") == None && ParseU32("+") == None && ParseU32("-1") == None
    ensures ParseU32(ToDecimal(v)) == None
  {
    assert !IsDigit('-') && '-' in "-1";
    DecimalValueToDecimal(v);
    assert ToDecimal(v)[0] in ToDecimal(v);
    assert ("+")[1..] == [];
  }

  /** A token that sets the window: it starts with a slash. */
  predicate IsWindowToken(token: string) {
    |token| > 0 && token[0] == '/'
  }

  /** The window a window token sets: the number after the slash, or 1
      when that does not parse. */
  function WindowValue(token: string): (k: nat)
    requires IsWindowToken(token)
    ensures k <= U32Max
  {
    match ParseU32(token[1..])
    case Some(v) => v
    case None => 1
  }

  /** The window after reading the tokens, starting from 1. */
  function WindowOf(tokens: seq<string>): (k: nat)
    ensures k <= U32Max
    decreases |tokens|
  {
    if tokens == [] then 1
    else
      var n := |tokens| - 1;
      if IsWindowToken(tokens[n]) then WindowValue(tokens[n]) else WindowOf(tokens[..n])
  }

  /** The postings of the term tokens, in query order. */
  function TermLists(pl: PostingMap, tokens: seq<string>): (r: seq<seq<Posting>>)
    ensures |r| <= |tokens|
    decreases |tokens|
  {
    if tokens == [] then []
    else
      var n := |tokens| - 1;
      TermLists(pl, tokens[..n]) + (if IsWindowToken(tokens[n]) then [] else [TermDocs(pl, tokens[n])])
  }

  /** Folding positional intersect over the lists, left to right, the
      first list as the start; no lists give no postings. */
  ghost function ChainOf(lists: seq<seq<Posting>>, k: nat): seq<Posting>
    decreases |lists|
  {
    if lists == [] then []
    else if |lists| == 1 then lists[0]
    else
      var n := |lists| - 1;
      PositionalOf(ChainOf(lists[..n], k), lists[n], k)
  }

  /** The answer to the positional query made of the given tokens. */
  ghost function PositionalAnswer(pl: PostingMap, tokens: seq<string>): seq<Posting> {
    ChainOf(TermLists(pl, tokens), WindowOf(tokens))
  }

  /** The answer to a positional query. */
  ghost function PositionalQuery(pl: PostingMap, query: string): seq<Posting> {
    PositionalAnswer(pl, Tokenize(query))
  }

  /** The last window token decides the window. */
  lemma {:induction false} LastWindowWins(tokens: seq<string>, i: nat)
    requires i < |tokens| && IsWindowToken(tokens[i])
    requires forall j :: i < j < |tokens| ==> !IsWindowToken(tokens[j])
    ensures WindowOf(tokens) == WindowValue(tokens[i])
    decreases |tokens|
  {
    var n := |tokens| - 1;
    if i < n {
      LastWindowWins(tokens[..n], i);
    }
  }

  /** Without a window token the window is 1. */
  lemma {:induction false} DefaultWindow(tokens: seq<string>)
    requires forall j :: 0 <= j < |tokens| ==> !IsWindowToken(tokens[j])
    ensures WindowOf(tokens) == 1
    decreases |tokens|
  {
    if tokens != [] {
      DefaultWindow(tokens[..|tokens| - 1]);
    }
  }

  /** Every term token of the query contributes its postings, in order. */
  lemma {:induction false} TermListsMember(pl: PostingMap, tokens: seq<string>, i: nat)
    requires i < |tokens| && !IsWindowToken(tokens[i])
    ensures TermDocs(pl, tokens[i]) in TermLists(pl, tokens)
    decreases |tokens|
  {
    var n := |tokens| - 1;
    if i < n {
      TermListsMember(pl, tokens[..n], i);
    }
  }

  /** A chain that includes a list with no postings selects nothing. */
  lemma {:induction false} ChainWithEmptyList(lists: seq<seq<Posting>>, k: nat)
    requires [] in lists
    ensures ChainOf(lists, k) == []
    decreases |lists|
  {
    var n := |lists| - 1;
    if |lists| > 1 && lists[n] != [] {
      assert [] in lists[..n];
      ChainWithEmptyList(lists[..n], k);
    }
  }

  /** A positional query with a term that is not in the store selects
      nothing. */
  lemma UnknownTermSelectsNothing(pl: PostingMap, tokens: seq<string>, i: nat)
    requires i < |tokens| && !IsWindowToken(tokens[i])
    requires Lower(tokens[i]) !in pl
    ensures PositionalAnswer(pl, tokens) == []
  {
    TermListsMember(pl, tokens, i);
    ChainWithEmptyList(TermLists(pl, tokens), WindowOf(tokens));
  }

  /** On id-sorted lists the chain is id-sorted, and each posting it holds
      is one of the last list's, for a document every list has. */
  lemma {:induction false} ChainSorted(lists: seq<seq<Posting>>, k: nat)
    requires forall l :: l in lists ==> StrictlySorted(l)
    ensures StrictlySorted(ChainOf(lists, k))
    ensures lists != [] ==> forall x :: x in ChainOf(lists, k) ==> x in lists[|lists| - 1]
    ensures forall x, l :: x in ChainOf(lists, k) && l in lists ==> x.id in Ids(l)
    decreases |lists|
  {
    if |lists| == 1 {
      IdsMember(lists[0]);
    } else if |lists| > 1 {
      var n := |lists| - 1;
      var pre := ChainOf(lists[..n], k);
      assert forall l :: l in lists[..n] ==> l in lists;
      assert lists[n] in lists;
      ChainSorted(lists[..n], k);
      PositionalIntersectSpec(pre, lists[n], k);
      IdsMember(pre);
      IdsMember(lists[n]);
      forall x, l | x in ChainOf(lists, k) && l in lists ensures x.id in Ids(l) {
        if l != lists[n] {
          assert l in lists[..n];
          var y :| y in pre && y.id == x.id;
        }
      }
    }
  }

  /** A two-term positional query with no window token uses window 1. */
  lemma TwoTermPhrase(pl: PostingMap, x: string, y: string)
    requires !IsWindowToken(x) && !IsWindowToken(y)
    ensures PositionalAnswer(pl, [x, y]) == PositionalOf(TermDocs(pl, x), TermDocs(pl, y), 1)
  {
    var ts := [x, y];
    assert ts[..1] == [x] && ts[..1][..0] == [];
    DefaultWindow(ts);
    assert TermLists(pl, ts[..1]) == [TermDocs(pl, x)];
    var lists := [TermDocs(pl, x), TermDocs(pl, y)];
    assert TermLists(pl, ts) == lists;
    assert lists[..1] == [TermDocs(pl, x)];
    assert ChainOf(lists[..1], 1) == TermDocs(pl, x);
    assert ChainOf(lists, 1) == PositionalOf(ChainOf(lists[..1], 1), lists[1], 1);
  }

  /** With no term tokens there are no lists to fold, and the answer is
      empty. */
  lemma {:induction false} NoTermsSelectsNothing(pl: PostingMap, tokens: seq<string>)
    requires forall j :: 0 <= j < |tokens| ==> IsWindowToken(tokens[j])
    ensures TermLists(pl, tokens) == [] && PositionalAnswer(pl, tokens) == []
    decreases |tokens|
  {
    if tokens != [] {
      NoTermsSelectsNothing(pl, tokens[..|tokens| - 1]);
    }
  }

  /** The window token `/1` sets the window to 1. */
  lemma SlashOne()
    ensures IsWindowToken("/1") && WindowValue("/1") == 1
  {
    assert "/1"[1..] == "1";
    assert "1"[..0] == [];
  }

  /** The tokens `cat sat /1` over an index where document 1 holds `cat`
      only at position 0 and `sat` only at position 1 find nothing: the match is on the last (and only) position of `cat`,
      which the merge never acts on. */
  lemma PhraseOnLastPositionMissed(name: string, summary: string)
    ensures var cat := Posting(1, name, summary, [0]);
            var sat := Posting(1, name, summary, [1]);
            PositionalAnswer(map["cat" := [cat], "sat" := [sat]], ["cat", "sat", "/1"]) == []
  {
    var cat := Posting(1, name, summary, [0]);
    var sat := Posting(1, name, summary, [1]);
    var pl := map["cat" := [cat], "sat" := [sat]];
    SlashOne();
    var ts := ["cat", "sat", "/1"];
    assert ts[..2] == ["cat", "sat"];
    assert WindowOf(ts) == 1;
    assert Lower("cat") == "cat" && Lower("sat") == "sat";
    assert TermLists(pl, ts) == TermLists(pl, ["cat", "sat"]);
    assert ["cat", "sat"][..1] == ["cat"] && ["cat"][..0] == [];
    assert TermLists(pl, ["cat"]) == [[cat]];
    var lists := [[cat], [sat]];
    assert TermLists(pl, ["cat", "sat"]) == lists;
    assert lists[..1] == [[cat]];
    assert ChainOf(lists[..1], 1) == [cat];
    SinglePositionNeverEmitted([0], [1], 1);
    assert PositionalOf([cat], [sat], 1) == [] + PositionalOf([], [], 1);
    assert ChainOf(lists, 1) == PositionalOf([cat], [sat], 1);
  }
}
