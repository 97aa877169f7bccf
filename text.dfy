/** The text pipeline: normalisation, splitting, tokenizing, stopword
    filtering and stemming, as the indexer and the query evaluators apply it. */
module Text {

  predicate IsAsciiAlphanumeric(c: char) {
    'a' <= c <= 'z' || 'A' <= c <= 'Z' || '0' <= c <= '9'
  }

  /** The number of bytes of a character's UTF-8 encoding. */
  function Utf8Width(c: char): nat {
    if c as int < 0x80 then 1
    else if c as int < 0x800 then 2
    else if c as int < 0x1_0000 then 3
    else 4
  }

  /** The length of a string in UTF-8 bytes, the measure the source's
      string lengths use. */
  function Utf8Length(s: string): (r: nat)
    ensures r >= |s|
    ensures r == 0 <==> s == []
  {
    if s == [] then 0 else Utf8Width(s[0]) + Utf8Length(s[1..])
  }

  /** On ASCII text bytes and characters coincide. */
  lemma {:induction false} AsciiUtf8Length(s: string)
    requires forall c :: c in s ==> c as int < 0x80
    ensures Utf8Length(s) == |s|
  {
    if s != [] {
      assert s[0] in s;
      assert forall c :: c in s[1..] ==> c in s;
      AsciiUtf8Length(s[1..]);
    }
  }

  /** A character that can appear in an indexed term. */
  predicate IsTermChar(c: char) {
    'a' <= c <= 'z' || '0' <= c <= '9'
  }

  /** ASCII lower-casing of one character; other characters are kept. */
  function LowerChar(c: char): char {
    if 'A' <= c <= 'Z' then (c as int + 32) as char else c
  }

  /** Lower-casing of a whole string (used on query terms): each ASCII
      capital becomes its small letter, every other character is kept. */
  function Lower(s: string): (r: string)
    ensures |r| == |s|
    ensures forall i :: 0 <= i < |s| && 'A' <= s[i] <= 'Z' ==> r[i] as int == s[i] as int + 32
    ensures forall i :: 0 <= i < |s| && !('A' <= s[i] <= 'Z') ==> r[i] == s[i]
    ensures forall i :: 0 <= i < |s| ==> !('A' <= r[i] <= 'Z')
  {
    seq(|s|, i requires 0 <= i < |s| => LowerChar(s[i]))
  }

  /** One character of the normalised text: lower-cased when it is an
      ASCII letter or digit, a space otherwise. */
  function NormalizeChar(c: char): char {
    if IsAsciiAlphanumeric(c) then LowerChar(c) else ' '
  }

  /** Lower-case the text and turn every character that is not an ASCII
      letter or digit into a space. */
  function Normalize(s: string): (r: string)
    ensures |r| == |s|
    ensures forall i :: 0 <= i < |s| ==> (r[i] == ' ' <==> !IsAsciiAlphanumeric(s[i]))
    ensures forall i :: 0 <= i < |s| ==> IsTermChar(r[i]) || r[i] == ' '
    ensures forall i :: 0 <= i < |s| && 'a' <= s[i] <= 'z' ==> r[i] == s[i]
    ensures forall i :: 0 <= i < |s| && 'A' <= s[i] <= 'Z' ==> r[i] as int == s[i] as int + 32
    ensures forall i :: 0 <= i < |s| && '0' <= s[i] <= '9' ==> r[i] == s[i]
  {
    seq(|s|, i requires 0 <= i < |s| => NormalizeChar(s[i]))
  }

  /** Normalising twice changes nothing more than normalising once. */
  lemma NormalizeIdempotent(s: string)
    ensures Normalize(Normalize(s)) == Normalize(s)
  {
  }

  /** The pieces of `s` between occurrences of `sep`, in order, empty pieces
      included; there is always at least one piece. */
  function Split(s: string, sep: char): (r: seq<string>)
    ensures |r| >= 1
    ensures forall p :: p in r ==> sep !in p
    ensures forall p, c :: p in r && c in p ==> c in s
  {
    if s == [] then [[]]
    else
      var rest := Split(s[1..], sep);
      if s[0] == sep then [[]] + rest
      else [[s[0]] + rest[0]] + rest[1..]
  }

  /** Gluing pieces back together with `sep` between them. */
  function Join(ps: seq<string>, sep: char): string
    requires |ps| >= 1
  {
    if |ps| == 1 then ps[0] else ps[0] + [sep] + Join(ps[1..], sep)
  }

  lemma JoinPrependEmpty(ps: seq<string>, sep: char)
    requires |ps| >= 1
    ensures Join([[]] + ps, sep) == [sep] + Join(ps, sep)
  {
    var qs := [[]] + ps;
    assert qs[0] == [] && qs[1..] == ps;
  }

  lemma JoinPrependChar(c: char, ps: seq<string>, sep: char)
    requires |ps| >= 1
    ensures Join([[c] + ps[0]] + ps[1..], sep) == [c] + Join(ps, sep)
  {
    var qs := [[c] + ps[0]] + ps[1..];
    assert qs[0] == [c] + ps[0] && qs[1..] == ps[1..];
  }

  /** Splitting loses nothing: the pieces glue back to the input. */
  lemma {:induction false} JoinSplit(s: string, sep: char)
    ensures Join(Split(s, sep), sep) == s
  {
    if s != [] {
      JoinSplit(s[1..], sep);
      var rest := Split(s[1..], sep);
      if s[0] == sep {
        JoinPrependEmpty(rest, sep);
      } else {
        JoinPrependChar(s[0], rest, sep);
      }
      assert s == [s[0]] + s[1..];
    }
  }

  /** A string without the separator is a single piece. */
  lemma {:induction false} SplitWithoutSep(p: string, sep: char)
    requires sep !in p
    ensures Split(p, sep) == [p]
  {
    if p != [] {
      assert p[1..] + [] == p[1..];
      SplitWithoutSep(p[1..], sep);
      assert p == [p[0]] + p[1..];
    }
  }

  /** A piece followed by the separator splits off as the first piece. */
  lemma {:induction false} SplitAfterPiece(p: string, sep: char, t: string)
    requires sep !in p
    ensures Split(p + [sep] + t, sep) == [p] + Split(t, sep)
  {
    if p == [] {
      assert [] + [sep] + t == [sep] + t;
      assert ([sep] + t)[1..] == t;
    } else {
      SplitAfterPiece(p[1..], sep, t);
      var s := p + [sep] + t;
      assert s[0] == p[0] && s[1..] == p[1..] + [sep] + t;
      assert p == [p[0]] + p[1..];
    }
  }

  /** Splitting undoes gluing whenever no piece contains the separator. */
  lemma {:induction false} SplitJoin(ps: seq<string>, sep: char)
    requires |ps| >= 1
    requires forall p :: p in ps ==> sep !in p
    ensures Split(Join(ps, sep), sep) == ps
  {
    if |ps| == 1 {
      SplitWithoutSep(ps[0], sep);
    } else {
      assert ps[0] in ps;
      assert forall p :: p in ps[1..] ==> p in ps;
      SplitJoin(ps[1..], sep);
      SplitAfterPiece(ps[0], sep, Join(ps[1..], sep));
      assert ps == [ps[0]] + ps[1..];
    }
  }

  /** The pieces longer than one byte, in order. */
  function LongPieces(ps: seq<string>): (r: seq<string>)
    ensures forall t :: t in r <==> t in ps && Utf8Length(t) > 1
  {
    if ps == [] then []
    else (if Utf8Length(ps[0]) > 1 then [ps[0]] else []) + LongPieces(ps[1..])
  }

  /** Keeping the long pieces distributes over concatenation: together with
      the one-piece case this pins down LongPieces as an order-preserving
      filter. */
  lemma {:induction false} LongPiecesAppend(ps: seq<string>, qs: seq<string>)
    ensures LongPieces(ps + qs) == LongPieces(ps) + LongPieces(qs)
  {
    if ps == [] {
      assert ps + qs == qs;
    } else {
      assert (ps + qs)[0] == ps[0] && (ps + qs)[1..] == ps[1..] + qs;
      LongPiecesAppend(ps[1..], qs);
    }
  }

  /** Split on single spaces and keep the tokens longer than one byte. */
  function Tokenize(s: string): (r: seq<string>)
    ensures forall t :: t in r ==> Utf8Length(t) > 1 && t != [] && ' ' !in t
    ensures forall t, c :: t in r && c in t ==> c in s
  {
    LongPieces(Split(s, ' '))
  }

  /** Tokenizing the space-joined pieces yields, in order, exactly the
      pieces longer than one byte. */
  lemma TokenizeJoin(ps: seq<string>)
    requires |ps| >= 1
    requires forall p :: p in ps ==> ' ' !in p
    ensures Tokenize(Join(ps, ' ')) == LongPieces(ps)
  {
    SplitJoin(ps, ' ');
  }

  /** Stemming: the identity in this system. */
  function Stem(t: string): string {
    t
  }

  /** The tokens that are not stopwords, in order. */
  function DropStopwords(ts: seq<string>, stopwords: set<string>): (r: seq<string>)
    ensures forall t :: t in r <==> t in ts && t !in stopwords
  {
    if ts == [] then []
    else (if ts[0] in stopwords then [] else [ts[0]]) + DropStopwords(ts[1..], stopwords)
  }

  /** Keeping the tokens that are not stopwords distributes over
      concatenation: together with the one-token case this pins down
      DropStopwords as an order-preserving filter, so a term's position is
      its index among the surviving tokens. */
  lemma {:induction false} DropStopwordsAppend(xs: seq<string>, ys: seq<string>, stopwords: set<string>)
    ensures DropStopwords(xs + ys, stopwords) == DropStopwords(xs, stopwords) + DropStopwords(ys, stopwords)
  {
    if xs == [] {
      assert xs + ys == ys;
    } else {
      assert (xs + ys)[0] == xs[0] && (xs + ys)[1..] == xs[1..] + ys;
      DropStopwordsAppend(xs[1..], ys, stopwords);
    }
  }

  function StemAll(ts: seq<string>): (r: seq<string>)
    ensures |r| == |ts|
  {
    seq(|ts|, i requires 0 <= i < |ts| => Stem(ts[i]))
  }

  /** The stopword set read from a stopword file: its non-empty lines. */
  function ParseStopwords(text: string): (r: set<string>)
    ensures forall w :: w in r ==> w != [] && '\n' !in w
  {
    set w | w in Split(text, '\n') && w != []
  }

  /** The term stream of a normalised text: its tokens without stopwords,
      stemmed. A term's position is its index in this stream. */
  function Terms(normalized: string, stopwords: set<string>): seq<string> {
    StemAll(DropStopwords(Tokenize(normalized), stopwords))
  }

  /** Stemming changes no term, so the term stream of a text is its
      tokens without stopwords, and a term's position is its index among
      them. */
  lemma StemIsIdentity(normalized: string, stopwords: set<string>)
    ensures forall ts :: StemAll(ts) == ts
    ensures Terms(normalized, stopwords) == DropStopwords(Tokenize(normalized), stopwords)
  {
    forall ts ensures StemAll(ts) == ts {
      assert forall i :: 0 <= i < |ts| ==> StemAll(ts)[i] == ts[i];
    }
  }

  /** Every term indexed from a document is a token of length above one,
      made only of lower-case ASCII letters and digits, and never a
      stopword. */
  lemma TermsAreIndexable(text: string, stopwords: set<string>, t: string)
    requires t in Terms(Normalize(text), stopwords)
    ensures |t| > 1 && t !in stopwords
    ensures forall c :: c in t ==> IsTermChar(c)
  {
    var ts := DropStopwords(Tokenize(Normalize(text)), stopwords);
    var m :| 0 <= m < |ts| && Terms(Normalize(text), stopwords)[m] == t;
    assert ts[m] == t;
    assert t in ts;
    forall c | c in t ensures IsTermChar(c) {
      assert c in Normalize(text) && c != ' ';
    }
    AsciiUtf8Length(t);
  }

  /** Lower-casing leaves an indexed term as it is, so a query term in
      lower case looks up exactly that term. */
  lemma LowerKeepsTerms(t: string)
    requires forall c :: c in t ==> IsTermChar(c)
    ensures Lower(t) == t
  {
    assert forall i :: 0 <= i < |t| ==> t[i] in t;
  }

  /** Lower-casing twice changes nothing more than lower-casing once. */
  lemma LowerIdempotent(s: string)
    ensures Lower(Lower(s)) == Lower(s)
  {
  }

  /** A query word: longer than one byte and free of spaces, so that it
      survives tokenizing as it is. */
  predicate IsWord(w: string) {
    Utf8Length(w) > 1 && ' ' !in w
  }

  lemma {:induction false} LongPiecesOfWords(ws: seq<string>)
    requires forall w :: w in ws ==> Utf8Length(w) > 1
    ensures LongPieces(ws) == ws
  {
    if ws != [] {
      assert ws[0] in ws;
      assert forall w :: w in ws[1..] ==> w in ws;
      LongPiecesOfWords(ws[1..]);
      assert ws == [ws[0]] + ws[1..];
    }
  }

  /** Words joined by single spaces tokenize back to the same words. */
  lemma TokenizeWords(ws: seq<string>)
    requires |ws| >= 1 && forall w :: w in ws ==> IsWord(w)
    ensures Tokenize(Join(ws, ' ')) == ws
  {
    TokenizeJoin(ws);
    LongPiecesOfWords(ws);
  }
}
