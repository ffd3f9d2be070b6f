/** The ranking part of `extract_scope_keywords` (app.py:50-56): keep the nouns and
    proper nouns that are not stop words and are longer than four characters,
    rank them as `Counter(words).most_common(12)` does and upper-case them. The
    spaCy tagger is an input: a function from text to tokens, `None` when it fails. */
module Keywords {
  import opened Wrappers
  import opened Seqs
  import opened Text

  /** A spaCy token: its text, its coarse part of speech (`pos_`) and `is_stop`. */
  datatype Token = Token(text: string, pos: string, isStop: bool)

  const MaxKeywords: nat := 12
  /** The tagger sees at most this many characters of the text. */
  const TaggerBudget: nat := 25000
  /** Keywords are strictly longer than this. */
  const MinKeywordLength: nat := 4

  predicate IsCandidate(t: Token) {
    (t.pos == "NOUN" || t.pos == "PROPN") && !t.isStop && |t.text| > MinKeywordLength
  }

  /** The list comprehension of app.py:54: the texts of the candidate tokens, in order. */
  function Candidates(tokens: seq<Token>): (words: seq<string>)
    ensures |words| <= |tokens|
    ensures forall w :: w in words <==> exists k :: 0 <= k < |tokens| && IsCandidate(tokens[k]) && tokens[k].text == w
    ensures |tokens| == 1 ==> words == if IsCandidate(tokens[0]) then [tokens[0].text] else []
  {
    if tokens == [] then []
    else
      var init, t := tokens[..|tokens| - 1], tokens[|tokens| - 1];
      assert forall k :: 0 <= k < |init| ==> init[k] == tokens[k];
      Candidates(init) + (if IsCandidate(t) then [t.text] else [])
  }

  /** The comprehension is an order-preserving filter: the candidates of two
      token lists one after the other are those of the first followed by those
      of the second, so each candidate token contributes one occurrence, in
      token order. */
  lemma {:induction false} CandidatesConcat(a: seq<Token>, b: seq<Token>)
    ensures Candidates(a + b) == Candidates(a) + Candidates(b)
  {
    if b == [] {
      assert a + b == a;
    } else {
      var init := b[..|b| - 1];
      assert (a + b)[..|a + b| - 1] == a + init;
      CandidatesConcat(a, init);
    }
  }

  /** `a` comes before `b` in `Counter(words).most_common()`: it occurs more often,
      or as often and was seen first. */
  predicate RanksBefore(words: seq<string>, a: string, b: string) {
    a in words && b in words &&
    (Count(words, a) > Count(words, b) ||
     (Count(words, a) == Count(words, b) && FirstIndex(words, a) < FirstIndex(words, b)))
  }

  /** `s` is listed in `most_common` order. */
  predicate Ranked(words: seq<string>, s: seq<string>) {
    forall i, j :: 0 <= i < j < |s| ==> RanksBefore(words, s[i], s[j])
  }

  /** Stable insertion by descending count: `w` goes after every element that
      occurs at least as often. */
  function Insert(words: seq<string>, w: string, s: seq<string>): (r: seq<string>)
    ensures |r| == |s| + 1
    ensures multiset(r) == multiset(s) + multiset{w}
    ensures forall x :: x in r <==> x == w || x in s
  {
    if s == [] then [w]
    else if Count(words, s[0]) >= Count(words, w) then
      assert s == [s[0]] + s[1..];
      [s[0]] + Insert(words, w, s[1..])
    else [w] + s
  }

  /** Stable sort of `ws` by descending count in `words` (Python's `sorted` with
      `reverse=True` keeps equal elements in their original order). */
  function SortByCount(words: seq<string>, ws: seq<string>): (r: seq<string>)
    ensures |r| == |ws|
    ensures multiset(r) == multiset(ws)
    ensures forall x :: x in r <==> x in ws
  {
    if ws == [] then []
    else
      var init := ws[..|ws| - 1];
      assert ws == init + [ws[|ws| - 1]];
      Insert(words, ws[|ws| - 1], SortByCount(words, init))
  }

  /** `[w for w, count in Counter(words).most_common(n)]`. */
  function MostCommon(words: seq<string>, n: nat): (r: seq<string>)
    ensures |r| <= n
    ensures forall i :: 0 <= i < |r| ==> r[i] in words
  {
    var all := SortByCount(words, Dedup(words));
    DedupSubset(words);
    if |all| <= n then all else all[..n]
  }

  lemma RankedTail(words: seq<string>, s: seq<string>)
    requires s != [] && Ranked(words, s)
    ensures Ranked(words, s[1..])
  {
    var tail := s[1..];
    forall i, j | 0 <= i < j < |tail|
      ensures RanksBefore(words, tail[i], tail[j])
    {
      assert tail[i] == s[i + 1] && tail[j] == s[j + 1];
    }
  }

  lemma RankedCons(words: seq<string>, x: string, s: seq<string>)
    requires Ranked(words, s)
    requires forall j :: 0 <= j < |s| ==> RanksBefore(words, x, s[j])
    ensures Ranked(words, [x] + s)
  {
    var r := [x] + s;
    forall i, j | 0 <= i < j < |r|
      ensures RanksBefore(words, r[i], r[j])
    {
      if i == 0 {
        assert r[j] == s[j - 1];
      } else {
        assert r[i] == s[i - 1] && r[j] == s[j - 1];
      }
    }
  }

  /** Inserting a word seen after every element of a ranked list keeps it ranked. */
  lemma {:induction false} InsertRanked(words: seq<string>, w: string, s: seq<string>)
    requires Ranked(words, s)
    requires w in words && w !in s
    requires forall x :: x in s ==> x in words && FirstIndex(words, x) < FirstIndex(words, w)
    ensures Ranked(words, Insert(words, w, s))
  {
    if s == [] {
    } else if Count(words, s[0]) >= Count(words, w) {
      var tail := s[1..];
      RankedTail(words, s);
      InsertRanked(words, w, tail);
      var rest := Insert(words, w, tail);
      forall j | 0 <= j < |rest|
        ensures RanksBefore(words, s[0], rest[j])
      {
        if rest[j] == w {
          assert s[0] in s;
        } else {
          assert rest[j] in tail;
          var k :| 0 <= k < |tail| && tail[k] == rest[j];
          assert s[k + 1] == rest[j];
        }
      }
      RankedCons(words, s[0], rest);
    } else {
      forall j | 0 <= j < |s|
        ensures RanksBefore(words, w, s[j])
      {
        if j > 0 {
          assert RanksBefore(words, s[0], s[j]);
        }
      }
      RankedCons(words, w, s);
    }
  }

  /** Sorting a list of distinct words given in order of first occurrence yields
      the `most_common` order. */
  lemma {:induction false} SortByCountRanked(words: seq<string>, ws: seq<string>)
    requires forall i :: 0 <= i < |ws| ==> ws[i] in words
    requires forall i, j :: 0 <= i < j < |ws| ==> FirstIndex(words, ws[i]) < FirstIndex(words, ws[j])
    ensures Ranked(words, SortByCount(words, ws))
  {
    if ws != [] {
      var init, w := ws[..|ws| - 1], ws[|ws| - 1];
      SortByCountRanked(words, init);
      var s := SortByCount(words, init);
      forall x | x in s
        ensures x in words && FirstIndex(words, x) < FirstIndex(words, w)
      {
        var k :| 0 <= k < |init| && init[k] == x;
        assert ws[k] == x;
      }
      InsertRanked(words, w, s);
    }
  }

  /** What `most_common(n)` promises: the `min(n, distinct)` highest-ranked words,
      each from `words`, in descending count with ties in first-seen order, and
      every word left out ranks after every word chosen. */
  lemma MostCommonSpec(words: seq<string>, n: nat)
    ensures |MostCommon(words, n)| == if |Dedup(words)| <= n then |Dedup(words)| else n
    ensures Ranked(words, MostCommon(words, n))
    ensures NoDups(MostCommon(words, n))
    ensures forall i :: 0 <= i < |MostCommon(words, n)| ==> MostCommon(words, n)[i] in words
    ensures forall w, i :: w in words && w !in MostCommon(words, n) && 0 <= i < |MostCommon(words, n)| ==>
              RanksBefore(words, MostCommon(words, n)[i], w)
  {
    var d := Dedup(words);
    DedupKeepsFirstOccurrenceOrder(words);
    SortByCountRanked(words, d);
    var all := SortByCount(words, d);
    var r := MostCommon(words, n);
    assert r == all[..|r|];
    forall i, j | 0 <= i < j < |r|
      ensures r[i] != r[j]
    {
      assert RanksBefore(words, r[i], r[j]);
    }
    MostCommonLeftOut(words, n);
  }

  /** A word `most_common(n)` leaves out ranks after every word it keeps. */
  lemma MostCommonLeftOut(words: seq<string>, n: nat)
    requires Ranked(words, SortByCount(words, Dedup(words)))
    ensures forall w, i :: w in words && w !in MostCommon(words, n) && 0 <= i < |MostCommon(words, n)| ==>
              RanksBefore(words, MostCommon(words, n)[i], w)
  {
    var d := Dedup(words);
    var all := SortByCount(words, d);
    var r := MostCommon(words, n);
    assert r == all[..|r|];
    forall w, i | w in words && w !in r && 0 <= i < |r|
      ensures RanksBefore(words, r[i], w)
    {
      var k := FirstIndex(words, w);
      assert words[k] in d;
      var j :| 0 <= j < |all| && all[j] == w;
      assert j >= |r|;
    }
  }

  /** `[w.upper() for w in ws]`. */
  function Uppercased(ws: seq<string>): (r: seq<string>)
    ensures |r| == |ws|
    ensures forall i :: 0 <= i < |ws| ==> r[i] == Upper(ws[i])
  {
    seq(|ws|, i requires 0 <= i < |ws| => Upper(ws[i]))
  }

  /** The keywords spaCy's tokens yield. */
  function KeywordsFromTokens(tokens: seq<Token>): (r: seq<string>)
    ensures |r| <= MaxKeywords
  {
    Uppercased(MostCommon(Candidates(tokens), MaxKeywords))
  }

  /** The keywords are the `most_common(12)` candidate words, upper-cased in
      place: as many as there are distinct candidates, at most twelve, ranked
      by descending count with ties in order of first occurrence, and every
      candidate left out ranks after every one kept. Each keyword is the
      upper-cased text of a candidate token, and when the token texts have no
      upper-case letters (the tagger sees lower-cased text) no keyword repeats. */
  lemma KeywordsFromTokensSpec(tokens: seq<Token>)
    ensures var words, top := Candidates(tokens), MostCommon(Candidates(tokens), MaxKeywords);
      && KeywordsFromTokens(tokens) == Uppercased(top)
      && |top| == (if |Dedup(words)| <= MaxKeywords then |Dedup(words)| else MaxKeywords)
      && Ranked(words, top)
      && NoDups(top)
      && (forall w, i :: w in words && w !in top && 0 <= i < |top| ==> RanksBefore(words, top[i], w))
    ensures forall i :: 0 <= i < |KeywordsFromTokens(tokens)| ==>
              exists k :: 0 <= k < |tokens| && IsCandidate(tokens[k]) &&
                KeywordsFromTokens(tokens)[i] == Upper(tokens[k].text)
    ensures (forall k :: 0 <= k < |tokens| ==> HasNoAsciiUpper(tokens[k].text)) ==>
              NoDups(KeywordsFromTokens(tokens))
  {
    var words := Candidates(tokens);
    var top := MostCommon(words, MaxKeywords);
    MostCommonSpec(words, MaxKeywords);
    var r := KeywordsFromTokens(tokens);
    forall i | 0 <= i < |r|
      ensures exists k :: 0 <= k < |tokens| && IsCandidate(tokens[k]) && r[i] == Upper(tokens[k].text)
    {
      assert top[i] in words;
    }
    if forall k :: 0 <= k < |tokens| ==> HasNoAsciiUpper(tokens[k].text) {
      forall i, j | 0 <= i < j < |r|
        ensures r[i] != r[j]
      {
        assert top[i] in words && top[j] in words;
        if r[i] == r[j] {
          UpperInjectiveOnLower(top[i], top[j]);
        }
      }
    }
  }

  /** `extract_scope_keywords(text)`: `nlp` is the loaded spaCy model, if any; it
      tags the lower-cased first 25000 characters, `None` when it raises. Either
      failure yields no keywords; otherwise the keywords are those of the tokens,
      with the ranking `KeywordsFromTokensSpec` states. */
  function ExtractScopeKeywords(nlp: Option<string -> Option<seq<Token>>>, text: string): (r: seq<string>)
    ensures nlp.None? || nlp.value(Lower(Prefix(text, TaggerBudget))).None? ==> r == []
    ensures nlp.Some? && nlp.value(Lower(Prefix(text, TaggerBudget))).Some? ==>
              r == KeywordsFromTokens(nlp.value(Lower(Prefix(text, TaggerBudget))).value)
    ensures |r| <= MaxKeywords
  {
    match nlp
    case None => []
    case Some(tag) =>
      match tag(Lower(Prefix(text, TaggerBudget)))
      case None => []
      case Some(tokens) => KeywordsFromTokens(tokens)
  }
}
