/** The question action (app.py:139-174): the sampled text goes through spaCy,
    whose named entities longer than three characters and noun chunks longer than
    five form a pool of subjects without repeats (`dict.fromkeys`), and ten
    questions come from a fixed template over the pool or, when the pool is
    short, from a fixed list of topics. spaCy is an input: a function from text
    to its entities and noun chunks, `None` when it raises. */
module Questions {
  import opened Wrappers
  import opened Seqs
  import opened Text
  import Sampling

  const MinEntityLength: nat := 3
  const MinChunkLength: nat := 5
  /** spaCy sees at most this many characters of the sample. */
  const SampleBudget: nat := 20000
  const QuestionCount: nat := 10
  const ErrorMessage: string := "Analysis error. Please try generating questions again."
  const Topics: seq<string> := ["Objectives", "Methodology", "Data Analysis", "Results", "Stakeholders",
                                "Risks", "Timeline", "Budget", "Conclusion", "Recommendations"]

  /** What spaCy finds in a text: `doc.ents` and `doc.noun_chunks`, as texts. */
  datatype Analysis = Analysis(entities: seq<string>, nounChunks: seq<string>)

  /** `[x for x in xs if len(x) > n]`. */
  function LongerThan(xs: seq<string>, n: nat): (r: seq<string>)
    ensures |r| <= |xs|
    ensures forall x :: x in r <==> x in xs && |x| > n
    ensures |xs| == 1 ==> r == if |xs[0]| > n then [xs[0]] else []
  {
    if xs == [] then []
    else
      var init, x := xs[..|xs| - 1], xs[|xs| - 1];
      assert xs == init + [x];
      LongerThan(init, n) + if |x| > n then [x] else []
  }

  /** The length filter keeps order and multiplicity: filtering two lists one
      after the other is filtering each and concatenating. */
  lemma {:induction false} LongerThanConcat(a: seq<string>, b: seq<string>, n: nat)
    ensures LongerThan(a + b, n) == LongerThan(a, n) + LongerThan(b, n)
  {
    if b == [] {
      assert a + b == a;
    } else {
      var init := b[..|b| - 1];
      assert (a + b)[..|a + b| - 1] == a + init;
      LongerThanConcat(a, init, n);
    }
  }

  /** `list(dict.fromkeys(entities + concepts))` with the two length filters. */
  function Pool(entities: seq<string>, chunks: seq<string>): (pool: seq<string>)
    ensures NoDups(pool)
    ensures |pool| <= |entities| + |chunks|
  {
    Dedup(LongerThan(entities, MinEntityLength) + LongerThan(chunks, MinChunkLength))
  }

  /** A pool entry is either a long entity (a "subject") or only a long noun chunk. */
  predicate IsLongEntity(entities: seq<string>, x: string) {
    x in entities && |x| > MinEntityLength
  }

  /** The pool holds each long entity and each long noun chunk, and nothing else. */
  lemma {:induction false} PoolMembers(entities: seq<string>, chunks: seq<string>, x: string)
    ensures x in Pool(entities, chunks) <==>
              IsLongEntity(entities, x) || (x in chunks && |x| > MinChunkLength)
  {
    var all := LongerThan(entities, MinEntityLength) + LongerThan(chunks, MinChunkLength);
    var pool := Pool(entities, chunks);
    if x in all {
      var k :| 0 <= k < |all| && all[k] == x;
      assert all[k] in pool;
    }
    if x in pool {
      var k :| 0 <= k < |pool| && pool[k] == x;
      assert pool[k] in all;
    }
  }

  /** The pool holds no subject twice and lists the subjects in order of first
      occurrence in the filtered entities followed by the filtered noun chunks. */
  lemma {:induction false} PoolOrder(entities: seq<string>, chunks: seq<string>)
    ensures NoDups(Pool(entities, chunks))
    ensures var all := LongerThan(entities, MinEntityLength) + LongerThan(chunks, MinChunkLength);
      forall i, j :: 0 <= i < j < |Pool(entities, chunks)| ==>
        FirstIndex(all, Pool(entities, chunks)[i]) < FirstIndex(all, Pool(entities, chunks)[j])
  {
    var all := LongerThan(entities, MinEntityLength) + LongerThan(chunks, MinChunkLength);
    DedupKeepsFirstOccurrenceOrder(all);
  }

  /** Every long entity in the pool comes before every entry that is only a noun
      chunk. */
  lemma {:induction false} PoolEntitiesFirst(entities: seq<string>, chunks: seq<string>, i: nat, j: nat)
    requires i < |Pool(entities, chunks)| && j < |Pool(entities, chunks)|
    requires IsLongEntity(entities, Pool(entities, chunks)[j])
    requires !IsLongEntity(entities, Pool(entities, chunks)[i])
    ensures j < i
  {
    var ents := LongerThan(entities, MinEntityLength);
    var all := ents + LongerThan(chunks, MinChunkLength);
    var pool := Pool(entities, chunks);
    PoolOrder(entities, chunks);
    assert pool[i] in all && pool[j] in all;
    assert pool[j] in ents;
    FirstIndexOfPrefix(ents, LongerThan(chunks, MinChunkLength), pool[j]);
    assert pool[i] !in ents;
  }

  /** Question number `k`: `f"{k}. {text}"`. */
  function Item(k: nat, text: string): (q: string)
    ensures Decimal(k) + ". " <= q
    ensures EndsWith(q, text)
  {
    Decimal(k) + ". " + text
  }

  /** The questions numbered from 1 in order. */
  function Numbering(texts: seq<string>): (qs: seq<string>)
    ensures |qs| == |texts|
  {
    seq(|texts|, k requires 0 <= k < |texts| => Item(k + 1, texts[k]))
  }

  /** The texts of the ten questions about the pool's subjects (app.py:156-167). */
  function TemplateTexts(pool: seq<string>): (texts: seq<string>)
    requires |pool| >= QuestionCount
    ensures |texts| == QuestionCount
  {
    [ "How is the concept of " + pool[0] + " introduced and justified in the document?",
      "What are the primary data points or conclusions associated with " + pool[1] + "?",
      "Does the text suggest any specific risks or challenges regarding " + pool[2] + "?",
      "How does " + pool[3] + " impact the overall scope and objectives of the report?",
      "What evidence is provided to support the claims made about " + pool[4] + "?",
      "Are there any notable correlations between " + pool[5] + " and " + pool[6] + " discussed?",
      "How does the author address the long-term implications of " + pool[7] + "?",
      "What methodologies are employed to analyze " + pool[8] + "?",
      "Does the document highlight any specific stakeholders related to " + pool[9] + "?",
      "Based on the summary, what is the final recommendation regarding " + pool[2] + "?" ]
  }

  /** The texts of the ten fallback questions, one per topic (app.py:170-171). */
  function FallbackTexts(): (texts: seq<string>)
    ensures |texts| == QuestionCount
  {
    seq(|Topics|, i requires 0 <= i < |Topics| => "What does the document specify regarding " + Topics[i] + "?")
  }

  /** `x` occurs in `q` at position `i`. */
  predicate OccursAt(q: string, x: string, i: nat) {
    i + |x| <= |q| && q[i..i + |x|] == x
  }

  /** `x` occurs in `q` as a contiguous part. */
  ghost predicate Mentions(q: string, x: string) {
    exists i: nat :: OccursAt(q, x, i)
  }

  lemma {:induction false} MentionsMiddle(a: string, x: string, b: string)
    ensures Mentions(a + x + b, x)
  {
    var q := a + x + b;
    assert q[|a|..|a| + |x|] == x;
    assert OccursAt(q, x, |a|);
  }

  /** A numbered question mentions what its text mentions. */
  lemma {:induction false} MentionsInItem(k: nat, text: string, x: string)
    requires Mentions(text, x)
    ensures Mentions(Item(k, text), x)
  {
    var i: nat :| OccursAt(text, x, i);
    var prefix := Decimal(k) + ". ";
    var q := Item(k, text);
    assert q == prefix + text;
    assert q[|prefix| + i..|prefix| + i + |x|] == text[i..i + |x|];
    assert OccursAt(q, x, |prefix| + i);
  }

  /** Question `q` is number `k`: it starts with `k.` and a space. */
  ghost predicate Numbered(q: string, k: nat) {
    Decimal(k) + ". " <= q
  }

  lemma {:induction false} NumberingNumbered(texts: seq<string>)
    ensures forall k :: 0 <= k < |texts| ==> Numbered(Numbering(texts)[k], k + 1)
  {
    forall k | 0 <= k < |texts|
      ensures Numbered(Numbering(texts)[k], k + 1)
    {
      var prefix := Decimal(k + 1) + ". ";
      assert Numbering(texts)[k] == prefix + texts[k];
    }
  }

  /** The question list for a pool (app.py:155-171): on either path ten
      questions, numbered 1 to 10 in order. */
  function QuestionsFor(pool: seq<string>): (qs: seq<string>)
    ensures |qs| == QuestionCount
    ensures forall k :: 0 <= k < QuestionCount ==> Numbered(qs[k], k + 1)
  {
    var texts := if |pool| >= QuestionCount then TemplateTexts(pool) else FallbackTexts();
    NumberingNumbered(texts);
    Numbering(texts)
  }

  /** With ten or more subjects, question k (k = 1..10) asks about `pool[k - 1]`,
      except that question 6 asks about `pool[5]` and `pool[6]` and question 10
      returns to `pool[2]`; so each of the first ten subjects is asked about. */
  lemma {:induction false} TemplateSubjects(pool: seq<string>)
    requires |pool| >= QuestionCount
    ensures var qs := QuestionsFor(pool);
      && Mentions(qs[0], pool[0]) && Mentions(qs[1], pool[1]) && Mentions(qs[2], pool[2])
      && Mentions(qs[3], pool[3]) && Mentions(qs[4], pool[4])
      && Mentions(qs[5], pool[5]) && Mentions(qs[5], pool[6])
      && Mentions(qs[6], pool[7]) && Mentions(qs[7], pool[8]) && Mentions(qs[8], pool[9])
      && Mentions(qs[9], pool[2])
  {
    var t := TemplateTexts(pool);
    MentionsMiddle("How is the concept of ", pool[0], " introduced and justified in the document?");
    MentionsMiddle("What are the primary data points or conclusions associated with ", pool[1], "?");
    MentionsMiddle("Does the text suggest any specific risks or challenges regarding ", pool[2], "?");
    MentionsMiddle("How does ", pool[3], " impact the overall scope and objectives of the report?");
    MentionsMiddle("What evidence is provided to support the claims made about ", pool[4], "?");
    MentionsMiddle("Are there any notable correlations between ", pool[5], " and " + pool[6] + " discussed?");
    assert t[5] == "Are there any notable correlations between " + pool[5] + (" and " + pool[6] + " discussed?");
    MentionsMiddle("Are there any notable correlations between " + pool[5] + " and ", pool[6], " discussed?");
    MentionsMiddle("How does the author address the long-term implications of ", pool[7], "?");
    MentionsMiddle("What methodologies are employed to analyze ", pool[8], "?");
    MentionsMiddle("Does the document highlight any specific stakeholders related to ", pool[9], "?");
    MentionsMiddle("Based on the summary, what is the final recommendation regarding ", pool[2], "?");
    MentionsInItem(1, t[0], pool[0]);
    MentionsInItem(2, t[1], pool[1]);
    MentionsInItem(3, t[2], pool[2]);
    MentionsInItem(4, t[3], pool[3]);
    MentionsInItem(5, t[4], pool[4]);
    MentionsInItem(6, t[5], pool[5]);
    MentionsInItem(6, t[5], pool[6]);
    MentionsInItem(7, t[6], pool[7]);
    MentionsInItem(8, t[7], pool[8]);
    MentionsInItem(9, t[8], pool[9]);
    MentionsInItem(10, t[9], pool[2]);
  }

  /** With fewer than ten subjects the questions do not depend on the pool. */
  lemma {:induction false} FallbackIgnoresPool(pool: seq<string>, other: seq<string>)
    requires |pool| < QuestionCount && |other| < QuestionCount
    ensures QuestionsFor(pool) == QuestionsFor(other)
    ensures forall k :: 0 <= k < QuestionCount ==> Mentions(QuestionsFor(pool)[k], Topics[k])
  {
    forall k | 0 <= k < QuestionCount
      ensures Mentions(QuestionsFor(pool)[k], Topics[k])
    {
      var text := FallbackTexts()[k];
      MentionsMiddle("What does the document specify regarding ", Topics[k], "?");
      MentionsInItem(k + 1, text, Topics[k]);
    }
  }

  /** What spaCy is given: the first 20000 characters of the page sample. */
  function NlpInput(pages: seq<string>): string {
    Prefix(Sampling.Sample(pages, Sampling.Intervals(|pages|)), SampleBudget)
  }

  /** What the action stores once spaCy has run: the error message when it
      raised, otherwise the questions for the pool of its analysis. */
  function Outcome(analysis: Option<Analysis>): (r: seq<string>)
    ensures r == [ErrorMessage] <==> analysis.None?
    ensures analysis.Some? ==> r == QuestionsFor(Pool(analysis.value.entities, analysis.value.nounChunks))
  {
    match analysis
    case None => [ErrorMessage]
    case Some(a) =>
      var qs := QuestionsFor(Pool(a.entities, a.nounChunks));
      assert |qs| != 1;
      qs
  }

  /** The whole question action for a document whose pages have the given texts,
      with the sampling guard of `Sampling.Sample`; `nlp` is the loaded spaCy
      model, if any. It stores the single error message exactly when spaCy is
      missing or raises, and otherwise the questions for the pool spaCy's
      analysis yields (ten numbered questions, see `QuestionsFor`). */
  function QuestionCache(pages: seq<string>, nlp: Option<string -> Option<Analysis>>): (r: seq<string>)
    ensures r == [ErrorMessage] <==> nlp.None? || nlp.value(NlpInput(pages)).None?
    ensures nlp.Some? && nlp.value(NlpInput(pages)).Some? ==>
              var a := nlp.value(NlpInput(pages)).value;
              r == QuestionsFor(Pool(a.entities, a.nounChunks))
  {
    match nlp
    case None => [ErrorMessage]
    case Some(analyse) => Outcome(analyse(NlpInput(pages)))
  }

  /** The question action as written, with the sampling guard of
      `Sampling.SampleAsWritten`: a page read that raises ends in the error
      message before spaCy runs. It stores the error message exactly when the
      document has no pages or spaCy is missing or raises, and on every
      document with pages it stores what `QuestionCache` stores. */
  function QuestionCacheAsWritten(pages: seq<string>, nlp: Option<string -> Option<Analysis>>): (r: seq<string>)
    ensures r == [ErrorMessage] <==> pages == [] || nlp.None? || nlp.value(NlpInput(pages)).None?
    ensures pages != [] ==> r == QuestionCache(pages, nlp)
  {
    match Sampling.SampleAsWritten(pages, Sampling.Intervals(|pages|))
    case None => [ErrorMessage]
    case Some(sample) =>
      Sampling.AsWrittenAgreesWithPages(pages);
      match nlp
      case None => [ErrorMessage]
      case Some(analyse) => Outcome(analyse(Prefix(sample, SampleBudget)))
  }
}
