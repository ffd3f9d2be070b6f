/** The chunk-summary assembly of the summary action (app.py:105-113): the first
    ten chunks go through the summarisation model one by one, a chunk whose call
    raises is skipped, every other one becomes a section labelled with its own
    1-based chunk number, and the sections are joined by blank lines. The text
    splitter and the model are inputs: `chunks`, and `summarize`, which is `None`
    where the model raises. */
module Summary {
  import opened Wrappers
  import opened Text

  const MaxChunks: nat := 10
  const SectionSeparator: string := "\n\n"

  /** `min(len(chunks), 10)`. */
  function Limit(chunks: seq<string>): (n: nat)
    ensures n <= |chunks| && n <= MaxChunks
    ensures n == |chunks| || n == MaxChunks
  {
    if |chunks| < MaxChunks then |chunks| else MaxChunks
  }

  /** `f"**Section {i+1}:** {s}"`. */
  function SectionLabel(i: nat, s: string): (r: string)
    ensures |r| > |s| && EndsWith(r, s)
  {
    "**Section " + Decimal(i + 1) + ":** " + s
  }

  /** The sections the first `k` chunks contribute, in chunk order; each is
      non-empty, since it carries its label. */
  function SectionsUpTo(chunks: seq<string>, summarize: string -> Option<string>, k: nat): (r: seq<string>)
    requires k <= |chunks|
    ensures forall j :: 0 <= j < |r| ==> r[j] != ""
  {
    if k == 0 then []
    else
      SectionsUpTo(chunks, summarize, k - 1) +
      match summarize(chunks[k - 1])
      case Some(s) => [SectionLabel(k - 1, s)]
      case None => []
  }

  /** The chunk numbers among the first `k` whose summary succeeded, in order. */
  function SurvivorsUpTo(chunks: seq<string>, summarize: string -> Option<string>, k: nat): seq<nat>
    requires k <= |chunks|
  {
    if k == 0 then []
    else
      SurvivorsUpTo(chunks, summarize, k - 1) +
      if summarize(chunks[k - 1]).Some? then [k - 1] else []
  }

  /** The sections are exactly the successful chunks among the first `k`, in
      increasing chunk order, each labelled with its own chunk number, so the
      numbering skips the chunks that failed. */
  lemma {:induction false} SectionsSpec(chunks: seq<string>, summarize: string -> Option<string>, k: nat)
    requires k <= |chunks|
    ensures var sections, idx := SectionsUpTo(chunks, summarize, k), SurvivorsUpTo(chunks, summarize, k);
      && |sections| == |idx| <= k
      && (forall j :: 0 <= j < |idx| ==>
            idx[j] < k && summarize(chunks[idx[j]]).Some? &&
            sections[j] == SectionLabel(idx[j], summarize(chunks[idx[j]]).value))
      && (forall j, l :: 0 <= j < l < |idx| ==> idx[j] < idx[l])
      && (forall i :: 0 <= i < k && summarize(chunks[i]).Some? ==> i in idx)
  {
    if k > 0 {
      SectionsSpec(chunks, summarize, k - 1);
      var idx := SurvivorsUpTo(chunks, summarize, k);
      forall i | 0 <= i < k && summarize(chunks[i]).Some?
        ensures i in idx
      {
        if i == k - 1 {
          assert idx[|idx| - 1] == i;
        } else {
          assert i in SurvivorsUpTo(chunks, summarize, k - 1);
        }
      }
    }
  }

  /** The summary is empty exactly when no chunk among the first `k` succeeded. */
  lemma {:induction false} SectionsEmptyIff(chunks: seq<string>, summarize: string -> Option<string>, k: nat)
    requires k <= |chunks|
    ensures SectionsUpTo(chunks, summarize, k) == [] <==> forall i :: 0 <= i < k ==> summarize(chunks[i]).None?
  {
    if k > 0 {
      SectionsEmptyIff(chunks, summarize, k - 1);
    }
  }

  /** The summary loop. `calls` is the sequence of chunks handed to the model. */
  method AssembleSummary(chunks: seq<string>, summarize: string -> Option<string>)
    returns (summary: string, ghost calls: seq<string>)
    ensures calls == chunks[..Limit(chunks)]
    ensures summary == Join(SectionsUpTo(chunks, summarize, Limit(chunks)), SectionSeparator)
    ensures summary == "" <==> forall i :: 0 <= i < Limit(chunks) ==> summarize(chunks[i]).None?
  {
    var summaries: seq<string> := [];
    var limit := Limit(chunks);
    calls := [];
    for i := 0 to limit
      invariant summaries == SectionsUpTo(chunks, summarize, i)
      invariant calls == chunks[..i]
    {
      var r := summarize(chunks[i]);
      calls := calls + [chunks[i]];
      match r {
        case Some(s) =>
          summaries := summaries + [SectionLabel(i, s)];
        case None =>
      }
    }
    summary := Join(summaries, SectionSeparator);
    JoinEmptyIff(summaries, SectionSeparator);
    SectionsEmptyIff(chunks, summarize, limit);
  }
}
