/** The page sampling of the question action (app.py:141-146): five points of the
    document (start, 25%, 50%, 75%, end) are read, in that order and with
    repeats, and each non-empty page text is appended followed by one space.
    Page texts are an input (pdfplumber's `extract_text()`, with `None` read as
    the empty string; both are skipped alike). */
module Sampling {
  import opened Wrappers

  /** `[0, N//4, N//2, (3*N)//4, N-1]`; `//` on non-negative operands is `/`. */
  function Intervals(n: nat): (r: seq<int>)
    ensures |r| == 5
    ensures n >= 1 ==> forall i :: 0 <= i < 5 ==> 0 <= r[i] < n
    ensures n == 0 ==> r[4] == -1
  {
    [0, n / 4, n / 2, (3 * n) / 4, n - 1]
  }

  /** For a document with pages: five indices, from the first page to the last,
      never decreasing, all within the document. */
  lemma IntervalsSpec(n: nat)
    requires n >= 1
    ensures |Intervals(n)| == 5
    ensures Intervals(n)[0] == 0 && Intervals(n)[4] == n - 1
    ensures forall i :: 0 <= i < 5 ==> 0 <= Intervals(n)[i] < n
    ensures forall i, j :: 0 <= i <= j < 5 ==> Intervals(n)[i] <= Intervals(n)[j]
  {
    assert n / 4 <= n / 2 <= (3 * n) / 4 <= n - 1;
  }

  /** Python's `pages[i]`: negative indices count from the end; `None` is an
      IndexError. */
  function PyIndex(pages: seq<string>, i: int): (r: Option<string>)
    ensures r.None? <==> i < -|pages| || i >= |pages|
  {
    if 0 <= i < |pages| then Some(pages[i])
    else if -|pages| <= i < 0 then Some(pages[|pages| + i])
    else None
  }

  /** A page's contribution to the sample: its text and a space, or nothing. */
  function Contribution(page: string): string {
    if page != "" then page + " " else ""
  }

  /** The loop of app.py:143-146 as written, over the indices `idxs`: an index
      below the page count is read (a negative one the Python way), and a read
      that raises aborts the whole action (`None`). */
  function SampleAsWritten(pages: seq<string>, idxs: seq<int>): (r: Option<string>)
    ensures r.None? <==> exists i :: 0 <= i < |idxs| && idxs[i] < -|pages|
  {
    if idxs == [] then Some("")
    else
      match SampleAsWritten(pages, idxs[..|idxs| - 1])
      case None => None
      case Some(acc) =>
        var pg := idxs[|idxs| - 1];
        if pg < |pages| then
          match PyIndex(pages, pg)
          case None => None
          case Some(page) => Some(acc + Contribution(page))
        else Some(acc)
  }

  /** Every sample point inside the document lands on an empty page. */
  predicate NothingToSample(pages: seq<string>, idxs: seq<int>) {
    forall i :: 0 <= i < |idxs| && 0 <= idxs[i] < |pages| ==> pages[idxs[i]] == ""
  }

  /** The loop with the guard it evidently intends, `0 <= pg_num < total_pages`:
      indices outside the document are skipped. */
  function Sample(pages: seq<string>, idxs: seq<int>): string {
    if idxs == [] then ""
    else
      var pg := idxs[|idxs| - 1];
      Sample(pages, idxs[..|idxs| - 1]) + if 0 <= pg < |pages| then Contribution(pages[pg]) else ""
  }

  /** The sampling loop as written. */
  method SampleTextAsWritten(pages: seq<string>) returns (r: Option<string>)
    ensures r == SampleAsWritten(pages, Intervals(|pages|))
  {
    var intervals := Intervals(|pages|);
    var sample := "";
    for k := 0 to |intervals|
      invariant SampleAsWritten(pages, intervals[..k]) == Some(sample)
    {
      var pg := intervals[k];
      ghost var before := sample;
      assert intervals[..k + 1][..k] == intervals[..k];
      if pg < |pages| {
        var page := PyIndex(pages, pg);
        if page.None? {
          NoneAbsorbs(pages, intervals[..k + 1], intervals[k + 1..]);
          assert intervals[..k + 1] + intervals[k + 1..] == intervals;
          return None;
        }
        if page.value != "" {
          sample := sample + (page.value + " ");
        }
        assert sample == before + Contribution(page.value);
      } else {
        assert sample == before;
      }
    }
    assert intervals[..|intervals|] == intervals;
    r := Some(sample);
  }

  /** Once a read has raised, the rest of the loop does not run. */
  lemma {:induction false} NoneAbsorbs(pages: seq<string>, done: seq<int>, rest: seq<int>)
    requires SampleAsWritten(pages, done).None?
    ensures SampleAsWritten(pages, done + rest).None?
  {
    if rest != [] {
      assert (done + rest)[..|done + rest| - 1] == done + rest[..|rest| - 1];
      NoneAbsorbs(pages, done, rest[..|rest| - 1]);
    } else {
      assert done + rest == done;
    }
  }

  /** The sampling loop with the intended guard; the question action uses this one. */
  method SampleText(pages: seq<string>) returns (sample: string)
    ensures sample == Sample(pages, Intervals(|pages|))
  {
    var intervals := Intervals(|pages|);
    sample := "";
    for k := 0 to |intervals|
      invariant sample == Sample(pages, intervals[..k])
    {
      assert intervals[..k + 1][..k] == intervals[..k];
      var pg := intervals[k];
      if 0 <= pg < |pages| {
        var page := pages[pg];
        if page != "" {
          sample := sample + (page + " ");
        }
      }
    }
    assert intervals[..|intervals|] == intervals;
  }

  /** With non-negative indices the guard as written and the intended one agree. */
  lemma {:induction false} AsWrittenAgrees(pages: seq<string>, idxs: seq<int>)
    requires forall i :: 0 <= i < |idxs| ==> idxs[i] >= 0
    ensures SampleAsWritten(pages, idxs) == Some(Sample(pages, idxs))
  {
    if idxs != [] {
      var init := idxs[..|idxs| - 1];
      assert forall i :: 0 <= i < |init| ==> init[i] == idxs[i];
      AsWrittenAgrees(pages, init);
      var pg := idxs[|idxs| - 1];
      assert pg >= 0;
      var acc := Sample(pages, init);
      assert SampleAsWritten(pages, init) == Some(acc);
      if pg < |pages| {
        assert PyIndex(pages, pg) == Some(pages[pg]);
        assert SampleAsWritten(pages, idxs) == Some(acc + Contribution(pages[pg]));
        assert Sample(pages, idxs) == acc + Contribution(pages[pg]);
      } else {
        assert SampleAsWritten(pages, idxs) == Some(acc);
        assert Sample(pages, idxs) == acc + "" == acc;
      }
    }
  }

  /** The discrepancy: for a document without pages the guard lets index -1
      through, `pages[-1]` raises and the question action ends in its error
      message, where the intended guard gives the empty sample. */
  lemma AsWrittenFailsWithoutPages()
    ensures SampleAsWritten([], Intervals(0)) == None
    ensures Sample([], Intervals(0)) == ""
  {
    var idxs := Intervals(0);
    var init := idxs[..4];
    assert init == [0, 0, 0, 0];
    AsWrittenAgrees([], init);
    assert idxs == init + [-1];
    assert PyIndex([], -1) == None;
    assert Sample([], idxs) == "" by {
      SampleConcat([], init, [-1]);
      SampleOne([], -1);
      SampleEmptyDocument(init);
    }
  }

  /** The sample is empty exactly when every sample point inside the document
      lands on an empty page. */
  lemma {:induction false} SampleEmptyIff(pages: seq<string>, idxs: seq<int>)
    ensures Sample(pages, idxs) == "" <==> NothingToSample(pages, idxs)
  {
    if idxs != [] {
      var init := idxs[..|idxs| - 1];
      SampleEmptyIff(pages, init);
      assert forall i :: 0 <= i < |init| ==> init[i] == idxs[i];
    }
  }

  lemma {:induction false} SampleEmptyDocument(idxs: seq<int>)
    ensures Sample([], idxs) == ""
  {
    if idxs != [] {
      SampleEmptyDocument(idxs[..|idxs| - 1]);
    }
  }

  /** On every document with pages the loop as written and the intended one agree. */
  lemma AsWrittenAgreesWithPages(pages: seq<string>)
    requires pages != []
    ensures SampleAsWritten(pages, Intervals(|pages|)) == Some(Sample(pages, Intervals(|pages|)))
  {
    IntervalsSpec(|pages|);
    AsWrittenAgrees(pages, Intervals(|pages|));
  }

  /** The sample is the samples of its parts, one after the other. */
  lemma {:induction false} SampleConcat(pages: seq<string>, a: seq<int>, b: seq<int>)
    ensures Sample(pages, a + b) == Sample(pages, a) + Sample(pages, b)
  {
    if b == [] {
      assert a + b == a;
    } else {
      var init, pg := b[..|b| - 1], b[|b| - 1];
      var c := if 0 <= pg < |pages| then Contribution(pages[pg]) else "";
      assert (a + b)[..|a + b| - 1] == a + init;
      assert (a + b)[|a + b| - 1] == pg;
      SampleConcat(pages, a, init);
      assert Sample(pages, a + b) == Sample(pages, a + init) + c;
      assert Sample(pages, b) == Sample(pages, init) + c;
    }
  }

  lemma SampleOne(pages: seq<string>, pg: int)
    ensures Sample(pages, [pg]) == if 0 <= pg < |pages| then Contribution(pages[pg]) else ""
  {
    assert [pg][..0] == [];
  }

  /** The sample of a document with pages is the five sampled pages' contributions
      in order, repeats included: it starts with the first page and ends with the
      last one. */
  lemma SampleOfDocument(pages: seq<string>)
    requires pages != []
    ensures var n := |pages|;
      Sample(pages, Intervals(n)) ==
        Contribution(pages[0]) + Contribution(pages[n / 4]) + Contribution(pages[n / 2]) +
        Contribution(pages[(3 * n) / 4]) + Contribution(pages[n - 1])
  {
    var n := |pages|;
    IntervalsSpec(n);
    var a, b, c, d, e := 0, n / 4, n / 2, (3 * n) / 4, n - 1;
    assert Intervals(n) == [a] + [b] + [c] + [d] + [e];
    SampleConcat(pages, [a] + [b] + [c] + [d], [e]);
    SampleConcat(pages, [a] + [b] + [c], [d]);
    SampleConcat(pages, [a] + [b], [c]);
    SampleConcat(pages, [a], [b]);
    SampleOne(pages, a);
    SampleOne(pages, b);
    SampleOne(pages, c);
    SampleOne(pages, d);
    SampleOne(pages, e);
  }

  /** A one-page document is sampled five times over. */
  lemma SampleOfOnePage(page: string)
    ensures Sample([page], Intervals(1)) == if page == "" then "" else
      page + " " + page + " " + page + " " + page + " " + page + " "
  {
    SampleOfDocument([page]);
  }
}
