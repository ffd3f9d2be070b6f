/** The per-session state of app.py (`st.session_state`): three result caches and
    the name of the document they belong to (app.py:15-18), the automatic reset
    when a different file is uploaded (app.py:78-84) and the writes that fill the
    caches (app.py:113-114, 156, 171, 174), together with the two actions that
    compute what is stored. */
module Session {
  import opened Wrappers
  import opened Text
  import Summary
  import Keywords
  import Questions

  class SessionState {
    var summaryCache: string
    var keywordsCache: seq<string>
    var questionCache: seq<string>
    /** `None` until the first upload of the session. */
    var lastUploadedFile: Option<string>

    /** No cached result exists without a document it was computed for. */
    ghost predicate Valid()
      reads this
    {
      lastUploadedFile.None? ==> summaryCache == "" && keywordsCache == [] && questionCache == []
    }

    /** The first run of the script: every cache empty, no file seen. */
    constructor ()
      ensures Valid()
      ensures summaryCache == "" && keywordsCache == [] && questionCache == []
      ensures lastUploadedFile == None
    {
      summaryCache := "";
      keywordsCache := [];
      questionCache := [];
      lastUploadedFile := None;
    }

    /** A file named `name` is present in the uploader. If it is not the file the
        caches belong to, they are emptied, the name is recorded and the script
        reruns (`rerun`); otherwise nothing changes. */
    method OnUpload(name: string) returns (rerun: bool)
      requires Valid()
      modifies this
      ensures Valid()
      ensures rerun <==> old(lastUploadedFile) != Some(name)
      ensures lastUploadedFile == Some(name)
      ensures rerun ==> summaryCache == "" && keywordsCache == [] && questionCache == []
      ensures !rerun ==> unchanged(this)
    {
      rerun := lastUploadedFile != Some(name);
      if rerun {
        summaryCache := "";
        keywordsCache := [];
        questionCache := [];
        lastUploadedFile := Some(name);
      }
    }

    /** The summary action stores its summary and keywords. It only runs while a
        document is loaded, that is after `OnUpload`. */
    method StoreAnalysis(summary: string, keywords: seq<string>)
      requires Valid() && lastUploadedFile.Some?
      modifies this`summaryCache, this`keywordsCache
      ensures Valid()
      ensures summaryCache == summary && keywordsCache == keywords
    {
      summaryCache := summary;
      keywordsCache := keywords;
    }

    /** The question action stores its questions (or its error message). */
    method StoreQuestions(questions: seq<string>)
      requires Valid() && lastUploadedFile.Some?
      modifies this`questionCache
      ensures Valid()
      ensures questionCache == questions
    {
      questionCache := questions;
    }

    /** The summary action (app.py:98-114) on a document whose pages have the
        texts `pageTexts`: the full text is the page texts joined by spaces, the
        text splitter's chunks of it are `chunks`, and `summarize` and `tagger`
        stand for the summarisation model and spaCy. The summary cache receives
        the assembled sections and the keyword cache the scope keywords of the
        full text. */
    method RunSummaryAction(pageTexts: seq<string>, chunks: seq<string>,
                            summarize: string -> Option<string>,
                            tagger: Option<string -> Option<seq<Keywords.Token>>>)
      requires Valid() && lastUploadedFile.Some?
      modifies this`summaryCache, this`keywordsCache
      ensures Valid()
      ensures summaryCache ==
                Join(Summary.SectionsUpTo(chunks, summarize, Summary.Limit(chunks)), Summary.SectionSeparator)
      ensures keywordsCache == Keywords.ExtractScopeKeywords(tagger, Join(pageTexts, " "))
      ensures |keywordsCache| <= Keywords.MaxKeywords
    {
      var fullText := Join(pageTexts, " ");
      var summary;
      ghost var calls;
      summary, calls := Summary.AssembleSummary(chunks, summarize);
      StoreAnalysis(summary, Keywords.ExtractScopeKeywords(tagger, fullText));
    }

    /** The question action (app.py:136-174) on a document whose pages have the
        given texts, `nlp` standing for spaCy: the question cache receives what
        the program stores, `Questions.QuestionCacheAsWritten`, which is the
        error message for a document without pages and, on every document with
        pages, what `Questions.QuestionCache` describes. */
    method RunQuestionAction(pages: seq<string>, nlp: Option<string -> Option<Questions.Analysis>>)
      requires Valid() && lastUploadedFile.Some?
      modifies this`questionCache
      ensures Valid()
      ensures questionCache == Questions.QuestionCacheAsWritten(pages, nlp)
      ensures pages != [] ==> questionCache == Questions.QuestionCache(pages, nlp)
    {
      StoreQuestions(Questions.QuestionCacheAsWritten(pages, nlp));
    }
  }
}
