/**
 * The POST branch of the page handler (`index` in app.py): the guard on the
 * form fields, the narrowing of the requested tags, then masking and the
 * dependency listing over the annotated input. The annotation of
 * `input_text` is a parameter; form access and template rendering are
 * reduced to the page's contents.
 */
module Request {

  import opened Annotation
  import opened TextFormat
  import opened Cloze
  import opened TagFilter
  import opened Dependencies

  datatype HttpMethod = Get | Post

  /** What the handler renders. */
  datatype Page =
    | Form
      // the bare form: a GET, or a POST that fails the guard
    | Results(inputText: string, masked: string, answerKey: map<int, string>, dependencies: seq<Dependency>)
    | Failed
      // an exception escaped the handler: the IndexError of the dependency listing

  /** Both fields present and non-empty: some text and at least one ticked box. */
  predicate Guard(inputText: string, rawTags: seq<string>)
  {
    inputText != "" && rawTags != []
  }

  /**
   * The page for one request. `doc` is the annotation of `inputText` (the
   * handler annotates the same text once for masking and once for the
   * listing; the annotator is deterministic, so both see `doc`).
   */
  method Index(m: HttpMethod, inputText: string, rawTags: seq<string>, doc: Document) returns (page: Page)
    ensures page.Form? <==> !(m == Post && Guard(inputText, rawTags))
    ensures page.Failed? <==> m == Post && Guard(inputText, rawTags) && !HeadsResolvable(doc)
    ensures page.Results? ==>
              && page.inputText == inputText
              && page.masked == Join(Rendered(Tokens(Flatten(doc), Recognized(rawTags))))
              && page.answerKey == AnswerKey(Flatten(doc), Recognized(rawTags))
              && HeadsResolvable(doc)
              && page.dependencies == Entries(doc)
  {
    if m == Post {
      if inputText != "" && rawTags != [] {
        var posToMask := Recognized(rawTags);
        var masked, answerKey := AnalyzeAndMask(doc, posToMask);
        var listing := AnalyzeDependencies(doc);
        if listing.IndexError? {
          return Failed;
        }
        return Results(inputText, masked, answerKey, listing.entries);
      }
    }
    return Form;
  }

  /** A tag is kept by the filter iff it was requested and is recognized. */
  lemma {:induction false} InRecognized(rawTags: seq<string>, t: string)
    ensures t in Recognized(rawTags) <==> t in rawTags && t in STANZA_TAGS
  {
    RecognizedCounts(rawTags, t);
    assert t in Recognized(rawTags) <==> multiset(Recognized(rawTags))[t] > 0;
    assert t in rawTags <==> multiset(rawTags)[t] > 0;
  }

  /**
   * After the filter, a word is masked iff its tag was ticked and is a
   * recognized tag, or its text is one of the contractions.
   */
  lemma {:induction false} MaskedAfterFilter(w: Word, rawTags: seq<string>)
    ensures ShouldMask(w, Recognized(rawTags))
        <==> (w.upos in rawTags && w.upos in STANZA_TAGS) || w.text in CONTRACTIONS
  {
    InRecognized(rawTags, w.upos);
  }

  /**
   * The guard looks at the raw boxes, before the filter: when every ticked
   * box is unrecognized, masking still runs with no tag selected, and exactly
   * the contraction words become blanks.
   */
  lemma UnrecognizedTagsStillMaskContractions(rawTags: seq<string>, ws: seq<Word>, i: nat)
    requires rawTags != [] && forall k :: 0 <= k < |rawTags| ==> rawTags[k] !in STANZA_TAGS
    requires i < |ws|
    ensures Recognized(rawTags) == []
    ensures Tokens(ws, Recognized(rawTags))[i].Blank? <==> ws[i].text in CONTRACTIONS
  {
    if Recognized(rawTags) != [] {
      var t := Recognized(rawTags)[0];
      InRecognized(rawTags, t);
    }
    TokensAt(ws, [], i);
  }
}
