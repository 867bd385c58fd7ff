/**
 * The dependency listing (`analyze_dependencies` in app.py): one record per
 * word, in document order, giving the word, its relation, and the text of its
 * head word in the same sentence (absent for the root). A head index past the
 * end of its sentence makes the list lookup raise IndexError, which ends the
 * whole listing.
 */
module Dependencies {

  import opened Options
  import opened Annotation

  datatype Dependency = Dependency(text: string, dep: string, head: Option<string>)

  /** What the listing produces: every record, or the IndexError that aborted it. */
  datatype Listing = Listing(entries: seq<Dependency>) | IndexError

  /** Every word's head is 0 or the 1-based position of a word of its own sentence. */
  predicate HeadsResolvable(doc: Document)
  {
    forall i, j :: 0 <= i < |doc| && 0 <= j < |doc[i]| ==> doc[i][j].head <= |doc[i]|
  }

  /** The record for word w of sentence s. */
  function Entry(s: Sentence, w: Word): Dependency
    requires w.head <= |s|
  {
    Dependency(w.text, w.deprel, if w.head > 0 then Some(s[w.head - 1].text) else None)
  }

  function SentenceEntries(s: Sentence): seq<Dependency>
    requires forall j :: 0 <= j < |s| ==> s[j].head <= |s|
  {
    seq(|s|, j requires 0 <= j < |s| => Entry(s, s[j]))
  }

  /** The records of a document, sentence after sentence. */
  function Entries(doc: Document): (es: seq<Dependency>)
    requires HeadsResolvable(doc)
    ensures |es| == |Flatten(doc)|
  {
    if doc == [] then []
    else
      Entries(doc[..|doc| - 1]) + SentenceEntries(doc[|doc| - 1])
  }

  /** `analyze_dependencies`: the two nested loops, stopped by the first head out of range. */
  method AnalyzeDependencies(doc: Document) returns (r: Listing)
    ensures r.IndexError? <==> !HeadsResolvable(doc)
    ensures r.Listing? ==> HeadsResolvable(doc) && r.entries == Entries(doc)
  {
    var entries: seq<Dependency> := [];
    var i := 0;
    while i < |doc|
      invariant 0 <= i <= |doc|
      invariant HeadsResolvable(doc[..i])
      invariant entries == Entries(doc[..i])
    {
      var sentence := doc[i];
      ghost var before := entries;
      var j := 0;
      while j < |sentence|
        invariant 0 <= j <= |sentence|
        invariant forall k :: 0 <= k < j ==> sentence[k].head <= |sentence|
        invariant entries == before + seq(j, k requires 0 <= k < j => Entry(sentence, sentence[k]))
      {
        var word := sentence[j];
        var head: Option<string>;
        if word.head > 0 {
          if word.head - 1 >= |sentence| {
            assert doc[i][j].head > |doc[i]|;
            return IndexError;
          }
          head := Some(sentence[word.head - 1].text);
        } else {
          head := None;
        }
        entries := entries + [Dependency(word.text, word.deprel, head)];
        j := j + 1;
      }
      ghost var done := doc[..i + 1];
      assert done[..i] == doc[..i];
      assert HeadsResolvable(done) by {
        forall a, b | 0 <= a < i + 1 && 0 <= b < |done[a]|
          ensures done[a][b].head <= |done[a]|
        {
          if a < i {
            assert done[a] == doc[..i][a];
          }
        }
      }
      i := i + 1;
    }
    assert doc[..|doc|] == doc;
    return Listing(entries);
  }

  /**
   * Word j of sentence i gets the record at its place in the document: its
   * text and relation, and as head nothing for the root, otherwise the text
   * of word `head` (1-based) of the same sentence.
   */
  lemma {:induction false} EntriesAt(doc: Document, i: nat, j: nat)
    requires HeadsResolvable(doc)
    requires i < |doc| && j < |doc[i]|
    ensures |Flatten(doc[..i])| + j < |Entries(doc)|
    ensures Entries(doc)[|Flatten(doc[..i])| + j]
         == Dependency(doc[i][j].text, doc[i][j].deprel,
                       if doc[i][j].head == 0 then None else Some(doc[i][doc[i][j].head - 1].text))
  {
    var n := |doc| - 1;
    var pre := doc[..n];
    assert HeadsResolvable(pre) by {
      assert forall a, b :: 0 <= a < n && 0 <= b < |pre[a]| ==> pre[a][b] == doc[a][b];
    }
    FlattenAt(doc, i, j);
    if i < n {
      EntriesAt(pre, i, j);
      assert pre[..i] == doc[..i];
      FlattenAt(pre, i, j);
    } else {
      assert pre == doc[..i];
    }
  }

  /** The records follow the words of the document one for one, in order. */
  lemma {:induction false} EntriesFollowWords(doc: Document)
    requires HeadsResolvable(doc)
    ensures forall k :: 0 <= k < |Entries(doc)|
              ==> Entries(doc)[k].text == Flatten(doc)[k].text && Entries(doc)[k].dep == Flatten(doc)[k].deprel
  {
    if doc != [] {
      var pre := doc[..|doc| - 1];
      assert HeadsResolvable(pre) by {
        assert forall a, b :: 0 <= a < |pre| && 0 <= b < |pre[a]| ==> pre[a][b] == doc[a][b];
      }
      EntriesFollowWords(pre);
      var es, ws := Entries(doc), Flatten(doc);
      forall k | 0 <= k < |es|
        ensures es[k].text == ws[k].text && es[k].dep == ws[k].deprel
      {
        var off := |Entries(pre)|;
        if k < off {
          assert es[k] == Entries(pre)[k];
          assert ws[k] == Flatten(pre)[k];
        } else {
          var last := doc[|doc| - 1];
          assert es[k] == SentenceEntries(last)[k - off];
          assert ws[k] == last[k - off];
        }
      }
    }
  }

  /** The head is absent exactly for root words (head index 0). */
  lemma RootHasNoHead(doc: Document, i: nat, j: nat)
    requires HeadsResolvable(doc)
    requires i < |doc| && j < |doc[i]|
    ensures |Flatten(doc[..i])| + j < |Entries(doc)|
    ensures Entries(doc)[|Flatten(doc[..i])| + j].head.None? <==> doc[i][j].head == 0
  {
    EntriesAt(doc, i, j);
  }
}
