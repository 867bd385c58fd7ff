/**
 * The annotated document that the NLP pipeline hands to the masking engine and
 * the dependency listing: sentences of words, each word with its surface text,
 * its coarse (Universal Dependencies) part-of-speech tag, its dependency
 * relation and the 1-based index of its head within the sentence (0 = root).
 */
module Annotation {

  datatype Word = Word(text: string, upos: string, deprel: string, head: nat)

  type Sentence = seq<Word>

  type Document = seq<Sentence>

  /** All words of the document in traversal order: sentence by sentence, word by word. */
  function Flatten(doc: Document): seq<Word>
  {
    if doc == [] then [] else Flatten(doc[..|doc| - 1]) + doc[|doc| - 1]
  }

  /** The surface texts of a run of words. */
  function Texts(ws: seq<Word>): seq<string>
  {
    seq(|ws|, i requires 0 <= i < |ws| => ws[i].text)
  }

  /** Taking one more sentence appends exactly that sentence's words. */
  lemma FlattenStep(doc: Document, i: nat)
    requires i < |doc|
    ensures Flatten(doc[..i + 1]) == Flatten(doc[..i]) + doc[i]
  {
    assert doc[..i + 1][..i] == doc[..i];
  }

  /** The words of the first i sentences are a prefix of the words of the document. */
  lemma {:induction false} FlattenPrefix(doc: Document, i: nat)
    requires i <= |doc|
    ensures |Flatten(doc[..i])| <= |Flatten(doc)|
    ensures Flatten(doc)[..|Flatten(doc[..i])|] == Flatten(doc[..i])
    decreases |doc| - i
  {
    if i == |doc| {
      assert doc[..i] == doc;
    } else {
      FlattenPrefix(doc, i + 1);
      FlattenStep(doc, i);
      var a, b := Flatten(doc[..i]), Flatten(doc[..i + 1]);
      assert Flatten(doc)[..|a|] == b[..|a|];
    }
  }

  /**
   * Word j of sentence i sits in the flattened document at the offset of
   * sentence i (the number of words before it) plus j.
   */
  lemma FlattenAt(doc: Document, i: nat, j: nat)
    requires i < |doc| && j < |doc[i]|
    ensures |Flatten(doc[..i])| + j < |Flatten(doc)|
    ensures Flatten(doc)[|Flatten(doc[..i])| + j] == doc[i][j]
  {
    FlattenPrefix(doc, i + 1);
    FlattenStep(doc, i);
    var b := Flatten(doc[..i + 1]);
    assert Flatten(doc)[|Flatten(doc[..i])| + j] == b[|Flatten(doc[..i])| + j];
  }

  /** The words before word j of sentence i, in traversal order. */
  lemma FlattenUpTo(doc: Document, i: nat, j: nat)
    requires i < |doc| && j <= |doc[i]|
    ensures |Flatten(doc[..i])| + j <= |Flatten(doc)|
    ensures Flatten(doc)[..|Flatten(doc[..i])| + j] == Flatten(doc[..i]) + doc[i][..j]
  {
    FlattenPrefix(doc, i + 1);
    FlattenStep(doc, i);
    var before := Flatten(doc[..i]);
    assert Flatten(doc)[..|before| + j] == (before + doc[i])[..|before| + j];
  }
}
