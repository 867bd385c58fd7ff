/**
 * The narrowing of the form's `pos_checkbox` values to the tags the masking
 * engine is told about (app.py, inside `index`): a list comprehension that
 * keeps, in order and with repetitions, the requested tags that are keys of a
 * fixed dictionary.
 */
module TagFilter {

  /**
   * The dictionary of recognized tags. Its keys are what the filter tests
   * against; the values (the two long verb-form names map to "VB" and "VBZ")
   * are never used.
   */
  const STANZA_TAGS: map<string, string> := map[
    "ADJ" := "ADJ",
    "ADP" := "ADP",
    "ADV" := "ADV",
    "AUX" := "AUX",
    "CCONJ" := "CCONJ",
    "DET" := "DET",
    "NOUN" := "NOUN",
    "NUM" := "NUM",
    "PRON" := "PRON",
    "PROPN" := "PROPN",
    "VERB" := "VERB",
    "PUNCT" := "PUNCT",
    "SCONJ" := "SCONJ",
    "SYM" := "SYM",
    "verb, base form" := "VB",
    "verb, 3rd person singular present" := "VBZ"
  ]

  /** `[tag for tag in requested if tag in STANZA_TAGS.keys()]` */
  function Recognized(requested: seq<string>): seq<string>
  {
    if requested == [] then []
    else (if requested[0] in STANZA_TAGS then [requested[0]] else []) + Recognized(requested[1..])
  }

  /** `a` can be obtained from `b` by deleting elements: order is kept. */
  predicate IsSubsequence(a: seq<string>, b: seq<string>)
    decreases |b|
  {
    if a == [] then true
    else if b == [] then false
    else if a[0] == b[0] then IsSubsequence(a[1..], b[1..])
    else IsSubsequence(a, b[1..])
  }

  /** Only recognized tags come out. */
  lemma {:induction false} RecognizedOnlyKeys(requested: seq<string>)
    ensures forall t :: t in Recognized(requested) ==> t in STANZA_TAGS
  {
    if requested != [] {
      RecognizedOnlyKeys(requested[1..]);
    }
  }

  /** The filter deletes and never reorders. */
  lemma {:induction false} RecognizedIsSubsequence(requested: seq<string>)
    ensures IsSubsequence(Recognized(requested), requested)
  {
    if requested != [] {
      RecognizedIsSubsequence(requested[1..]);
      var rest := Recognized(requested[1..]);
      if requested[0] in STANZA_TAGS {
        assert Recognized(requested) == [requested[0]] + rest;
      } else {
        assert Recognized(requested) == rest;
        SubsequenceOfTail(rest, requested);
      }
    }
  }

  /** A subsequence of the tail is a subsequence of the whole. */
  lemma {:induction false} SubsequenceOfTail(a: seq<string>, b: seq<string>)
    requires b != [] && IsSubsequence(a, b[1..])
    ensures IsSubsequence(a, b)
    decreases |b|, 0
  {
    if a != [] && a[0] == b[0] {
      // IsSubsequence(a, b) needs IsSubsequence(a[1..], b[1..]), which follows
      // from a being a subsequence of b[1..] with its first element dropped.
      DropFirst(a, b[1..]);
    }
  }

  /** Dropping the first element of a subsequence keeps it a subsequence. */
  lemma {:induction false} DropFirst(a: seq<string>, b: seq<string>)
    requires a != [] && IsSubsequence(a, b)
    ensures IsSubsequence(a[1..], b)
    decreases |b|, 1
  {
    if b != [] {
      if a[0] == b[0] {
        if a[1..] != [] {
          SubsequenceOfTail(a[1..], b);
        }
      } else {
        DropFirst(a, b[1..]);
        if a[1..] != [] {
          SubsequenceOfTail(a[1..], b);
        }
      }
    }
  }

  /**
   * Every recognized tag is kept as often as it was requested (duplicates
   * survive), every other tag is dropped entirely.
   */
  lemma {:induction false} RecognizedCounts(requested: seq<string>, t: string)
    ensures multiset(Recognized(requested))[t] == if t in STANZA_TAGS then multiset(requested)[t] else 0
  {
    if requested != [] {
      RecognizedCounts(requested[1..], t);
      assert requested == [requested[0]] + requested[1..];
    }
  }

  /** A list of recognized tags passes through unchanged. */
  lemma {:induction false} RecognizedKeepsRecognized(tags: seq<string>)
    requires forall i :: 0 <= i < |tags| ==> tags[i] in STANZA_TAGS
    ensures Recognized(tags) == tags
  {
    if tags != [] {
      RecognizedKeepsRecognized(tags[1..]);
      assert [tags[0]] + tags[1..] == tags;
    }
  }

  /** Filtering twice is filtering once. */
  lemma RecognizedIdempotent(requested: seq<string>)
    ensures Recognized(Recognized(requested)) == Recognized(requested)
  {
    RecognizedOnlyKeys(requested);
    RecognizedKeepsRecognized(Recognized(requested));
  }

  /**
   * The test is on the dictionary's keys, not its values: the long name
   * "verb, base form" is kept as it is and the short tag "VB" is dropped.
   */
  lemma KeysNotValues()
    ensures Recognized(["VB", "verb, base form", "VBZ", "NOUN"]) == ["verb, base form", "NOUN"]
  {
    assert "VB" !in STANZA_TAGS;
    assert "VBZ" !in STANZA_TAGS;
  }
}
