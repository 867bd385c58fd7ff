/**
 * The cloze masking engine (`analyze_and_mask` in app.py): every word whose
 * coarse tag is selected, or whose text is one of a fixed list of
 * contractions, becomes a numbered blank "(k)", and the answer key maps k to
 * the word it hides. Blanks are numbered from 1 in document order, with one
 * counter for the whole document.
 *
 * The emitted tokens are kept as a sequence of `Token`s rather than strings,
 * so that a blank and a word whose text happens to read "(1)" stay apart;
 * `Render` and `TextFormat.Join` produce the string the page shows.
 */
module Cloze {

  import opened Options
  import opened Annotation
  import opened TextFormat

  /** The contraction forms masked whatever their tag ("won't" is listed twice, as in the source). */
  const CONTRACTIONS: seq<string> := [
    "can't", "won't", "wouldn't", "shouldn't", "mustn't", "couldn't",
    "didn't", "isn't", "aren't", "wasn't", "weren't", "haven't",
    "hasn't", "hadn't", "won't", "it's", "that's", "they're",
    "you're", "we're", "I'll", "he'll", "she'll", "you'll", "they'll",
    "n't"
  ]

  /** The masking decision: tag selected, or text exactly one of the contractions. */
  predicate ShouldMask(w: Word, posToMask: seq<string>)
  {
    w.upos in posToMask || w.text in CONTRACTIONS
  }

  datatype Token = Plain(text: string) | Blank(number: nat)

  /** The string a token is shown as: the word itself, or "(k)" for blank k. */
  function Render(t: Token): string
  {
    match t
    case Plain(s) => s
    case Blank(n) => "(" + Decimal(n) + ")"
  }

  function Rendered(ts: seq<Token>): seq<string>
  {
    seq(|ts|, i requires 0 <= i < |ts| => Render(ts[i]))
  }

  // ---------------------------------------------------------------------------
  // Specification of the traversal, one word at a time (the last word of a run
  // is the one processed last).
  // ---------------------------------------------------------------------------

  /** How many words of the run are masked: the number of blanks handed out. */
  function CountMasked(ws: seq<Word>, posToMask: seq<string>): (n: nat)
    ensures n <= |ws|
  {
    if ws == [] then 0
    else CountMasked(ws[..|ws| - 1], posToMask) + (if ShouldMask(ws[|ws| - 1], posToMask) then 1 else 0)
  }

  /** The tokens emitted for a run of words. */
  function Tokens(ws: seq<Word>, posToMask: seq<string>): (ts: seq<Token>)
    ensures |ts| == |ws|
  {
    if ws == [] then []
    else
      var done := ws[..|ws| - 1];
      var w := ws[|ws| - 1];
      Tokens(done, posToMask)
        + [if ShouldMask(w, posToMask) then Blank(CountMasked(done, posToMask) + 1) else Plain(w.text)]
  }

  /** The answer key built for a run of words. */
  function AnswerKey(ws: seq<Word>, posToMask: seq<string>): map<int, string>
  {
    if ws == [] then map[]
    else
      var done := ws[..|ws| - 1];
      var w := ws[|ws| - 1];
      if ShouldMask(w, posToMask) then AnswerKey(done, posToMask)[CountMasked(done, posToMask) + 1 := w.text]
      else AnswerKey(done, posToMask)
  }

  /** The blank numbers of a token sequence, in order. */
  function BlankNumbers(ts: seq<Token>): seq<nat>
  {
    if ts == [] then []
    else BlankNumbers(ts[..|ts| - 1]) + (if ts[|ts| - 1].Blank? then [ts[|ts| - 1].number] else [])
  }

  /** Put the answers back: every blank whose number is in the key becomes the key's word. */
  function Restore(ts: seq<Token>, key: map<int, string>): seq<string>
  {
    seq(|ts|, i requires 0 <= i < |ts| =>
      match ts[i]
      case Plain(s) => s
      case Blank(n) => if n in key then key[n] else Render(ts[i]))
  }

  /** Reads "(k)" back as k; anything else is not a placeholder. */
  function ParsePlaceholder(s: string): Option<nat>
  {
    if |s| >= 3 && s[0] == '(' && s[|s| - 1] == ')' && IsDigits(s[1..|s| - 1])
    then Some(DecimalValue(s[1..|s| - 1]))
    else None
  }

  // ---------------------------------------------------------------------------
  // The engine
  // ---------------------------------------------------------------------------

  /**
   * The two nested loops of `analyze_and_mask`: the token list and the answer
   * key it builds, with the counter shared by all sentences.
   */
  method MaskDocument(doc: Document, posToMask: seq<string>) returns (tokens: seq<Token>, answerKey: map<int, string>)
    ensures tokens == Tokens(Flatten(doc), posToMask)
    ensures answerKey == AnswerKey(Flatten(doc), posToMask)
    ensures |tokens| == |Flatten(doc)| && |answerKey| == CountMasked(Flatten(doc), posToMask)
  {
    var counter: nat := 1;
    tokens, answerKey := [], map[];
    var i := 0;
    while i < |doc|
      invariant 0 <= i <= |doc|
      invariant counter == CountMasked(Flatten(doc[..i]), posToMask) + 1
      invariant tokens == Tokens(Flatten(doc[..i]), posToMask)
      invariant answerKey == AnswerKey(Flatten(doc[..i]), posToMask)
    {
      var sentence := doc[i];
      ghost var before := Flatten(doc[..i]);
      var j := 0;
      assert before + sentence[..j] == before;
      while j < |sentence|
        invariant 0 <= j <= |sentence|
        invariant counter == CountMasked(before + sentence[..j], posToMask) + 1
        invariant tokens == Tokens(before + sentence[..j], posToMask)
        invariant answerKey == AnswerKey(before + sentence[..j], posToMask)
      {
        var word := sentence[j];
        assert before + sentence[..j + 1] == (before + sentence[..j]) + [word];
        ExtendByOne(before + sentence[..j], word, posToMask);
        if word.upos in posToMask || word.text in CONTRACTIONS {
          tokens := tokens + [Blank(counter)];
          answerKey := answerKey[counter := word.text];
          counter := counter + 1;
        } else {
          tokens := tokens + [Plain(word.text)];
        }
        j := j + 1;
      }
      assert sentence[..|sentence|] == sentence;
      FlattenStep(doc, i);
      i := i + 1;
    }
    assert doc[..|doc|] == doc;
    AnswerKeyDomain(Flatten(doc), posToMask);
  }

  /** Processing one more word: the specification functions unfolded once. */
  lemma ExtendByOne(done: seq<Word>, w: Word, posToMask: seq<string>)
    ensures CountMasked(done + [w], posToMask)
         == CountMasked(done, posToMask) + (if ShouldMask(w, posToMask) then 1 else 0)
    ensures Tokens(done + [w], posToMask)
         == Tokens(done, posToMask)
          + [if ShouldMask(w, posToMask) then Blank(CountMasked(done, posToMask) + 1) else Plain(w.text)]
    ensures AnswerKey(done + [w], posToMask)
         == if ShouldMask(w, posToMask) then AnswerKey(done, posToMask)[CountMasked(done, posToMask) + 1 := w.text]
            else AnswerKey(done, posToMask)
  {
  }

  /** `analyze_and_mask`: the blanked text, tokens joined by single spaces, and the answer key. */
  method AnalyzeAndMask(doc: Document, posToMask: seq<string>) returns (masked: string, answerKey: map<int, string>)
    ensures masked == Join(Rendered(Tokens(Flatten(doc), posToMask)))
    ensures answerKey == AnswerKey(Flatten(doc), posToMask)
  {
    var tokens;
    tokens, answerKey := MaskDocument(doc, posToMask);
    masked := Join(Rendered(tokens));
  }

  // ---------------------------------------------------------------------------
  // Properties
  // ---------------------------------------------------------------------------

  /**
   * One token per word, in order: a masked word becomes the blank numbered one
   * past the blanks before it, any other word is emitted unchanged.
   */
  lemma {:induction false} TokensAt(ws: seq<Word>, posToMask: seq<string>, i: nat)
    requires i < |ws|
    ensures Tokens(ws, posToMask)[i]
         == if ShouldMask(ws[i], posToMask) then Blank(CountMasked(ws[..i], posToMask) + 1) else Plain(ws[i].text)
  {
    var done := ws[..|ws| - 1];
    if i < |done| {
      TokensAt(done, posToMask, i);
      assert done[..i] == ws[..i];
    }
  }

  /** The key's numbers are exactly 1..N, N the number of masked words. */
  lemma {:induction false} AnswerKeyDomain(ws: seq<Word>, posToMask: seq<string>)
    ensures forall k: int :: k in AnswerKey(ws, posToMask) <==> 1 <= k <= CountMasked(ws, posToMask)
    ensures |AnswerKey(ws, posToMask)| == CountMasked(ws, posToMask)
  {
    if ws != [] {
      var done := ws[..|ws| - 1];
      AnswerKeyDomain(done, posToMask);
      if ShouldMask(ws[|ws| - 1], posToMask) {
        assert CountMasked(done, posToMask) + 1 !in AnswerKey(done, posToMask);
      }
    }
  }

  /** The key maps each masked word's blank number to that word's original text. */
  lemma {:induction false} AnswerKeyAt(ws: seq<Word>, posToMask: seq<string>, i: nat)
    requires i < |ws| && ShouldMask(ws[i], posToMask)
    ensures CountMasked(ws[..i], posToMask) + 1 in AnswerKey(ws, posToMask)
    ensures AnswerKey(ws, posToMask)[CountMasked(ws[..i], posToMask) + 1] == ws[i].text
  {
    var done := ws[..|ws| - 1];
    if i < |done| {
      AnswerKeyAt(done, posToMask, i);
      assert done[..i] == ws[..i];
      AnswerKeyDomain(done, posToMask);
    } else {
      assert done == ws[..i];
    }
  }

  /**
   * The placeholders, read in order, are numbered 1, 2, ..., N: no gaps, no
   * repeats, one more than the previous each time.
   */
  lemma {:induction false} BlanksAreConsecutive(ws: seq<Word>, posToMask: seq<string>)
    ensures BlankNumbers(Tokens(ws, posToMask)) == seq(CountMasked(ws, posToMask), k requires k >= 0 => k + 1)
  {
    if ws != [] {
      var done := ws[..|ws| - 1];
      BlanksAreConsecutive(done, posToMask);
      var ts := Tokens(ws, posToMask);
      assert ts[..|ts| - 1] == Tokens(done, posToMask);
    }
  }

  /**
   * Placeholders and answer key are in bijection: as many placeholders as
   * entries, and a number occurs as a placeholder iff it is a key.
   */
  lemma PlaceholdersMatchAnswerKey(ws: seq<Word>, posToMask: seq<string>)
    ensures |BlankNumbers(Tokens(ws, posToMask))| == |AnswerKey(ws, posToMask)|
    ensures forall n: int :: n in AnswerKey(ws, posToMask) <==> n in BlankNumbers(Tokens(ws, posToMask))
  {
    BlanksAreConsecutive(ws, posToMask);
    AnswerKeyDomain(ws, posToMask);
    var blanks := BlankNumbers(Tokens(ws, posToMask));
    forall n: int | n in AnswerKey(ws, posToMask)
      ensures n in blanks
    {
      assert blanks[n - 1] == n;
    }
  }

  /** Filling every blank from the answer key gives back the original words. */
  lemma RestoreRoundTrip(ws: seq<Word>, posToMask: seq<string>)
    ensures Restore(Tokens(ws, posToMask), AnswerKey(ws, posToMask)) == Texts(ws)
  {
    var ts := Tokens(ws, posToMask);
    forall i | 0 <= i < |ws|
      ensures Restore(ts, AnswerKey(ws, posToMask))[i] == ws[i].text
    {
      TokensAt(ws, posToMask, i);
      if ShouldMask(ws[i], posToMask) {
        AnswerKeyAt(ws, posToMask, i);
      }
    }
  }

  /** With no tag selected and no contraction in the text nothing is masked. */
  lemma {:induction false} NothingSelectedNothingMasked(ws: seq<Word>)
    requires forall i :: 0 <= i < |ws| ==> ws[i].text !in CONTRACTIONS
    ensures Tokens(ws, []) == seq(|ws|, i requires 0 <= i < |ws| => Plain(ws[i].text))
    ensures AnswerKey(ws, []) == map[]
    ensures Join(Rendered(Tokens(ws, []))) == Join(Texts(ws))
  {
    if ws != [] {
      NothingSelectedNothingMasked(ws[..|ws| - 1]);
    }
    assert Rendered(Tokens(ws, [])) == Texts(ws);
  }

  /** Blank counts add up over consecutive runs of words. */
  lemma {:induction false} CountMaskedAppend(a: seq<Word>, b: seq<Word>, posToMask: seq<string>)
    ensures CountMasked(a + b, posToMask) == CountMasked(a, posToMask) + CountMasked(b, posToMask)
    decreases |b|
  {
    if b == [] {
      assert a + b == a;
    } else {
      var c := b[..|b| - 1];
      CountMaskedAppend(a, c, posToMask);
      assert (a + b)[..|a + b| - 1] == a + c;
    }
  }

  /**
   * The counter is not reset per sentence: a masked word j of sentence i gets
   * the number after all blanks of the earlier sentences and the earlier words
   * of its own sentence.
   */
  lemma NumberingSpansSentences(doc: Document, posToMask: seq<string>, i: nat, j: nat)
    requires i < |doc| && j < |doc[i]| && ShouldMask(doc[i][j], posToMask)
    ensures |Flatten(doc[..i])| + j < |Flatten(doc)|
    ensures Tokens(Flatten(doc), posToMask)[|Flatten(doc[..i])| + j]
         == Blank(CountMasked(Flatten(doc[..i]), posToMask) + CountMasked(doc[i][..j], posToMask) + 1)
  {
    var before := Flatten(doc[..i]);
    var ws := Flatten(doc);
    FlattenAt(doc, i, j);
    FlattenUpTo(doc, i, j);
    TokensAt(ws, posToMask, |before| + j);
    CountMaskedAppend(before, doc[i][..j], posToMask);
  }

  /** A placeholder reads back as its number. */
  lemma PlaceholderRoundTrip(n: nat)
    ensures ParsePlaceholder(Render(Blank(n))) == Some(n)
  {
    DecimalRoundTrip(n);
    var s := Render(Blank(n));
    assert s[1..|s| - 1] == Decimal(n);
  }

  /**
   * For every n, a word whose own text is "(n)" renders exactly like blank n
   * and reads back as n, although it is a different token: the rendered text
   * alone cannot tell a blank from such a word.
   */
  lemma LiteralPlaceholderTextIsAmbiguous(n: nat)
    ensures Plain(Render(Blank(n))) != Blank(n)
    ensures Render(Plain(Render(Blank(n)))) == Render(Blank(n))
    ensures ParsePlaceholder(Render(Plain(Render(Blank(n))))) == Some(n)
  {
    PlaceholderRoundTrip(n);
  }

  /** Rendered tokens contain no space as long as the words do not. */
  lemma RenderNoSpace(t: Token)
    requires t.Plain? ==> NoSpace(t.text)
    ensures NoSpace(Render(t))
  {
    if t.Blank? {
      DecimalRoundTrip(t.number);
    }
  }

  /**
   * When no word contains a space, the masked text splits on spaces into
   * exactly one piece per word, each the rendered token for that word.
   */
  lemma MaskedTextOnePiecePerWord(ws: seq<Word>, posToMask: seq<string>)
    requires |ws| > 0
    requires forall i :: 0 <= i < |ws| ==> NoSpace(ws[i].text)
    ensures Split(Join(Rendered(Tokens(ws, posToMask)))) == Rendered(Tokens(ws, posToMask))
    ensures |Split(Join(Rendered(Tokens(ws, posToMask))))| == |ws|
  {
    var ts := Tokens(ws, posToMask);
    forall i | 0 <= i < |ts|
      ensures NoSpace(Rendered(ts)[i])
    {
      TokensAt(ws, posToMask, i);
      RenderNoSpace(ts[i]);
    }
    SplitJoin(Rendered(ts));
  }

  /**
   * Contractions are matched as whole tokens: "don't" is not in the list, so
   * it stays visible even though it contains "n't", while the token "n't"
   * itself is masked under any tag selection.
   */
  lemma ContractionsMatchWholeTokens(upos: string, deprel: string, head: nat, posToMask: seq<string>)
    requires upos !in posToMask
    ensures !ShouldMask(Word("don't", upos, deprel, head), posToMask)
    ensures ShouldMask(Word("n't", upos, deprel, head), posToMask)
  {
    assert CONTRACTIONS[25] == "n't";
  }
}
