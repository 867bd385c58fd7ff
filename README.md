# Cloze masking engine of English-Education, modelled in Dafny

English-Education is a small Flask application for English learners. The user
pastes a text and ticks parts of speech. The application annotates the text
with an NLP pipeline. It then turns every selected word, and every word that
is one of a fixed list of contractions, into a numbered blank "(1)", "(2)", …,
and returns the blanked text with an answer key from blank number to hidden
word. Beside that it lists every word's dependency relation and head word.

This project models that core of `app.py`:

- `Annotation` (annotation.dfy): the annotated document. A `Document` is a
  sequence of sentences, and a sentence is a sequence of `Word(text, upos,
  deprel, head)`. `head` is 1-based, with 0 for the root. `Flatten` lists the
  words in traversal order.
- `TextFormat` (text_format.dfy): `str(n)` for the blank counter (`Decimal`)
  and `" ".join` (`Join`), each proved against its inverse (`DecimalValue` and
  `Split`).
- `Cloze` (cloze.dfy): `analyze_and_mask`. `MaskDocument` is the pair of
  nested loops over a token list, an answer key and one shared counter. It is
  proved equal to the word-by-word specification `Tokens` / `AnswerKey` /
  `CountMasked`. `AnalyzeAndMask` joins the rendered tokens. The output is
  kept as `Token`s (`Plain(text)` or `Blank(number)`), so a blank and a word
  that reads "(n)" stay distinct. `LiteralPlaceholderTextIsAmbiguous` shows
  that the joined string alone cannot tell them apart.
- `TagFilter` (tag_filter.dfy): the comprehension in `index` that keeps the
  ticked tags that are keys of the fixed 16-entry dictionary.
- `Dependencies` (dependencies.dfy): `analyze_dependencies`. A head index
  past the end of its sentence makes the listing end in `IndexError`.
- `Request` (request.dfy): the POST branch of `index`. It applies the guard,
  the tag filter, masking and the dependency listing, and yields the page's
  contents.
- `Options` (options.dfy): `Option`, for an absent head word.

Three points of the masking rule are easy to get wrong:

- Contractions are matched as whole tokens, by list membership
  (app.py:22-33). A word that merely contains "n't", such as "don't", is not
  masked unless its tag is selected. The standalone token "n't" is masked
  under any tag selection (`Cloze.ContractionsMatchWholeTokens`).
- The dictionary of recognized tags has 16 keys. Two of them are the long
  verb-form names "verb, base form" and "verb, 3rd person singular present".
  The filter keeps those keys, not their values "VB"/"VBZ"
  (`TagFilter.KeysNotValues`).
- Contractions are masked even when no tag is selected.
  `Cloze.NothingSelectedNothingMasked` therefore needs the extra hypothesis
  that no word is a listed contraction.
  `Request.UnrecognizedTagsStillMaskContractions` shows the case in which
  the guard passes but the filtered tag list is empty.

## Model

| member | source | states |
|---|---|---|
| `Cloze.ShouldMask` | app.py:33 | The masking test: the tag is in the selected list, or the text is exactly one of the listed contractions; its consequences are the rows of `TokensAt` and `ContractionsMatchWholeTokens` |
| `Cloze.Render` | app.py:34-38 | A blank k is shown as "(k)" and a word as its text; its properties are the rows of `PlaceholderRoundTrip` and `LiteralPlaceholderTextIsAmbiguous` |
| `TextFormat.Decimal` | app.py:34 | `str(counter)`: the counter's decimal digits; its properties are the row of `DecimalRoundTrip` |
| `TextFormat.Join` | app.py:40 | `" ".join`: the tokens separated by single spaces; its properties are the row of `SplitJoin` |
| `TagFilter.Recognized` | app.py:92-93 | The comprehension keeping the ticked tags that are dictionary keys; its properties are the rows of `RecognizedOnlyKeys`, `RecognizedIsSubsequence`, `RecognizedCounts` and `RecognizedIdempotent` |
| `Dependencies.Entry` | app.py:56-59 | The record for one word: its text, its relation, and no head for index 0 or else the text of word `head` of its own sentence; its properties are the row of `EntriesAt` |
| `Dependencies.Entries` | app.py:53-60 | The records of a document with every head in range, sentence after sentence, one per word; its properties are the rows of `EntriesAt`, `EntriesFollowWords` and `RootHasNoHead` |
| `Request.Guard` | app.py:70 | The guard: the text is non-empty and at least one box is ticked; its consequences are the rows of `Index` and `UnrecognizedTagsStillMaskContractions` |
| `Cloze.MaskDocument` | app.py:17-38 | The nested loops build exactly the specified token list and answer key, with one token per word and one key entry per masked word |
| `Cloze.AnalyzeAndMask` | app.py:14-40 | The returned text is the rendered tokens joined by single spaces, and the returned key is the specified answer key |
| `Cloze.TokensAt` | app.py:33-38 | Word i becomes blank number (masked words before it)+1 iff its tag is selected or its text is exactly a listed contraction; otherwise its text is emitted unchanged |
| `Cloze.AnswerKeyDomain` | app.py:19-36 | The answer key's numbers are exactly 1..N, where N is the number of masked words, and it has N entries |
| `Cloze.AnswerKeyAt` | app.py:34-35 | The key maps each masked word's blank number to that word's original text |
| `Cloze.BlanksAreConsecutive` | app.py:19-36 | The blank numbers, read in order, are 1, 2, …, N: they start at 1, each is one more than the previous, and none repeats |
| `Cloze.PlaceholdersMatchAnswerKey` | app.py:33-36 | There are as many placeholders as key entries, and a number is a placeholder iff it is a key |
| `Cloze.RestoreRoundTrip` | app.py:34-38 | Filling every blank from the answer key gives back the original word texts, in order |
| `Cloze.NothingSelectedNothingMasked` | app.py:33-40 | With no tag selected and no listed contraction in the text, the output is the words joined by spaces and the key is empty |
| `Cloze.NumberingSpansSentences` | app.py:19-36 | The counter is shared across sentences: masked word j of sentence i is numbered after all blanks of earlier sentences plus those before it in its own sentence |
| `Cloze.MaskedTextOnePiecePerWord` | app.py:30-40 | For a non-empty document in which no word contains a space, the masked text splits into exactly one piece per word, and each piece is that word's rendered token |
| `Cloze.PlaceholderRoundTrip` | app.py:34 | The placeholder "(k)" reads back as k |
| `Cloze.LiteralPlaceholderTextIsAmbiguous` | app.py:34-38 | For every n, a word whose text is "(n)" is a different token from blank n but renders exactly like it and reads back as n, so the joined text alone is ambiguous |
| `Cloze.ContractionsMatchWholeTokens` | app.py:22-33 | Contraction matching is by whole token: "don't" is not masked for its "n't" substring, and the token "n't" is masked under any tag selection |
| `TextFormat.DecimalRoundTrip` | app.py:34 | The counter's decimal text is non-empty digits without a leading zero, and it reads back as the counter |
| `TextFormat.SplitJoin` | app.py:40 | For a non-empty list of space-free strings, splitting their single-space join on spaces returns the list |
| `Annotation.FlattenAt` | app.py:30-31 | Word j of sentence i sits at position (words in earlier sentences)+j of the document's traversal order |
| `TagFilter.RecognizedOnlyKeys` | app.py:92-93 | Only keys of the recognized-tag dictionary come out of the filter |
| `TagFilter.RecognizedIsSubsequence` | app.py:92-93 | The filter's output is a subsequence of its input, so order is kept |
| `TagFilter.RecognizedCounts` | app.py:92-93 | Each recognized tag is kept as often as it was requested, and each other tag is dropped entirely |
| `TagFilter.RecognizedKeepsRecognized` | app.py:92-93 | A list made only of recognized tags passes through unchanged |
| `TagFilter.RecognizedIdempotent` | app.py:92-93 | Filtering twice gives the same result as filtering once |
| `TagFilter.KeysNotValues` | app.py:72-93 | Membership is tested on the dictionary's keys: "verb, base form" is kept and "VB"/"VBZ" are dropped |
| `Dependencies.AnalyzeDependencies` | app.py:50-61 | The listing ends in IndexError iff some word's head lies past the end of its sentence; otherwise it returns the specified records |
| `Dependencies.EntriesAt` | app.py:56-59 | Word j of sentence i gets the record at its document position, holding its text, its relation, and either no head (root) or the text of word `head` of its own sentence |
| `Dependencies.EntriesFollowWords` | app.py:53-60 | There is one record per word, in document order, with that word's text and relation |
| `Dependencies.RootHasNoHead` | app.py:59 | A record has no head exactly when the word's head index is 0 |
| `Request.Index` | app.py:66-114 | A POST with non-empty text and at least one ticked box yields the masked text and key for the filtered tags plus the dependency records, or fails on an out-of-range head; any other request yields the bare form |
| `Request.InRecognized` | app.py:92-93 | A tag survives the filter iff it was ticked and is a recognized key |
| `Request.MaskedAfterFilter` | app.py:70-97 | After filtering, a word is masked iff its tag was ticked and is recognized, or its text is a listed contraction |
| `Request.UnrecognizedTagsStillMaskContractions` | app.py:70-97 | When the guard passes but no ticked box is recognized, masking still runs with no tags and blanks exactly the contraction words |

## Left out

- The NLP pipelines are not modelled: Stanza's `nlp(text)` (app.py:10-11, 16, 52) and NLTK's `analyze_with_nltk` (app.py:43-47). The annotated `Document` is a parameter, and the NLTK tags are not part of `Request.Page`.
- Flask routing, `request.form` access and `render_template` (app.py:64-114) are reduced to the `Request.Index` parameters and the `Page` datatype. A missing field is modelled as "" or [], which is what `form.get`/`getlist` return by default.
- The handler annotates the text twice, once for masking and once for the listing. The model passes the same `doc` to both, which assumes the annotator is deterministic.
- Python dictionaries keep insertion order, and a Dafny `map` has no order. The key's insertion order is the increasing order of its numbers, so no information is lost: the loop of `Cloze.MaskDocument` inserts at `counter` and then only increments it, and its invariants tie the key to `AnswerKey`, which adds number `CountMasked + 1` after numbers 1..`CountMasked`.
- `Split`, `DecimalValue`, `ParsePlaceholder`, `Restore` and `IsSubsequence` are not in the source. They are the inverses and reference definitions the source's operations are checked against.
- `Word.head` is a natural number, as the annotator produces. The source's `head > 0` test is modelled as written.
- When the dependency listing raises IndexError, the model returns `Failed`. The framework's error page is not modelled.
- `Request.Index`: exceptions raised by the annotators are not modelled. `nlp(text)` (app.py:16, 52) and `analyze_with_nltk` (app.py:100) can raise, for instance when NLTK's tagger data is missing (app.py:7 fetches only 'punkt'). "`Failed` iff some head is out of range" holds only when both annotators succeed.
- static/js/script.js is not part of this model. It is browser-side recording and AJAX code, and the `/transcribe` and `/judge` endpoints it calls have no handlers in app.py, so there is no transcription or judgment logic to model.
- download_resources.py is not part of this model. It only downloads models and checks for files.
