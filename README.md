# Centering extractor — a Dafny model

The system is a small web application about Centering Theory. A user types up to five short
utterances. The frontend component `Extractor` validates the text and sends it to an analysis
backend. It then shows the analysis sentence by sentence:

- each row is labelled `U₁`, `U₂`, …;
- the backward-looking center (Cb) of a sentence is highlighted in blue;
- its forward-looking centers (Cf) are highlighted in green;
- every word and every row is an anchor for arrows between sentences.

The Python backend `parse_text` does the rule-based extraction on a parsed text. For every
sentence it records the tokens, the entities, a `c_b` dictionary (each pronoun with a guessed
antecedent) and a `c_f` list (nouns, proper nouns and entity tokens).

The model covers both halves.

| file | module | what it models |
|---|---|---|
| `wrappers.dfy` | `Wrappers` | `Option` |
| `strings.dfy` | `Strings` | JavaScript/Python string operations: `split` on a character class, `split(" ")`, `trim`/`strip`, `join`, ASCII `toLowerCase`, `includes`, decimal printing of numbers |
| `lists.dfy` | `Lists` | `filter(...).map(...)` and list comprehensions, first occurrences |
| `validator.dfy` | `InputValidator` | `validateInput` |
| `mentions.dfy` | `MentionMatcher` | `normalizeWord`, `isWordInMentions`, `canHighlightCb` |
| `anchors.dfy` | `Anchors` | word and sentence ids, selection of the relations leaving an anchor |
| `highlighting.dfy` | `Highlighting` | `highlightTextWithAnchors` and `renderAnalysisResult`, as values |
| `view.dfy` | `ExtractorView` | the component's state (`useState` fields) and the events that change it, as a class |
| `centering.dfy` | `Centering` | `parse_text` (a method with its loops) and the specification it is proved against |

The backend's parser (`nlp`) is a parameter. It maps a text to its sentences; each token carries
its text, part of speech, dependency label, document position and entity type. Timers are
modelled as events. A started timer increments a pending counter; firing it is a method whose
precondition is that a timer of that kind is pending. The reveal timer is the effect at
`Extractor.tsx:64-71`. It fires only while its condition holds, because React clears the timer
whenever that condition is re-evaluated.

Behaviour of the code worth stating:

- `normalizeWord` deletes `.`, `,`, `!` and `?` everywhere in the word. The apostrophe stays, so
  `Mike's` never matches `Mike` (`PossessiveDoesNotMatch`).
- The reveal cursor keeps advancing until it equals the number of sentences.
- The component does not derive relations itself. It draws exactly the relations the reply
  carries, each on the anchor named by its `sourceId`.
- The Clear button is rendered whenever a result is stored. While faded out it only ignores the
  pointer, so the keyboard can still press it: during the fade-in after a reply, or a second time
  before the reset timer fires. `ClearClick` allows both.
- A reply that arrives after Clear is not discarded, and Clear does not cancel the two 500 ms
  timers. The model keeps both behaviours: `Reply` needs only `loading`, and the pending
  counters survive `ClearClick`.
- The component posts to `/center` and expects `{results: {results, relations}, sentences}`.
  `parse_text` is served at `/parse` and answers with a bare list of sentence records. The two
  halves are modelled each against its own interface.

## Model

| member | source | states |
|---|---|---|
| InputValidator.ValidateInput | src/components/Extractor.tsx:37-62 | the early-returning loop returns exactly the verdict `Validate`: empty when no utterance is left, too many above 5 utterances, too long when some utterance has more than 10 words, accepted otherwise |
| InputValidator.Validate | src/components/Extractor.tsx:37-62 | the verdict rule by rule; no contract of its own: `ValidateEmptyIff`, `ValidateTooManyIff` and `ValidateTooLongIff` characterise it in both directions |
| InputValidator.Utterances | src/components/Extractor.tsx:38-41 | no utterance is blank; `UtterancesAreUtterances` and `UtterancesKeepWords` give the rest |
| InputValidator.WordCount | src/components/Extractor.tsx:55 | an utterance counts at least one word, since `split` never returns an empty array; `WordCountCountsWords` says what the words are |
| InputValidator.UtterancesAreUtterances | src/components/Extractor.tsx:38-41 | every utterance is non-empty, has no white space at either end and contains no `.` or line break |
| InputValidator.UtterancesKeepWords | src/components/Extractor.tsx:38-41 | cutting into utterances loses and invents no character: the utterances without their spaces hold exactly the input's characters that are neither terminators nor white space |
| InputValidator.WordCountCountsWords | src/components/Extractor.tsx:55 | the pieces counted as words of an utterance are non-empty, contain no white space and together spell the utterance without its spaces |
| InputValidator.ValidateEmptyIff | src/components/Extractor.tsx:46-48 | the empty-input message is returned if and only if the input consists only of `.`, line breaks and white space |
| InputValidator.ValidateTooManyIff | src/components/Extractor.tsx:50-52 | the too-many message is returned if and only if there are more than 5 utterances, whatever their lengths |
| InputValidator.ValidateTooLongIff | src/components/Extractor.tsx:54-61 | between 1 and 5 utterances, the too-long message is returned if and only if some utterance has more than 10 words, and the input is accepted if and only if none has |
| InputValidator.ProseUtterances | src/components/Extractor.tsx:38-41 | utterances joined by `. ` and closed by `.` are cut back into exactly those utterances |
| InputValidator.SpelledWords | src/components/Extractor.tsx:55 | words joined by single spaces form an utterance with exactly that many words |
| InputValidator.ProseSentences | src/components/Extractor.tsx:38-55 | the utterances of typed prose are its sentences, each with its own number of words |
| InputValidator.ProseVerdict | src/components/Extractor.tsx:37-62 | prose of more than 5 sentences is refused as too many; otherwise a sentence of more than 10 words is refused as too long; anything else is accepted |
| InputValidator.FirstDemoAccepted | src/components/Demo.tsx:73 | the first demonstration text, written as prose of its words, is accepted |
| InputValidator.SecondDemoAccepted | src/components/Demo.tsx:91 | the second demonstration text, written as prose of its words, is accepted |
| InputValidator.TooManySentencesRejected | src/components/Extractor.tsx:50-52 | six one-word sentences are refused as too many utterances |
| InputValidator.ElevenWordsRejected | src/components/Extractor.tsx:54-58 | one sentence of eleven words is refused as too long |
| MentionMatcher.Normalize | src/components/Extractor.tsx:133 | the normalized word is no longer than the word and contains no `.`, `,`, `!`, `?` and no upper-case letter |
| MentionMatcher.NormalizeCommutes | src/components/Extractor.tsx:133 | deleting punctuation and lower-casing can be done in either order |
| MentionMatcher.NormalizeIdempotent | src/components/Extractor.tsx:133 | normalizing twice is normalizing once |
| MentionMatcher.MentionWordsNoSpace | src/components/Extractor.tsx:138 | no normalized word of a mention contains white space |
| MentionMatcher.IsWordInMentions | src/components/Extractor.tsx:135-144 | the loop returning at the first mention that contains the word answers true if and only if some mention contains it |
| MentionMatcher.IsWordInMentionsIff | src/components/Extractor.tsx:135-144 | a word is in the mentions if and only if its normalized form equals the normalized form of some whitespace piece of some mention |
| MentionMatcher.CanHighlightCb | src/components/Extractor.tsx:146-151 | Cb is highlighted only when it is a non-empty string no longer than the sentence; `CanHighlightCbIff` gives both directions |
| MentionMatcher.CanHighlightCbIff | src/components/Extractor.tsx:146-151 | Cb may be highlighted if and only if it is a non-empty string that occurs, ignoring case, somewhere in the sentence |
| MentionMatcher.MentionWordsSingle | src/components/Extractor.tsx:138 | a mention without white space yields exactly one word, its normalized form |
| MentionMatcher.PossessiveNormalized | src/components/Extractor.tsx:133 | normalization keeps the apostrophe: `Mike's` becomes `mike's`, `Mike` becomes `mike` |
| MentionMatcher.PossessiveDoesNotMatch | src/components/Extractor.tsx:135-144 | `Mike's` does not match the mention `Mike` |
| MentionMatcher.WordMatchesPieceOfMention | src/components/Extractor.tsx:135-144 | `his` matches the multi-word mention `his driver's test` (membership, not phrase matching) |
| MentionMatcher.UnrelatedWordDoesNotMatch | src/components/Extractor.tsx:135-144 | `annoyed` does not match `John's call` |
| MentionMatcher.AbsentCbNotHighlighted | src/components/Extractor.tsx:146-151 | Cb `John` is not highlighted in a sentence that does not contain it |
| MentionMatcher.PresentCbHighlighted | src/components/Extractor.tsx:146-151 | Cb `his` is highlighted in a sentence that contains it |
| Anchors.WordId | src/components/Extractor.tsx:164 | builds `word-s-w` from the decimal digits; no contract of its own: `WordIdInjective` and `WordIdIsNotSentenceId` state that ids identify their word |
| Anchors.SentenceId | src/components/Extractor.tsx:211 | builds `sentence-i`; no contract of its own: `SentenceIdInjective` states that ids identify their row |
| Anchors.WordIdInjective | src/components/Extractor.tsx:164 | distinct word positions have distinct `word-s-w` ids |
| Anchors.SentenceIdInjective | src/components/Extractor.tsx:211 | distinct sentences have distinct `sentence-i` ids |
| Anchors.WordIdIsNotSentenceId | src/components/Extractor.tsx:164 | no word id is a sentence id |
| Anchors.Outgoing | src/components/Extractor.tsx:173-179 | an anchor receives at most as many edges as there are relations |
| Anchors.OutgoingExact | src/components/Extractor.tsx:173-179 | the edges of an anchor are exactly the relations whose `sourceId` is its id, in input order, each with its target and both anchor sides copied |
| Anchors.OutgoingMembers | src/components/Extractor.tsx:217-223 | an edge is given to an anchor if and only if some relation leaving that anchor carries it |
| Highlighting.ViewWord | src/components/Extractor.tsx:163-192 | the view of one word; no contract of its own: `HighlightWordsClassify` and `HighlightWordsAnchors` state its classification, style, id and relations |
| Highlighting.HighlightWords | src/components/Extractor.tsx:160-163 | one word view per piece of the sentence split on single spaces |
| Highlighting.HighlightWordsClassify | src/components/Extractor.tsx:161-190 | a word is Cb if and only if the Cb is non-empty, occurs in the sentence and the word matches it; a word is Cf if and only if it matches some Cf mention; the style is Cb first, then Cf, then plain |
| Highlighting.HighlightWordsSpellSentence | src/components/Extractor.tsx:160-195 | no word contains a space, and the rendered words, each with its trailing space, spell the sentence followed by one space |
| Highlighting.HighlightWordsAnchors | src/components/Extractor.tsx:163-182 | word `w` of sentence `s` has id `word-s-w`, the ids of a sentence's words are distinct, and each word carries the relations leaving its own id |
| Highlighting.SubscriptLabel | src/components/Extractor.tsx:212-215 | the label has one subscript digit per decimal digit of `index + 1` |
| Highlighting.SubscriptLabelRoundTrip | src/components/Extractor.tsx:212-215 | the label of row `index` reads back as `index + 1` |
| Highlighting.SubscriptLabelInjective | src/components/Extractor.tsx:212-215 | distinct rows have distinct labels |
| Highlighting.SentenceViews | src/components/Extractor.tsx:210 | one row per stored sentence result |
| Highlighting.SentenceViewsReveal | src/components/Extractor.tsx:235-251 | rows are revealed if and only if their index is at most the cursor, so the revealed rows form a prefix; a revealed row shows its own sentence's highlighted words and a hidden row shows none; row `i` is labelled `U` plus the label of `i` |
| Highlighting.CbColumn | src/components/Extractor.tsx:259-266 | the Cb column shows the Cb, emphasised, when it is a non-empty string, and `None`, not emphasised, otherwise |
| Highlighting.AnchorIdsDistinct | src/components/Extractor.tsx:210-251 | all rows have distinct ids, all words of revealed rows have distinct ids across the panel, and no word shares an id with a row |
| ExtractorView.Extractor.constructor | src/components/Extractor.tsx:25-35 | the initial state: nothing stored, not loading, cursor 0, input shown, results and Clear hidden, no message, no timer pending |
| ExtractorView.Extractor.Edit | src/components/Extractor.tsx:320-322 | editing changes the input text and nothing else |
| ExtractorView.ShapeOk | src/components/Extractor.tsx:98-107 | the shape test: all of `results.results`, `results.relations` and `sentences` are arrays; no contract of its own: `Reply` states what follows from it |
| ExtractorView.Extractor.Submit | src/components/Extractor.tsx:73-84 | the request is sent if and only if the input is valid; an invalid input only sets its message; a valid one clears the message, starts loading and hides results and Clear; the invariant is kept |
| ExtractorView.Extractor.Reply | src/components/Extractor.tsx:85-130 | a reply of the right shape is stored, the cursor goes to 0 and the hide timer starts; anything else sets the generic message and stores nothing; loading ends either way |
| ExtractorView.Extractor.HideInputTimer | src/components/Extractor.tsx:116-118 | the input section is hidden and the second timer starts |
| ExtractorView.Extractor.ShowResultsTimer | src/components/Extractor.tsx:118-121 | results may be rendered and Clear becomes visible together |
| ExtractorView.Extractor.RevealTimer | src/components/Extractor.tsx:64-71 | while a result is stored and the cursor is short of its end, the cursor advances by exactly one and never passes the number of results |
| ExtractorView.Extractor.ClearClick | src/components/Extractor.tsx:356-371 | Clear, which exists whenever a result is stored and can be pressed from the keyboard even while faded out, hides results and itself, clears the message and starts the reset timer; the invariant is kept |
| ExtractorView.Extractor.ClearTimer | src/components/Extractor.tsx:362-367 | the stored result is dropped, the input emptied, the cursor reset to 0 and the input shown |
| ExtractorView.Extractor.Panel | src/components/Extractor.tsx:343-351 | the panel is present if and only if a result is stored and rendering is allowed; it has one row per sentence and reveals exactly the rows up to the cursor |
| Centering.ParseText | tst.py:11-82 | the handler's answer equals the specification `ParseSpec`: 400 without `text`, 500 when `text` is not a string, 400 for blank text, and the per-sentence records otherwise |
| Centering.AnalyseSentence | tst.py:31-77 | the token loop and the backward sentence scan build exactly the record `SentenceResult` of that sentence |
| Centering.AnalyseAll | tst.py:31-77 | one record per sentence |
| Centering.ParseSpec | tst.py:11-82 | what `parse_text` answers; no contract of its own: `ParseText` is proved equal to it, and `MissingTextRefused`, `BlankTextRefused` and `ParsedPerSentence` state its cases |
| Centering.Put | tst.py:59 | `antecedents[p] = a`; no contract of its own: `PutKeys` and `PutGet` state key order and read-after-write |
| Centering.PutKeys | tst.py:59 | assigning a dictionary key appends it to the key order when it is new and keeps the order otherwise |
| Centering.PutGet | tst.py:59 | after assigning a key, reading it gives the new value and other keys are unchanged |
| Centering.CbFor | tst.py:41-64 | `c_b` of a sentence; no contract of its own: `CbForKeys` and `CbLastOccurrenceWins` state its keys and values |
| Centering.CbForKeys | tst.py:41-64 | the keys of `c_b` are the pronoun texts of this sentence and of no other, each once, in order of first occurrence |
| Centering.CbLastOccurrenceWins | tst.py:44-64 | the `c_b` entry of a pronoun carries the antecedent chosen for its last occurrence in the sentence |
| Centering.SameSentenceRule | tst.py:47-50 | a possessive or subject pronoun takes the first earlier token of its sentence whose dependency label is `nsubj`, `PROPN` or `dobj` |
| Centering.NearestPrevious | tst.py:52-58 | the backward scan finds nothing if and only if no earlier sentence has a proper noun, noun or root; otherwise it returns the candidates of one earlier sentence |
| Centering.NearestPreviousSkips | tst.py:52-58 | the backward scan returns the candidates of the nearest earlier sentence that has any |
| Centering.PreviousSentenceRule | tst.py:51-59 | without a same-sentence candidate, the pronoun takes the first proper noun, noun or root of the nearest earlier sentence that has one |
| Centering.UnknownRule | tst.py:59 | with no candidate anywhere, the antecedent is `Unknown` |
| Centering.FirstSentenceUnknown | tst.py:51-59 | in the first sentence a pronoun without a same-sentence candidate gets `Unknown` |
| Centering.Antecedent | tst.py:44-59 | the antecedent of a pronoun; no contract of its own: `SameSentenceRule`, `PreviousSentenceRule`, `UnknownRule` and `AntecedentLooksBack` state how it is chosen |
| Centering.AntecedentLooksBack | tst.py:44-59 | the antecedent is `Unknown` or the text of a token of the pronoun's own sentence or of an earlier one |
| Centering.CfFor | tst.py:67-71 | `c_f` of a sentence; no contract of its own: `CfForExact` states its contents |
| Centering.CfForExact | tst.py:67-71 | `c_f` lists exactly the nouns, proper nouns and entity tokens, in token order, each typed by its entity type if it has one and by its part of speech otherwise |
| Centering.MissingTextRefused | tst.py:16-18 | a body without `text` is refused with status 400 and `No text provided` |
| Centering.BlankTextRefused | tst.py:20-22 | a string `text` is refused as empty, with status 400, if and only if it is all white space; otherwise it is parsed |
| Centering.ParsedPerSentence | tst.py:24-79 | a non-blank text gets one record per sentence in order, each with the sentence's own text and entities, one `{text, pos, dep}` record per token holding that token's values, and a `c_b` whose keys are exactly that sentence's pronouns |

## Left out

- Rendering: CSS classes beyond the three word styles, `framer-motion` animation and delays, the
  arrow drawing library, dark mode and the height animation are not modelled.
- Network and JSON: `fetch`, the HTTP status and JSON decoding are reduced to `Reply(None)` for any
  failure. The payload keeps, for each of `results.results`, `results.relations` and `sentences`,
  whether it is an array. The array elements are taken to have the declared types; the component
  does not check them either.
- Timers are events with pending counters. Real time, the 500 ms and 2000 ms delays and their
  ordering against other events are not modelled. Any interleaving the counters allow is allowed.
- `toLowerCase` is modelled on ASCII letters only. Unicode case mapping is not modelled.
- `tst.py` with a request body that is JSON but not an object, or any exception other than a
  non-string `text`, is not modelled. Flask, CORS, the logger and the `__main__` block are left out.
- `nlp` (spaCy) is a parameter. Tokens, sentences and entities are taken as given, with token
  positions increasing along a sentence where a lemma needs it (`DocOrdered`).
- The unused `sentences` field of the reply is checked for shape and then dropped, as the
  component does.
- The textarea's value is the parent's state in the source. Here it is a field of the component.
