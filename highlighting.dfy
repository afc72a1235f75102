/**
  What the results panel shows for an analysis: one row per sentence, labelled `U₁`, `U₂`, …,
  revealed up to the current index, whose words are split on single spaces and styled as Cb
  (blue), Cf (green) or plain, each word and each row being an anchor that receives the
  relations leaving it.
 */
module Highlighting {
  import opened Wrappers
  import opened Strings
  import opened MentionMatcher
  import opened Anchors

  /** The analysis of one sentence as the backend sends it: `{ Cb, Cf, sentence }`. */
  datatype CenteringResult = CenteringResult(cb: Option<string>, cf: seq<string>, sentence: string)

  /** The stored analysis: the per-sentence results and the relations to draw. */
  datatype AnalysisResult = AnalysisResult(results: seq<CenteringResult>, relations: seq<Relation>)

  /** The class a word receives: `text-blue-500 font-bold`, `text-green-500 font-bold` or none. */
  datatype Style = CbStyle | CfStyle | Plain

  /** One rendered word: its anchor id, its text, its classification, its style and its outgoing relations. */
  datatype WordView = WordView(id: string, text: string, isCb: bool, isCf: bool, style: Style, relations: seq<Edge>)

  /** Cb wins over Cf. */
  function StyleOf(isCb: bool, isCf: bool): Style {
    if isCb then CbStyle else if isCf then CfStyle else Plain
  }

  /** The view of word `wordIndex` of sentence `sentenceIndex`. */
  function ViewWord(word: string, wordIndex: nat, cb: Option<string>, cf: seq<string>,
                    sentenceIndex: nat, rels: seq<Relation>, highlightCb: bool): WordView
  {
    var id := WordId(sentenceIndex, wordIndex);
    var isCb := cb.Some? && cb.value != "" && highlightCb && IsWordInMentions(word, [cb.value]);
    var isCf := IsWordInMentions(word, cf);
    WordView(id, word + " ", isCb, isCf, StyleOf(isCb, isCf), Outgoing(rels, id))
  }

  /** `highlightTextWithAnchors`: the sentence split on single spaces, one view per piece. */
  function HighlightWords(sentence: string, cb: Option<string>, cf: seq<string>,
                          sentenceIndex: nat, rels: seq<Relation>): (ws: seq<WordView>)
    ensures |ws| == |SplitOn(sentence, ' ')|
  {
    var words := SplitOn(sentence, ' ');
    var highlightCb := CanHighlightCb(cb, sentence);
    seq(|words|, w requires 0 <= w < |words| => ViewWord(words[w], w, cb, cf, sentenceIndex, rels, highlightCb))
  }

  /**
    A word is Cb exactly when the Cb is a non-empty string occurring (ignoring case) in the
    sentence and the word matches it; a word is Cf exactly when it matches some Cf mention,
    independently of Cb; the style is Cb for Cb words, Cf for the other Cf words and plain otherwise.
   */
  lemma HighlightWordsClassify(sentence: string, cb: Option<string>, cf: seq<string>,
                               sentenceIndex: nat, rels: seq<Relation>, w: nat)
    requires w < |SplitOn(sentence, ' ')|
    ensures var v := HighlightWords(sentence, cb, cf, sentenceIndex, rels)[w];
            var word := SplitOn(sentence, ' ')[w];
            && (v.isCb <==> cb.Some? && cb.value != "" &&
                            (exists i :: OccursAt(Lower(sentence), Lower(cb.value), i)) &&
                            IsWordInMentions(word, [cb.value]))
            && (v.isCf <==> IsWordInMentions(word, cf))
            && (v.style == CbStyle <==> v.isCb)
            && (v.style == CfStyle <==> !v.isCb && v.isCf)
            && (v.style == Plain <==> !v.isCb && !v.isCf)
  {
    CanHighlightCbIff(cb, sentence);
  }

  /** `ps` with `c` appended to every piece. */
  function Suffixed(ps: seq<string>, c: char): seq<string> {
    seq(|ps|, k requires 0 <= k < |ps| => ps[k] + [c])
  }

  /** Writing each piece followed by the separator spells the joined pieces and one trailing separator. */
  lemma {:induction false} FlattenSuffixed(ps: seq<string>, c: char)
    requires ps != []
    ensures Flatten(Suffixed(ps, c)) == JoinWith(ps, [c]) + [c]
    decreases |ps|
  {
    var front := ps[..|ps| - 1];
    var p := ps[|ps| - 1];
    assert ps == front + [p];
    if front == [] {
      assert Suffixed(ps, c) == [p + [c]];
      FlattenSnoc([], p + [c]);
    } else {
      FlattenSuffixed(front, c);
      assert Suffixed(ps, c) == Suffixed(front, c) + [p + [c]];
      FlattenSnoc(Suffixed(front, c), p + [c]);
      JoinWithSnoc(front, p, [c]);
    }
  }

  /** The texts of a list of word views, in order. */
  function Texts(ws: seq<WordView>): seq<string> {
    seq(|ws|, k requires 0 <= k < |ws| => ws[k].text)
  }

  /**
    The words are the single-space pieces of the sentence, none containing a space, and the
    rendered words, each written with its trailing space, spell the sentence followed by one space.
   */
  lemma HighlightWordsSpellSentence(sentence: string, cb: Option<string>, cf: seq<string>,
                                    sentenceIndex: nat, rels: seq<Relation>)
    ensures var ws := HighlightWords(sentence, cb, cf, sentenceIndex, rels);
            && (forall w, k :: 0 <= w < |ws| && 0 <= k < |ws[w].text| - 1 ==> ws[w].text[k] != ' ')
            && Flatten(Texts(ws)) == sentence + " "
  {
    var ws := HighlightWords(sentence, cb, cf, sentenceIndex, rels);
    var words := SplitOn(sentence, ' ');
    SplitOnPiecesClean(sentence, ' ');
    assert Texts(ws) == Suffixed(words, ' ');
    FlattenSuffixed(words, ' ');
    JoinSplitOn(sentence, ' ');
  }

  /**
    Word `w` of sentence `s` is the anchor `word-s-w`; no two words of a sentence share an id,
    and each word receives the relations whose source is its own id.
   */
  lemma HighlightWordsAnchors(sentence: string, cb: Option<string>, cf: seq<string>,
                              sentenceIndex: nat, rels: seq<Relation>)
    ensures var ws := HighlightWords(sentence, cb, cf, sentenceIndex, rels);
            && (forall w :: 0 <= w < |ws| ==>
                  ws[w].id == WordId(sentenceIndex, w) && ws[w].relations == Outgoing(rels, ws[w].id))
            && (forall v, w :: 0 <= v < w < |ws| ==> ws[v].id != ws[w].id)
  {
    var ws := HighlightWords(sentence, cb, cf, sentenceIndex, rels);
    forall v, w | 0 <= v < w < |ws|
      ensures ws[v].id != ws[w].id
    {
      if ws[v].id == ws[w].id {
        WordIdInjective(sentenceIndex, v, sentenceIndex, w);
      }
    }
  }

  // ---------------------------------------------------------------------------------------
  // The row label `U₁`, `U₂`, …

  /** The subscript form of a decimal digit: U+2080 plus its value. */
  function SubscriptDigit(c: char): (s: char)
    requires IsDigit(c)
    ensures '\U{2080}' <= s <= '\U{2089}'
  {
    (0x2080 + (c as int - '0' as int)) as char
  }

  /** The digits of `index + 1`, each in subscript form. */
  function SubscriptLabel(index: nat): (sub: string)
    ensures |sub| == |NatToString(index + 1)|
    ensures forall k :: 0 <= k < |sub| ==> '\U{2080}' <= sub[k] <= '\U{2089}'
  {
    var d := NatToString(index + 1);
    seq(|d|, k requires 0 <= k < |d| => SubscriptDigit(d[k]))
  }

  /** Reading a subscript label back as ordinary digits. */
  function SubscriptDigits(sub: string): (d: string)
    requires forall k :: 0 <= k < |sub| ==> '\U{2080}' <= sub[k] <= '\U{2089}'
    ensures |d| == |sub| && AllDigits(d)
  {
    seq(|sub|, k requires 0 <= k < |sub| => ('0' as int + (sub[k] as int - 0x2080)) as char)
  }

  /** The label of row `index` reads back as `index + 1`. */
  lemma SubscriptLabelRoundTrip(index: nat)
    ensures DigitsValue(SubscriptDigits(SubscriptLabel(index))) == index + 1
  {
    assert SubscriptDigits(SubscriptLabel(index)) == NatToString(index + 1);
    NatToStringRoundTrip(index + 1);
  }

  /** Distinct rows have distinct labels. */
  lemma SubscriptLabelInjective(i: nat, j: nat)
    requires SubscriptLabel(i) == SubscriptLabel(j)
    ensures i == j
  {
    SubscriptLabelRoundTrip(i);
    SubscriptLabelRoundTrip(j);
  }

  // ---------------------------------------------------------------------------------------
  // The rows of the results panel.

  /**
    One row: its anchor id, its label, whether it is revealed, its words (rendered only when
    revealed), the Cb column text and whether it is emphasised, the Cf column text and the
    relations leaving the row.
   */
  datatype SentenceView = SentenceView(id: string, rowLabel: string, revealed: bool, words: Option<seq<WordView>>,
                                       cbText: string, cbEmphasised: bool, cfText: string, relations: seq<Edge>)

  /** The Cb column: `result.Cb || "None"`. */
  function CbText(cb: Option<string>): string {
    if cb.Some? && cb.value != "" then cb.value else "None"
  }

  /** The Cf column: `{` + the mentions joined with `, ` + `}`. */
  function CfText(cf: seq<string>): string {
    "{" + JoinWith(cf, ", ") + "}"
  }

  function ViewSentence(r: AnalysisResult, i: nat, currentIndex: nat): SentenceView
    requires i < |r.results|
  {
    var res := r.results[i];
    var id := SentenceId(i);
    SentenceView(id, "U" + SubscriptLabel(i), i <= currentIndex,
                 if i <= currentIndex then Some(HighlightWords(res.sentence, res.cb, res.cf, i, r.relations)) else None,
                 CbText(res.cb), res.cb.Some? && res.cb.value != "", CfText(res.cf), Outgoing(r.relations, id))
  }

  /** `renderAnalysisResult` once rendering is allowed: one row per result, in order. */
  function SentenceViews(r: AnalysisResult, currentIndex: nat): (vs: seq<SentenceView>)
    ensures |vs| == |r.results|
  {
    seq(|r.results|, i requires 0 <= i < |r.results| => ViewSentence(r, i, currentIndex))
  }

  /**
    Rows are revealed exactly up to the current index, so the revealed rows are a prefix of the
    panel; a revealed row shows the highlighted words of its own sentence and a hidden one shows
    none; every row is labelled with its one-based position.
   */
  lemma SentenceViewsReveal(r: AnalysisResult, currentIndex: nat)
    ensures var vs := SentenceViews(r, currentIndex);
            && (forall i :: 0 <= i < |vs| ==> (vs[i].revealed <==> i <= currentIndex))
            && (forall i, j :: 0 <= i < j < |vs| && vs[j].revealed ==> vs[i].revealed)
            && (forall i :: 0 <= i < |vs| ==> (vs[i].words.Some? <==> vs[i].revealed))
            && (forall i :: 0 <= i < |vs| && vs[i].words.Some? ==>
                  vs[i].words.value == HighlightWords(r.results[i].sentence, r.results[i].cb,
                                                      r.results[i].cf, i, r.relations))
            && (forall i :: 0 <= i < |vs| ==> vs[i].rowLabel == "U" + SubscriptLabel(i))
            && (currentIndex + 1 >= |vs| ==> forall i :: 0 <= i < |vs| ==> vs[i].revealed)
  {
  }

  /**
    The Cb column shows the Cb itself, emphasised, when it is a non-empty string and `None`,
    not emphasised, when it is missing or empty.
   */
  lemma CbColumn(r: AnalysisResult, currentIndex: nat, i: nat)
    requires i < |r.results|
    ensures var v := SentenceViews(r, currentIndex)[i];
            var cb := r.results[i].cb;
            && (v.cbEmphasised <==> cb.Some? && cb.value != "")
            && (v.cbEmphasised ==> v.cbText == cb.value)
            && (!v.cbEmphasised ==> v.cbText == "None")
  {
  }

  /**
    Every anchor of the panel has its own id: rows have distinct ids, words of revealed rows
    have distinct ids across the whole panel, and no word shares its id with a row. Each
    relation therefore leaves at most one anchor.
   */
  lemma AnchorIdsDistinct(r: AnalysisResult, currentIndex: nat)
    ensures var vs := SentenceViews(r, currentIndex);
            && (forall i, j :: 0 <= i < j < |vs| ==> vs[i].id != vs[j].id)
            && (forall i, v, j, w ::
                  (0 <= i < |vs| && 0 <= j < |vs| && vs[i].words.Some? && vs[j].words.Some? &&
                   0 <= v < |vs[i].words.value| && 0 <= w < |vs[j].words.value| &&
                   vs[i].words.value[v].id == vs[j].words.value[w].id) ==> i == j && v == w)
            && (forall i, w, j ::
                  (0 <= i < |vs| && 0 <= j < |vs| && vs[i].words.Some? && 0 <= w < |vs[i].words.value|) ==>
                  vs[i].words.value[w].id != vs[j].id)
  {
    var vs := SentenceViews(r, currentIndex);
    forall i, j | 0 <= i < j < |vs|
      ensures vs[i].id != vs[j].id
    {
      if vs[i].id == vs[j].id {
        SentenceIdInjective(i, j);
      }
    }
    forall i, v, j, w | 0 <= i < |vs| && 0 <= j < |vs| && vs[i].words.Some? && vs[j].words.Some? &&
                        0 <= v < |vs[i].words.value| && 0 <= w < |vs[j].words.value| &&
                        vs[i].words.value[v].id == vs[j].words.value[w].id
      ensures i == j && v == w
    {
      WordIdInjective(i, v, j, w);
    }
    forall i, w, j | 0 <= i < |vs| && 0 <= j < |vs| && vs[i].words.Some? && 0 <= w < |vs[i].words.value|
      ensures vs[i].words.value[w].id != vs[j].id
    {
      WordIdIsNotSentenceId(i, w, j);
    }
  }
}
