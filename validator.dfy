/**
  The input validator of the Extractor component (`validateInput`): the raw text is cut into
  utterances at runs of `.` and line breaks, each utterance is trimmed and blank ones are
  dropped; there must be between one and five utterances, each of at most ten words.
 */
module InputValidator {
  import opened Wrappers
  import opened Strings

  datatype ValidationError = EmptyInput | TooManyUtterances | UtteranceTooLong

  const MaxUtterances: nat := 5
  const MaxWordsPerUtterance: nat := 10

  /** The characters of the class `[.\n]` that ends an utterance. */
  predicate IsTerminator(c: char) {
    c == '.' || c == '\n'
  }

  /** A character that carries no word content: an utterance end or white space. */
  predicate IsTerminatorOrSpace(c: char) {
    IsTerminator(c) || IsJsSpace(c)
  }

  /** The message shown for each validation error. */
  function Message(e: ValidationError): string {
    match e
    case EmptyInput => "Input cannot be empty. Please enter at least one utterance."
    case TooManyUtterances => "Input exceeds the maximum of 5 utterances."
    case UtteranceTooLong => "Each utterance can have a maximum of 10 words."
  }

  /** JavaScript's `s.trim()`. */
  function JsTrim(s: string): string {
    Trim(s, IsJsSpace)
  }

  /** `.map((line) => line.trim()).filter((line) => line !== "")`, with `trim` for `line.trim()`. */
  function TrimmedNonEmpty(pieces: seq<string>, trim: string -> string): (r: seq<string>)
    ensures forall j :: 0 <= j < |r| ==> r[j] != ""
    decreases |pieces|
  {
    if pieces == [] then []
    else
      var t := trim(pieces[|pieces| - 1]);
      TrimmedNonEmpty(pieces[..|pieces| - 1], trim) + (if t == "" then [] else [t])
  }

  /** The utterances of the raw text, in order; none is blank. */
  function Utterances(input: string): (r: seq<string>)
    ensures forall j :: 0 <= j < |r| ==> r[j] != ""
  {
    TrimmedNonEmpty(SplitRuns(input, IsTerminator), JsTrim)
  }

  /** `utterance.split(/\s+/).length`: at least one, since `split` never returns an empty array. */
  function WordCount(utterance: string): (n: nat)
    ensures n >= 1
  {
    |SplitRuns(utterance, IsJsSpace)|
  }

  /** The verdict of `validateInput`, rule by rule; `None` stands for the `null` that accepts. */
  function Validate(input: string): Option<ValidationError> {
    var utterances := Utterances(input);
    if |utterances| == 0 then Some(EmptyInput)
    else if |utterances| > MaxUtterances then Some(TooManyUtterances)
    else if exists k :: 0 <= k < |utterances| && WordCount(utterances[k]) > MaxWordsPerUtterance
    then Some(UtteranceTooLong)
    else None
  }

  /** `validateInput`: the early-returning loop over the utterances. */
  method ValidateInput(input: string) returns (err: Option<ValidationError>)
    ensures err == Validate(input)
  {
    var utterances := Utterances(input);
    if |utterances| == 0 {
      return Some(EmptyInput);
    }
    if |utterances| > MaxUtterances {
      return Some(TooManyUtterances);
    }
    for k := 0 to |utterances|
      invariant forall j :: 0 <= j < k ==> WordCount(utterances[j]) <= MaxWordsPerUtterance
    {
      var wordCount := WordCount(utterances[k]);
      if wordCount > MaxWordsPerUtterance {
        return Some(UtteranceTooLong);
      }
    }
    return None;
  }

  // ---------------------------------------------------------------------------------------
  // What an utterance is.

  /** A string that is non-empty, has white space at neither end and holds no `.` or line break. */
  predicate IsUtterance(u: string) {
    u != [] && !IsJsSpace(u[0]) && !IsJsSpace(u[|u| - 1]) &&
    forall k :: 0 <= k < |u| ==> !IsTerminator(u[k])
  }

  lemma {:induction false} TrimmedNonEmptyShape(pieces: seq<string>)
    requires forall j, k :: 0 <= j < |pieces| && 0 <= k < |pieces[j]| ==> !IsTerminator(pieces[j][k])
    ensures forall j :: 0 <= j < |TrimmedNonEmpty(pieces, JsTrim)| ==> IsUtterance(TrimmedNonEmpty(pieces, JsTrim)[j])
    decreases |pieces|
  {
    if pieces != [] {
      var p := pieces[|pieces| - 1];
      var t := Trim(p, IsJsSpace);
      TrimmedNonEmptyShape(pieces[..|pieces| - 1]);
      if t != "" {
        TrimEnds(p, IsJsSpace);
        TrimKeepsAbsence(p, IsJsSpace, IsTerminator);
        assert IsUtterance(t);
      }
    }
  }

  /** Every utterance is non-empty, trimmed and free of utterance terminators. */
  lemma UtterancesAreUtterances(input: string)
    ensures forall j :: 0 <= j < |Utterances(input)| ==> IsUtterance(Utterances(input)[j])
  {
    SplitRunsPiecesClean(input, IsTerminator);
    TrimmedNonEmptyShape(SplitRuns(input, IsTerminator));
  }

  lemma {:induction false} TrimmedNonEmptyKeepsWords(pieces: seq<string>)
    ensures DropAll(Flatten(TrimmedNonEmpty(pieces, JsTrim)), IsJsSpace) == DropAll(Flatten(pieces), IsJsSpace)
    decreases |pieces|
  {
    if pieces != [] {
      var front := pieces[..|pieces| - 1];
      var p := pieces[|pieces| - 1];
      var t := Trim(p, IsJsSpace);
      var us := TrimmedNonEmpty(front, JsTrim);
      TrimmedNonEmptyKeepsWords(front);
      assert pieces == front + [p];
      DropAllFlattenSnoc(front, p, IsJsSpace);
      TrimKeepsContent(p, IsJsSpace);
      if t == "" {
        assert TrimmedNonEmpty(pieces, JsTrim) == us;
      } else {
        DropAllFlattenSnoc(us, t, IsJsSpace);
      }
    }
  }

  lemma {:induction false} DropAllTwice(s: string)
    ensures DropAll(DropAll(s, IsTerminator), IsJsSpace) == DropAll(s, IsTerminatorOrSpace)
    decreases |s|
  {
    if s != [] {
      var s' := s[..|s| - 1];
      DropAllTwice(s');
      DropAllAppend(DropAll(s', IsTerminator), if IsTerminator(s[|s| - 1]) then [] else [s[|s| - 1]], IsJsSpace);
    }
  }

  /**
    Cutting into utterances loses no word content: the utterances, with white space removed,
    hold exactly the characters of the input that are neither terminators nor white space.
   */
  lemma UtterancesKeepWords(input: string)
    ensures DropAll(Flatten(Utterances(input)), IsJsSpace) == DropAll(input, IsTerminatorOrSpace)
  {
    TrimmedNonEmptyKeepsWords(SplitRuns(input, IsTerminator));
    SplitRunsKeepsContent(input, IsTerminator);
    DropAllTwice(input);
  }

  /** The whitespace pieces of an utterance are exactly its words: none is empty or holds a space. */
  lemma WordCountCountsWords(u: string)
    requires IsUtterance(u)
    ensures forall j :: 0 <= j < |SplitRuns(u, IsJsSpace)| ==> SplitRuns(u, IsJsSpace)[j] != []
    ensures forall j, k :: 0 <= j < |SplitRuns(u, IsJsSpace)| && 0 <= k < |SplitRuns(u, IsJsSpace)[j]| ==>
                           !IsJsSpace(SplitRuns(u, IsJsSpace)[j][k])
    ensures Flatten(SplitRuns(u, IsJsSpace)) == DropAll(u, IsJsSpace)
  {
    SplitRunsNoEmptyPiece(u, IsJsSpace);
    SplitRunsPiecesClean(u, IsJsSpace);
    SplitRunsKeepsContent(u, IsJsSpace);
  }

  // ---------------------------------------------------------------------------------------
  // The verdicts.

  /** The empty-input error is returned exactly for text made only of `.`, line breaks and white space. */
  lemma ValidateEmptyIff(input: string)
    ensures Validate(input) == Some(EmptyInput) <==>
            forall k :: 0 <= k < |input| ==> IsTerminatorOrSpace(input[k])
  {
    var us := Utterances(input);
    UtterancesKeepWords(input);
    DropAllEmptyIff(input, IsTerminatorOrSpace);
    DropAllEmptyIff(Flatten(us), IsJsSpace);
    if us != [] {
      UtterancesAreUtterances(input);
      assert us == [us[0]] + us[1..];
      FlattenCons(us[0], us[1..]);
      assert Flatten(us)[0] == us[0][0];
    }
  }

  /** The utterance-count error wins over any word count, and is returned exactly above five utterances. */
  lemma ValidateTooManyIff(input: string)
    ensures Validate(input) == Some(TooManyUtterances) <==> |Utterances(input)| > MaxUtterances
  {
  }

  /**
    Otherwise the word-limit error is returned exactly when some utterance has more than ten words,
    and in every remaining case the input is accepted.
   */
  lemma ValidateTooLongIff(input: string)
    requires 1 <= |Utterances(input)| <= MaxUtterances
    ensures Validate(input) == Some(UtteranceTooLong) <==>
            exists k :: 0 <= k < |Utterances(input)| && WordCount(Utterances(input)[k]) > MaxWordsPerUtterance
    ensures Validate(input) == None <==>
            forall k :: 0 <= k < |Utterances(input)| ==> WordCount(Utterances(input)[k]) <= MaxWordsPerUtterance
  {
  }

  // ---------------------------------------------------------------------------------------
  // Written prose: sentences of words, each sentence closed by a full stop.

  /** A word: non-empty, with neither white space nor an utterance terminator in it. */
  predicate IsWord(w: string) {
    w != [] && forall k :: 0 <= k < |w| ==> !IsTerminatorOrSpace(w[k])
  }

  /** A sentence written out: its words separated by single spaces. */
  function Spelled(words: seq<string>): string {
    JoinWith(words, " ")
  }

  /** The sentences written out, one after another. */
  function SpelledAll(sentences: seq<seq<string>>): seq<string> {
    seq(|sentences|, i requires 0 <= i < |sentences| => Spelled(sentences[i]))
  }

  /** Prose as people type it: each sentence closed by `.` and followed by one space before the next. */
  function Prose(sentences: seq<seq<string>>): string {
    JoinWith(SpelledAll(sentences), ". ") + "."
  }

  /** The pieces between the full stops of joined utterances: every one after the first starts with the space. */
  function SpaceLed(us: seq<string>): (r: seq<string>)
    ensures |r| == |us|
    decreases |us|
  {
    if |us| <= 1 then us else SpaceLed(us[..|us| - 1]) + [" " + us[|us| - 1]]
  }

  lemma {:induction false} JoinWithSpaceLed(us: seq<string>)
    ensures JoinWith(us, ". ") == JoinWith(SpaceLed(us), ".")
    decreases |us|
  {
    if |us| > 1 {
      var front := us[..|us| - 1];
      var last := us[|us| - 1];
      JoinWithSpaceLed(front);
      JoinWithSnoc(SpaceLed(front), " " + last, ".");
    }
  }

  /** An utterance, with or without one space before it, trims to itself. */
  lemma TrimUtterance(u: string, led: bool)
    requires IsUtterance(u)
    ensures Trim((if led then " " else "") + u, IsJsSpace) == u
  {
    TrimIdentity(u, IsJsSpace);
    if led {
      TrimDropsLeading(' ', u, IsJsSpace);
    } else {
      assert "" + u == u;
    }
  }

  /** Pieces that each trim to a non-empty string give exactly those strings. */
  lemma {:induction false} TrimmedNonEmptyTrimsTo(ps: seq<string>, us: seq<string>, trim: string -> string)
    requires |ps| == |us|
    requires forall i :: 0 <= i < |ps| ==> us[i] != "" && trim(ps[i]) == us[i]
    ensures TrimmedNonEmpty(ps, trim) == us
    decreases |ps|
  {
    if ps != [] {
      var n := |ps| - 1;
      TrimmedNonEmptyTrimsTo(ps[..n], us[..n], trim);
      assert us == us[..n] + [us[n]];
    }
  }

  /** Each piece led by a space is its utterance with the space in front. */
  lemma {:induction false} SpaceLedAt(us: seq<string>, i: nat)
    requires i < |us|
    ensures SpaceLed(us)[i] == (if i == 0 then "" else " ") + us[i]
    decreases |us|
  {
    if |us| > 1 && i < |us| - 1 {
      SpaceLedAt(us[..|us| - 1], i);
    }
  }

  /** The pieces led by a space trim back to the utterances. */
  lemma TrimmedNonEmptySpaceLed(us: seq<string>)
    requires forall i :: 0 <= i < |us| ==> IsUtterance(us[i])
    ensures TrimmedNonEmpty(SpaceLed(us), JsTrim) == us
  {
    forall i | 0 <= i < |us|
      ensures us[i] != "" && JsTrim(SpaceLed(us)[i]) == us[i]
    {
      SpaceLedAt(us, i);
      TrimUtterance(us[i], i > 0);
    }
    TrimmedNonEmptyTrimsTo(SpaceLed(us), us, JsTrim);
  }

  /** The pieces led by a space are still non-empty and free of terminators. */
  lemma SpaceLedPieces(us: seq<string>)
    requires forall i :: 0 <= i < |us| ==> IsUtterance(us[i])
    ensures forall i :: 0 <= i < |us| ==> SpaceLed(us)[i] != []
    ensures forall i, k :: 0 <= i < |us| && 0 <= k < |SpaceLed(us)[i]| ==> !IsTerminator(SpaceLed(us)[i][k])
  {
    forall i | 0 <= i < |us|
      ensures SpaceLed(us)[i] != [] && forall k :: 0 <= k < |SpaceLed(us)[i]| ==> !IsTerminator(SpaceLed(us)[i][k])
    {
      SpaceLedAt(us, i);
      var p := SpaceLed(us)[i];
      if i > 0 {
        assert forall k :: 1 <= k < |p| ==> p[k] == us[i][k - 1];
      } else {
        assert p == us[i];
      }
    }
  }

  /** A closing separator leaves one empty piece at the end. */
  lemma SplitRunsJoinClosed(ps: seq<string>, t: char, sep: char -> bool)
    requires sep(t) && ps != []
    requires forall i :: 0 <= i < |ps| ==> ps[i] != []
    requires forall i, k :: 0 <= i < |ps| && 0 <= k < |ps[i]| ==> !sep(ps[i][k])
    ensures SplitRuns(JoinWith(ps, [t]) + [t], sep) == ps + [[]]
  {
    var x := JoinWith(ps, [t]);
    SplitRunsJoin(ps, t, sep);
    JoinWithLast(ps, [t]);
    SplitRunsSepThen(x, t, [], sep);
    assert x + [t] == x + [t] + [];
  }

  /** A final empty piece is dropped. */
  lemma TrimmedNonEmptyDropsEmpty(ps: seq<string>, trim: string -> string)
    requires trim([]) == []
    ensures TrimmedNonEmpty(ps + [[]], trim) == TrimmedNonEmpty(ps, trim)
  {
    assert (ps + [[]])[..|ps|] == ps;
  }

  /** Utterances joined by `. ` and closed by `.` are cut back into exactly those utterances. */
  lemma ProseUtterances(us: seq<string>)
    requires us != []
    requires forall i :: 0 <= i < |us| ==> IsUtterance(us[i])
    ensures Utterances(JoinWith(us, ". ") + ".") == us
  {
    var ps := SpaceLed(us);
    JoinWithSpaceLed(us);
    SpaceLedPieces(us);
    SplitRunsJoinClosed(ps, '.', IsTerminator);
    TrimmedNonEmptyDropsEmpty(ps, JsTrim);
    TrimmedNonEmptySpaceLed(us);
  }

  /** A sentence of words spelled out with single spaces is an utterance of exactly that many words. */
  lemma SpelledWords(words: seq<string>)
    requires words != []
    requires forall i :: 0 <= i < |words| ==> IsWord(words[i])
    ensures IsUtterance(Spelled(words))
    ensures WordCount(Spelled(words)) == |words|
  {
    assert forall i :: 0 <= i < |words| ==> words[i] != [];
    SplitRunsJoin(words, ' ', IsJsSpace);
    JoinWithAll(words, " ", (c: char) => !IsTerminator(c));
    JoinWithFirst(words, " ");
    JoinWithLast(words, " ");
  }

  /** The utterances of written prose are its sentences, each with its own number of words. */
  lemma ProseSentences(sentences: seq<seq<string>>)
    requires sentences != []
    requires forall i :: 0 <= i < |sentences| ==> sentences[i] != []
    requires forall i, j :: 0 <= i < |sentences| && 0 <= j < |sentences[i]| ==> IsWord(sentences[i][j])
    ensures Utterances(Prose(sentences)) == SpelledAll(sentences)
    ensures forall i :: 0 <= i < |sentences| ==> WordCount(Utterances(Prose(sentences))[i]) == |sentences[i]|
  {
    var us := SpelledAll(sentences);
    forall i | 0 <= i < |us|
      ensures IsUtterance(us[i]) && WordCount(us[i]) == |sentences[i]|
    {
      SpelledWords(sentences[i]);
    }
    ProseUtterances(us);
  }

  /**
   The verdict on written prose: more than five sentences is too many, otherwise a sentence of more
   than ten words is too long, and anything else is accepted.
   */
  lemma ProseVerdict(sentences: seq<seq<string>>)
    requires sentences != []
    requires forall i :: 0 <= i < |sentences| ==> sentences[i] != []
    requires forall i, j :: 0 <= i < |sentences| && 0 <= j < |sentences[i]| ==> IsWord(sentences[i][j])
    ensures Validate(Prose(sentences)) ==
              if |sentences| > MaxUtterances then Some(TooManyUtterances)
              else if exists i :: 0 <= i < |sentences| && |sentences[i]| > MaxWordsPerUtterance
              then Some(UtteranceTooLong)
              else None
  {
    ProseSentences(sentences);
  }

  /**
   The first demonstration text of the application, written as prose of its words (`John's` and
   `driver's` keep their apostrophes), passes validation.
   */
  lemma FirstDemoAccepted()
    ensures Validate(Prose([["John", "has", "been", "acting", "quite", "odd"],
                            ["He", "called", "up", "Mike", "yesterday"],
                            ["Mike", "was", "studying", "for", "his", "driver's", "test"],
                            ["He", "was", "annoyed", "by", "John's", "call"]])) == None
  {
    var text := [["John", "has", "been", "acting", "quite", "odd"],
                 ["He", "called", "up", "Mike", "yesterday"],
                 ["Mike", "was", "studying", "for", "his", "driver's", "test"],
                 ["He", "was", "annoyed", "by", "John's", "call"]];
    forall i | 0 <= i < |text|
      ensures forall j :: 0 <= j < |text[i]| ==> IsWord(text[i][j])
    {
    }
    ProseVerdict(text);
  }

  /** The second demonstration text of the application, written as prose of its words, passes validation. */
  lemma SecondDemoAccepted()
    ensures Validate(Prose([["Jill", "caught", "a", "ball"],
                            ["She", "tossed", "it", "to", "John"],
                            ["He", "caught", "it", "while", "in", "the", "air"]])) == None
  {
    var text := [["Jill", "caught", "a", "ball"],
                 ["She", "tossed", "it", "to", "John"],
                 ["He", "caught", "it", "while", "in", "the", "air"]];
    forall i | 0 <= i < |text|
      ensures forall j :: 0 <= j < |text[i]| ==> IsWord(text[i][j])
    {
    }
    ProseVerdict(text);
  }

  /** Six one-word sentences are too many. */
  lemma TooManySentencesRejected()
    ensures Validate(Prose([["One"], ["Two"], ["Three"], ["Four"], ["Five"], ["Six"]])) == Some(TooManyUtterances)
  {
    var text := [["One"], ["Two"], ["Three"], ["Four"], ["Five"], ["Six"]];
    forall i | 0 <= i < |text|
      ensures forall j :: 0 <= j < |text[i]| ==> IsWord(text[i][j])
    {
    }
    ProseVerdict(text);
  }

  /** A sentence of eleven words is too long. */
  lemma ElevenWordsRejected()
    ensures Validate(Prose([["a", "b", "c", "d", "e", "f", "g", "h", "i", "j", "k"]])) == Some(UtteranceTooLong)
  {
    var text := [["a", "b", "c", "d", "e", "f", "g", "h", "i", "j", "k"]];
    forall j | 0 <= j < |text[0]|
      ensures IsWord(text[0][j])
    {
    }
    ProseVerdict(text);
  }
}
