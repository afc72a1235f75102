/**
  The mention matcher of the Extractor component: `normalizeWord`, `isWordInMentions` and
  `canHighlightCb`. A word matches a list of mentions when, after deleting `.`, `,`, `!`, `?` and
  lower-casing, it equals one whitespace-separated piece of some mention (membership, not phrase
  matching); Cb highlighting is allowed only when the Cb text occurs in the sentence.
 */
module MentionMatcher {
  import opened Wrappers
  import opened Strings

  /** The characters `[.,!?]` that `normalizeWord` deletes. */
  predicate IsPunct(c: char) {
    c == '.' || c == ',' || c == '!' || c == '?'
  }

  /** `normalizeWord`: every `.`, `,`, `!`, `?` deleted, wherever it stands, then lower-cased. */
  function Normalize(w: string): (r: string)
    ensures |r| <= |w|
    ensures forall k :: 0 <= k < |r| ==> !IsPunct(r[k]) && !('A' <= r[k] <= 'Z')
  {
    Lower(DropAll(w, IsPunct))
  }

  lemma LowerAppend(a: string, b: string)
    ensures Lower(a + b) == Lower(a) + Lower(b)
  {
  }

  /** Lower-casing first and deleting punctuation second gives the same word. */
  lemma {:induction false} NormalizeCommutes(w: string)
    ensures Normalize(w) == DropAll(Lower(w), IsPunct)
    decreases |w|
  {
    if w != [] {
      var w' := w[..|w| - 1];
      var c := w[|w| - 1];
      NormalizeCommutes(w');
      assert w == w' + [c];
      LowerAppend(w', [c]);
      assert Lower(w) == Lower(w') + [LowerChar(c)];
      assert Lower(w)[..|Lower(w)| - 1] == Lower(w');
      LowerAppend(DropAll(w', IsPunct), if IsPunct(c) then [] else [c]);
    }
  }

  /** Normalizing a normalized word changes nothing. */
  lemma NormalizeIdempotent(w: string)
    ensures Normalize(Normalize(w)) == Normalize(w)
  {
    var n := Normalize(w);
    DropAllNothing(n, IsPunct);
    LowerIdempotent(DropAll(w, IsPunct));
  }

  /** Deleting characters keeps a string free of a class of characters it was free of. */
  lemma {:induction false} DropAllKeepsAbsence(s: string, drop: char -> bool, bad: char -> bool)
    requires forall k :: 0 <= k < |s| ==> !bad(s[k])
    ensures forall k :: 0 <= k < |DropAll(s, drop)| ==> !bad(DropAll(s, drop)[k])
    decreases |s|
  {
    if s != [] {
      DropAllKeepsAbsence(s[..|s| - 1], drop, bad);
    }
  }

  /** Normalizing keeps a word free of a class of characters that has no lower-case letter. */
  lemma NormalizeKeepsAbsence(w: string, bad: char -> bool)
    requires forall k :: 0 <= k < |w| ==> !bad(w[k])
    requires forall c: char :: 'a' <= c <= 'z' ==> !bad(c)
    ensures forall k :: 0 <= k < |Normalize(w)| ==> !bad(Normalize(w)[k])
  {
    DropAllKeepsAbsence(w, IsPunct, bad);
  }

  /** Every piece of a list, once normalized, stays free of such a class. */
  lemma NormalizedPiecesKeepAbsence(pieces: seq<string>, bad: char -> bool)
    requires forall j, k :: 0 <= j < |pieces| && 0 <= k < |pieces[j]| ==> !bad(pieces[j][k])
    requires forall c: char :: 'a' <= c <= 'z' ==> !bad(c)
    ensures forall j, k :: 0 <= j < |pieces| && 0 <= k < |Normalize(pieces[j])| ==> !bad(Normalize(pieces[j])[k])
  {
    forall j | 0 <= j < |pieces| {
      NormalizeKeepsAbsence(pieces[j], bad);
    }
  }

  /** The words of one mention after normalization: `mention.split(/\s+/).map(normalizeWord)`. */
  function MentionWords(mention: string): seq<string> {
    var pieces := SplitRuns(mention, IsJsSpace);
    seq(|pieces|, j requires 0 <= j < |pieces| => Normalize(pieces[j]))
  }

  lemma MentionWordsAt(mention: string)
    ensures |MentionWords(mention)| == |SplitRuns(mention, IsJsSpace)|
    ensures forall j :: 0 <= j < |MentionWords(mention)| ==>
                        MentionWords(mention)[j] == Normalize(SplitRuns(mention, IsJsSpace)[j])
  {
  }

  /** No word of a mention contains white space, so a word holding a space never matches. */
  lemma MentionWordsNoSpace(mention: string)
    ensures forall j, k :: 0 <= j < |MentionWords(mention)| && 0 <= k < |MentionWords(mention)[j]| ==>
                           !IsJsSpace(MentionWords(mention)[j][k])
  {
    SplitRunsPiecesClean(mention, IsJsSpace);
    NormalizedPiecesKeepAbsence(SplitRuns(mention, IsJsSpace), IsJsSpace);
  }

  /**
    `isWordInMentions`: the loop over the mentions, returning at the first one that contains the
    word; it answers true exactly when some mention, wherever it stands, contains the word.
   */
  function IsWordInMentions(word: string, mentions: seq<string>): (r: bool)
    ensures r <==> exists i :: 0 <= i < |mentions| && Normalize(word) in MentionWords(mentions[i])
    decreases |mentions|
  {
    if mentions == [] then false
    else if Normalize(word) in MentionWords(mentions[0]) then true
    else
      assert forall i :: 1 <= i < |mentions| ==> mentions[i] == mentions[1..][i - 1];
      IsWordInMentions(word, mentions[1..])
  }

  /** The `j`-th whitespace piece of `mention` normalizes to the same string as `word`. */
  predicate PieceMatches(word: string, mention: string, j: int)
  {
    0 <= j < |SplitRuns(mention, IsJsSpace)| && Normalize(SplitRuns(mention, IsJsSpace)[j]) == Normalize(word)
  }

  /**
    A word is in the mentions exactly when its normalized form equals the normalized form of
    some whitespace-separated piece of some mention.
   */
  lemma {:induction false} IsWordInMentionsIff(word: string, mentions: seq<string>)
    ensures IsWordInMentions(word, mentions) <==>
            exists i, j :: 0 <= i < |mentions| && PieceMatches(word, mentions[i], j)
    decreases |mentions|
  {
    if mentions != [] {
      IsWordInMentionsIff(word, mentions[1..]);
      var ws := MentionWords(mentions[0]);
      MentionWordsAt(mentions[0]);
      if Normalize(word) in ws {
        var j :| 0 <= j < |ws| && ws[j] == Normalize(word);
        assert PieceMatches(word, mentions[0], j);
      } else {
        if exists i, j :: 0 <= i < |mentions| && PieceMatches(word, mentions[i], j) {
          var i, j :| 0 <= i < |mentions| && PieceMatches(word, mentions[i], j);
          if i == 0 {
            assert false;
          }
          assert PieceMatches(word, mentions[1..][i - 1], j);
        }
        if IsWordInMentions(word, mentions[1..]) {
          var i, j :| 0 <= i < |mentions[1..]| && PieceMatches(word, mentions[1..][i], j);
          assert PieceMatches(word, mentions[i + 1], j);
        }
      }
    }
  }

  /** `canHighlightCb`: a missing or empty Cb never highlights; otherwise a case-insensitive `includes`. */
  function CanHighlightCb(cb: Option<string>, sentence: string): (r: bool)
    ensures r ==> cb.Some? && cb.value != "" && |cb.value| <= |sentence|
  {
    if cb.None? || cb.value == "" then false
    else
      ContainsIff(Lower(sentence), Lower(cb.value));
      Contains(Lower(sentence), Lower(cb.value))
  }

  /** Cb may be highlighted exactly when it is a non-empty string occurring, ignoring case, in the sentence. */
  lemma CanHighlightCbIff(cb: Option<string>, sentence: string)
    ensures CanHighlightCb(cb, sentence) <==>
            cb.Some? && cb.value != "" && exists i :: OccursAt(Lower(sentence), Lower(cb.value), i)
  {
    if cb.Some? && cb.value != "" {
      ContainsIff(Lower(sentence), Lower(cb.value));
    }
  }

  // ---------------------------------------------------------------------------------------
  // Worked cases from the demonstration texts.

  /** A mention without white space is a single word. */
  lemma MentionWordsSingle(m: string)
    requires forall k :: 0 <= k < |m| ==> !IsJsSpace(m[k])
    ensures MentionWords(m) == [Normalize(m)]
  {
    SplitRunsNoSep(m, IsJsSpace);
  }

  /** Normalization keeps the apostrophe: `"Mike's"` becomes `"mike's"`, and `"Mike"` becomes `"mike"`. */
  lemma PossessiveNormalized()
    ensures Normalize("Mike's") == "mike's"
    ensures Normalize("Mike") == "mike"
  {
    DropAllNothing("Mike's", IsPunct);
    DropAllNothing("Mike", IsPunct);
    assert Lower("Mike") == "mike";
    assert Lower("'s") == "'s";
    assert "Mike" + "'s" == "Mike's";
    LowerAppend("Mike", "'s");
  }

  /** So `"Mike's"` does not match the mention `"Mike"`. */
  lemma PossessiveDoesNotMatch()
    ensures !IsWordInMentions("Mike's", ["Mike"])
  {
    PossessiveNormalized();
    VisibleAsciiNotJsSpace("Mike");
    MentionWordsSingle("Mike");
    var ms := ["Mike"];
    assert ms[0] == "Mike" && ms[1..] == [];
    assert Normalize("Mike's") !in MentionWords(ms[0]) by {
      assert |"mike's"| != |"mike"|;
    }
  }

  /** Matching is by membership: `"his"` matches the multi-word mention `"his driver's test"`. */
  lemma WordMatchesPieceOfMention()
    ensures IsWordInMentions("his", ["his driver's test"])
  {
    var m := "his driver's test";
    VisibleAsciiNotJsSpace("his");
    VisibleAsciiNotJsSpace("driver's");
    VisibleAsciiNotJsSpace("test");
    SplitRunsTwo("his", ' ', "driver's", IsJsSpace);
    assert "his" + [' '] + "driver's" == "his driver's";
    SplitRunsSepThen("his driver's", ' ', "test", IsJsSpace);
    assert m == "his driver's" + [' '] + "test";
    assert SplitRuns(m, IsJsSpace) == ["his", "driver's", "test"];
    assert PieceMatches("his", m, 0);
    IsWordInMentionsIff("his", [m]);
  }

  /** A word that is no piece of any mention does not match: `"annoyed"` against `"John's call"`. */
  lemma UnrelatedWordDoesNotMatch()
    ensures !IsWordInMentions("annoyed", ["John's call"])
  {
    VisibleAsciiNotJsSpace("John's");
    VisibleAsciiNotJsSpace("call");
    SplitRunsTwo("John's", ' ', "call", IsJsSpace);
    assert "John's" + [' '] + "call" == "John's call";
    DropAllNothing("annoyed", IsPunct);
    DropAllNothing("John's", IsPunct);
    DropAllNothing("call", IsPunct);
    assert Normalize("annoyed") == "annoyed";
    assert Normalize("John's") == "john's";
    assert Normalize("call") == "call";
    assert MentionWords("John's call") == ["john's", "call"];
  }

  /** Cb `"John"` cannot be highlighted in `"He called up Mike yesterday."`: the text does not contain it. */
  lemma AbsentCbNotHighlighted()
    ensures !CanHighlightCb(Some("John"), "He called up Mike yesterday.")
  {
    var hay := Lower("He called up Mike yesterday.");
    assert forall k :: 0 <= k < |hay| ==> hay[k] != 'j';
    assert Lower("John")[0] == 'j';
    CanHighlightCbIff(Some("John"), "He called up Mike yesterday.");
  }

  /** Cb `"his"` can be highlighted in `"Mike was studying for his driver's test."`. */
  lemma PresentCbHighlighted()
    ensures CanHighlightCb(Some("his"), "Mike was studying for his driver's test.")
  {
    var hay := Lower("Mike was studying for his driver's test.");
    assert hay[22..25] == "his" == Lower("his");
    assert OccursAt(hay, Lower("his"), 22);
    CanHighlightCbIff(Some("his"), "Mike was studying for his driver's test.");
  }
}
