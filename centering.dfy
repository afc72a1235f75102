/**
  The rule-based centering extractor of the backend (`parse_text`). The text is parsed into
  sentences of tokens; for every sentence the extractor records its tokens and entities, a
  backward-looking center (`c_b`: each pronoun with a guessed antecedent) and the
  forward-looking centers (`c_f`: the nouns, proper nouns and named entities).

  The parser is a parameter: `nlp` maps the text to its sentences, each token carrying its
  text, part of speech, dependency label, position in the document and entity type.
 */
module Centering {
  import opened Wrappers
  import opened Strings
  import opened Lists

  /** A token: text, part of speech (`pos_`), dependency label (`dep_`), document position (`i`), entity type (`ent_type_`, `""` if none). */
  datatype Token = Token(text: string, pos: string, dep: string, i: int, entType: string)

  /** A named entity: its text and its label (`label_`). */
  datatype Entity = Entity(text: string, tag: string)

  datatype Sentence = Sentence(text: string, tokens: seq<Token>, ents: seq<Entity>)

  /** The token record of the reply: text, part of speech and dependency label. */
  datatype TokenInfo = TokenInfo(text: string, pos: string, dep: string)

  datatype CbEntry = CbEntry(pronoun: string, antecedent: string)

  datatype CfEntry = CfEntry(text: string, kind: string)

  /** The reply record of one sentence. */
  datatype SentenceData = SentenceData(text: string, tokens: seq<TokenInfo>, entities: seq<Entity>,
                                       cb: seq<CbEntry>, cf: seq<CfEntry>)

  /** A value of the request body: a string, or anything else. */
  datatype JsonValue = JString(s: string) | JOther

  /** The reply: the sentence records (status 200), an error message (status 400) or an internal error (status 500). */
  datatype Response = Parsed(results: seq<SentenceData>) | BadRequest(error: string) | ServerError

  function StatusCode(r: Response): int {
    match r
    case Parsed(_) => 200
    case BadRequest(_) => 400
    case ServerError => 500
  }

  const Unknown: string := "Unknown"

  // ---------------------------------------------------------------------------------------
  // Token classes.

  predicate IsPronoun(t: Token) {
    t.pos == "PRON"
  }

  /** A pronoun in a possessive or subject position, which looks for an antecedent in its own sentence first. */
  predicate RefersToSubject(t: Token) {
    t.dep == "poss" || t.dep == "nsubj"
  }

  /** The dependency labels `{"nsubj", "PROPN", "dobj"}` of a same-sentence antecedent. */
  predicate IsSubjectLike(t: Token) {
    t.dep == "nsubj" || t.dep == "PROPN" || t.dep == "dobj"
  }

  /** An antecedent candidate in an earlier sentence: a proper noun, a noun or the root. */
  predicate IsNominal(t: Token) {
    t.pos == "PROPN" || t.pos == "NOUN" || t.dep == "ROOT"
  }

  /** A forward-looking center: a noun, a proper noun or a token of a named entity. */
  predicate IsCfToken(t: Token) {
    t.pos == "NOUN" || t.pos == "PROPN" || t.entType != ""
  }

  function TextOf(t: Token): string {
    t.text
  }

  /** Token positions increase along the sentence, as document positions do. */
  predicate DocOrdered(sent: Sentence) {
    forall a, b :: 0 <= a < b < |sent.tokens| ==> sent.tokens[a].i < sent.tokens[b].i
  }

  // ---------------------------------------------------------------------------------------
  // Choosing the antecedent of a pronoun.

  /** The test `t.dep_ in {"nsubj", "PROPN", "dobj"} and t.i < token.i`. */
  function SubjectBefore(pronoun: Token): Token -> bool {
    (t: Token) => IsSubjectLike(t) && t.i < pronoun.i
  }

  /** The same-sentence candidates of a pronoun, in sentence order. */
  function EarlierSubjects(sent: Sentence, pronoun: Token): seq<string> {
    FilterMap(sent.tokens, SubjectBefore(pronoun), TextOf)
  }

  /** The candidates a pronoun of a later sentence finds in `sent`, in sentence order. */
  function Nominals(sent: Sentence): seq<string> {
    FilterMap(sent.tokens, IsNominal, TextOf)
  }

  /**
    The backward scan over sentences `p - 1`, `p - 2`, …, `0`: the candidates of the nearest one
    that has any. It finds nothing exactly when no sentence before `p` has a candidate.
   */
  function NearestPrevious(sents: seq<Sentence>, p: nat): (found: seq<string>)
    requires p <= |sents|
    ensures found != [] ==> exists q :: 0 <= q < p && found == Nominals(sents[q])
    ensures found == [] <==> forall q :: 0 <= q < p ==> Nominals(sents[q]) == []
    decreases p
  {
    if p == 0 then []
    else if Nominals(sents[p - 1]) != [] then Nominals(sents[p - 1])
    else NearestPrevious(sents, p - 1)
  }

  /** A candidate picked from a sentence is the text of one of its tokens. */
  lemma CandidateIsToken(sent: Sentence, keep: Token -> bool, x: string)
    requires x in FilterMap(sent.tokens, keep, TextOf)
    ensures exists j :: 0 <= j < |sent.tokens| && sent.tokens[j].text == x
  {
    FilterMapMembers(sent.tokens, keep, TextOf, x);
  }

  /** The first candidate of the backward scan is a token of an earlier sentence. */
  lemma NearestPreviousIsToken(sents: seq<Sentence>, p: nat)
    requires p <= |sents| && NearestPrevious(sents, p) != []
    ensures exists q, j :: 0 <= q < p && 0 <= j < |sents[q].tokens| && sents[q].tokens[j].text == NearestPrevious(sents, p)[0]
  {
    var found := NearestPrevious(sents, p);
    var q :| 0 <= q < p && found == Nominals(sents[q]);
    CandidateIsToken(sents[q], IsNominal, found[0]);
  }

  /** The antecedent recorded for `pronoun`, a token of sentence `k`. */
  function Antecedent(sents: seq<Sentence>, k: nat, pronoun: Token): string
    requires k < |sents|
  {
    var same := if RefersToSubject(pronoun) then EarlierSubjects(sents[k], pronoun) else [];
    var found := if same != [] then same else NearestPrevious(sents, k);
    if found != [] then found[0] else Unknown
  }

  /**
    The antecedent of a pronoun of sentence `k` is `Unknown` or the text of a token of sentence
    `k` or of an earlier one: later sentences are never looked at.
   */
  lemma AntecedentLooksBack(sents: seq<Sentence>, k: nat, pronoun: Token)
    requires k < |sents|
    ensures var a := Antecedent(sents, k, pronoun);
            a == Unknown ||
            exists q, j :: 0 <= q <= k && 0 <= j < |sents[q].tokens| && sents[q].tokens[j].text == a
  {
    var same := if RefersToSubject(pronoun) then EarlierSubjects(sents[k], pronoun) else [];
    if same != [] {
      CandidateIsToken(sents[k], SubjectBefore(pronoun), same[0]);
    } else if NearestPrevious(sents, k) != [] {
      NearestPreviousIsToken(sents, k);
    }
  }

  // ---------------------------------------------------------------------------------------
  // The `antecedents` dictionary, as its list of entries in key order.

  /** The keys of the dictionary, in order. */
  function Keys(es: seq<CbEntry>): seq<string> {
    seq(|es|, i requires 0 <= i < |es| => es[i].pronoun)
  }

  lemma KeysAt(es: seq<CbEntry>)
    ensures |Keys(es)| == |es|
    ensures forall i :: 0 <= i < |es| ==> Keys(es)[i] == es[i].pronoun
  {
  }

  /** Every entry under key `p` takes the value `a`; the keys and their order stay. */
  function Replace(es: seq<CbEntry>, p: string, a: string): (r: seq<CbEntry>)
    ensures |r| == |es|
    decreases |es|
  {
    if es == [] then []
    else
      var last := es[|es| - 1];
      Replace(es[..|es| - 1], p, a) + [if last.pronoun == p then CbEntry(p, a) else last]
  }

  /** `antecedents[p] = a`: a present key keeps its place and takes the new value; a new key goes last. */
  function Put(es: seq<CbEntry>, p: string, a: string): seq<CbEntry> {
    if p in Keys(es) then Replace(es, p, a) else es + [CbEntry(p, a)]
  }

  /** `antecedents.get(p)`. */
  function Get(es: seq<CbEntry>, p: string): Option<string>
    decreases |es|
  {
    if es == [] then None
    else if es[|es| - 1].pronoun == p then Some(es[|es| - 1].antecedent)
    else Get(es[..|es| - 1], p)
  }

  lemma KeysSnoc(es: seq<CbEntry>, e: CbEntry)
    ensures Keys(es + [e]) == Keys(es) + [e.pronoun]
  {
  }

  lemma {:induction false} ReplaceKeys(es: seq<CbEntry>, p: string, a: string)
    ensures Keys(Replace(es, p, a)) == Keys(es)
    decreases |es|
  {
    if es != [] {
      var front := es[..|es| - 1];
      var last := es[|es| - 1];
      ReplaceKeys(front, p, a);
      assert es == front + [last];
      KeysSnoc(front, last);
      KeysSnoc(Replace(front, p, a), if last.pronoun == p then CbEntry(p, a) else last);
    }
  }

  /** Assigning a key appends it to the key order when it is new and leaves the order alone otherwise. */
  lemma PutKeys(es: seq<CbEntry>, p: string, a: string)
    ensures Keys(Put(es, p, a)) == if p in Keys(es) then Keys(es) else Keys(es) + [p]
  {
    ReplaceKeys(es, p, a);
    KeysSnoc(es, CbEntry(p, a));
  }

  lemma {:induction false} ReplaceGet(es: seq<CbEntry>, p: string, a: string, q: string)
    ensures Get(Replace(es, p, a), q) == if q == p && p in Keys(es) then Some(a) else Get(es, q)
    decreases |es|
  {
    if es != [] {
      var front := es[..|es| - 1];
      var last := es[|es| - 1];
      var r := Replace(front, p, a);
      ReplaceGet(front, p, a, q);
      assert (r + [if last.pronoun == p then CbEntry(p, a) else last])[..|r|] == r;
      assert es == front + [last];
      KeysSnoc(front, last);
    }
  }

  /** After assigning a key, reading it gives the new value and reading any other key gives what it gave before. */
  lemma PutGet(es: seq<CbEntry>, p: string, a: string, q: string)
    ensures Get(Put(es, p, a), q) == if q == p then Some(a) else Get(es, q)
  {
    if p in Keys(es) {
      ReplaceGet(es, p, a, q);
    } else {
      assert (es + [CbEntry(p, a)])[..|es|] == es;
    }
  }

  /** With distinct keys, reading the key of an entry gives that entry's value. */
  lemma {:induction false} GetEntry(es: seq<CbEntry>, i: nat)
    requires i < |es|
    requires forall a, b :: 0 <= a < b < |es| ==> es[a].pronoun != es[b].pronoun
    ensures Get(es, es[i].pronoun) == Some(es[i].antecedent)
    decreases |es|
  {
    if i < |es| - 1 {
      GetEntry(es[..|es| - 1], i);
    }
  }

  // ---------------------------------------------------------------------------------------
  // The backward-looking center of a sentence.

  /** The `antecedents` dictionary of sentence `k` after its first `m` tokens. */
  function CbUpTo(sents: seq<Sentence>, k: nat, m: nat): seq<CbEntry>
    requires k < |sents| && m <= |sents[k].tokens|
    decreases m
  {
    if m == 0 then []
    else
      var t := sents[k].tokens[m - 1];
      var es := CbUpTo(sents, k, m - 1);
      if IsPronoun(t) then Put(es, t.text, Antecedent(sents, k, t)) else es
  }

  /** `c_b` of sentence `k`: the dictionary, filled afresh for the sentence, as a list of entries. */
  function CbFor(sents: seq<Sentence>, k: nat): seq<CbEntry>
    requires k < |sents|
  {
    CbUpTo(sents, k, |sents[k].tokens|)
  }

  /** The texts of the pronouns among `ts`, in order. */
  function PronounTexts(ts: seq<Token>): seq<string> {
    FilterMap(ts, IsPronoun, TextOf)
  }

  lemma {:induction false} CbUpToKeys(sents: seq<Sentence>, k: nat, m: nat)
    requires k < |sents| && m <= |sents[k].tokens|
    ensures Keys(CbUpTo(sents, k, m)) == FirstOccurrences(PronounTexts(sents[k].tokens[..m]))
    decreases m
  {
    if m > 0 {
      var ts := sents[k].tokens;
      var t := ts[m - 1];
      CbUpToKeys(sents, k, m - 1);
      assert ts[..m] == ts[..m - 1] + [t];
      FilterMapSnoc(ts[..m - 1], t, IsPronoun, TextOf);
      var xs := PronounTexts(ts[..m - 1]);
      if IsPronoun(t) {
        PutKeys(CbUpTo(sents, k, m - 1), t.text, Antecedent(sents, k, t));
        assert (xs + [t.text])[..|xs + [t.text]| - 1] == xs;
      } else {
        assert PronounTexts(ts[..m]) == xs;
      }
    }
  }

  /**
    The keys of `c_b` are the texts of the pronouns of this sentence and of no other, each once,
    in the order of their first occurrence.
   */
  lemma CbForKeys(sents: seq<Sentence>, k: nat)
    requires k < |sents|
    ensures Keys(CbFor(sents, k)) == FirstOccurrences(PronounTexts(sents[k].tokens))
    ensures forall p :: p in Keys(CbFor(sents, k)) <==>
                        exists j :: 0 <= j < |sents[k].tokens| && IsPronoun(sents[k].tokens[j]) && sents[k].tokens[j].text == p
    ensures forall a, b :: 0 <= a < b < |CbFor(sents, k)| ==> CbFor(sents, k)[a].pronoun != CbFor(sents, k)[b].pronoun
  {
    var ts := sents[k].tokens;
    CbUpToKeys(sents, k, |ts|);
    assert ts[..|ts|] == ts;
    FirstOccurrencesSpec(PronounTexts(ts));
    forall p
      ensures p in PronounTexts(ts) <==> exists j :: 0 <= j < |ts| && IsPronoun(ts[j]) && ts[j].text == p
    {
      FilterMapMembers(ts, IsPronoun, TextOf, p);
    }
    var ks := Keys(CbFor(sents, k));
    KeysAt(CbFor(sents, k));
    assert forall a, b :: 0 <= a < b < |ks| ==> ks[a] != ks[b];
  }

  /** When a pronoun text recurs, the dictionary holds the antecedent of its latest occurrence so far. */
  lemma {:induction false} CbUpToLatest(sents: seq<Sentence>, k: nat, m: nat, j: nat)
    requires k < |sents| && j < m <= |sents[k].tokens|
    requires IsPronoun(sents[k].tokens[j])
    requires forall j' :: j < j' < m && IsPronoun(sents[k].tokens[j']) ==> sents[k].tokens[j'].text != sents[k].tokens[j].text
    ensures Get(CbUpTo(sents, k, m), sents[k].tokens[j].text) == Some(Antecedent(sents, k, sents[k].tokens[j]))
    decreases m
  {
    var t := sents[k].tokens[m - 1];
    var p := sents[k].tokens[j].text;
    if m - 1 == j {
      PutGet(CbUpTo(sents, k, m - 1), t.text, Antecedent(sents, k, t), p);
    } else {
      CbUpToLatest(sents, k, m - 1, j);
      if IsPronoun(t) {
        PutGet(CbUpTo(sents, k, m - 1), t.text, Antecedent(sents, k, t), p);
      }
    }
  }

  /** The `c_b` entry of a pronoun carries the antecedent chosen for its last occurrence in the sentence. */
  lemma CbLastOccurrenceWins(sents: seq<Sentence>, k: nat, j: nat)
    requires k < |sents| && j < |sents[k].tokens|
    requires IsPronoun(sents[k].tokens[j])
    requires forall j' :: j < j' < |sents[k].tokens| && IsPronoun(sents[k].tokens[j']) ==>
                          sents[k].tokens[j'].text != sents[k].tokens[j].text
    ensures forall i :: 0 <= i < |CbFor(sents, k)| && CbFor(sents, k)[i].pronoun == sents[k].tokens[j].text ==>
                        CbFor(sents, k)[i].antecedent == Antecedent(sents, k, sents[k].tokens[j])
  {
    var es := CbFor(sents, k);
    CbUpToLatest(sents, k, |sents[k].tokens|, j);
    CbForKeys(sents, k);
    forall i | 0 <= i < |es| && es[i].pronoun == sents[k].tokens[j].text
      ensures es[i].antecedent == Antecedent(sents, k, sents[k].tokens[j])
    {
      GetEntry(es, i);
    }
  }

  /**
    A possessive or subject pronoun takes the first token of its sentence that precedes it and
    has a subject-like dependency label.
   */
  lemma SameSentenceRule(sents: seq<Sentence>, k: nat, m: nat, j0: nat)
    requires k < |sents| && m < |sents[k].tokens| && j0 < m
    requires DocOrdered(sents[k])
    requires IsPronoun(sents[k].tokens[m]) && RefersToSubject(sents[k].tokens[m])
    requires IsSubjectLike(sents[k].tokens[j0])
    requires forall j :: 0 <= j < j0 ==> !IsSubjectLike(sents[k].tokens[j])
    ensures Antecedent(sents, k, sents[k].tokens[m]) == sents[k].tokens[j0].text
  {
    var ts := sents[k].tokens;
    FilterMapFirst(ts, SubjectBefore(ts[m]), TextOf, j0);
  }

  lemma {:induction false} NearestPreviousSkips(sents: seq<Sentence>, q: nat, p: nat)
    requires p < q <= |sents|
    requires Nominals(sents[p]) != []
    requires forall r :: p < r < q ==> Nominals(sents[r]) == []
    ensures NearestPrevious(sents, q) == Nominals(sents[p])
    decreases q
  {
    if q - 1 > p {
      NearestPreviousSkips(sents, q - 1, p);
    }
  }

  lemma {:induction false} NearestPreviousNone(sents: seq<Sentence>, q: nat)
    requires q <= |sents|
    requires forall r :: 0 <= r < q ==> Nominals(sents[r]) == []
    ensures NearestPrevious(sents, q) == []
    decreases q
  {
    if q > 0 {
      NearestPreviousNone(sents, q - 1);
    }
  }

  /** The pronoun has no same-sentence candidate: it is not possessive or subject, or no earlier token qualifies. */
  predicate NoSameSentenceCandidate(sent: Sentence, pronoun: Token) {
    !RefersToSubject(pronoun) ||
    forall j :: 0 <= j < |sent.tokens| ==> !(IsSubjectLike(sent.tokens[j]) && sent.tokens[j].i < pronoun.i)
  }

  /**
    Failing a same-sentence candidate, the pronoun takes the first nominal token of the nearest
    earlier sentence that has one.
   */
  lemma PreviousSentenceRule(sents: seq<Sentence>, k: nat, pronoun: Token, p: nat, j0: nat)
    requires k < |sents| && p < k && j0 < |sents[p].tokens|
    requires NoSameSentenceCandidate(sents[k], pronoun)
    requires forall r, j :: p < r < k && 0 <= j < |sents[r].tokens| ==> !IsNominal(sents[r].tokens[j])
    requires IsNominal(sents[p].tokens[j0])
    requires forall j :: 0 <= j < j0 ==> !IsNominal(sents[p].tokens[j])
    ensures Antecedent(sents, k, pronoun) == sents[p].tokens[j0].text
  {
    FilterMapEmptyIff(sents[k].tokens, SubjectBefore(pronoun), TextOf);
    FilterMapFirst(sents[p].tokens, IsNominal, TextOf, j0);
    forall r | p < r < k
      ensures Nominals(sents[r]) == []
    {
      FilterMapEmptyIff(sents[r].tokens, IsNominal, TextOf);
    }
    NearestPreviousSkips(sents, k, p);
  }

  /** With no candidate in its own sentence or any earlier one, the antecedent is `"Unknown"`. */
  lemma UnknownRule(sents: seq<Sentence>, k: nat, pronoun: Token)
    requires k < |sents|
    requires NoSameSentenceCandidate(sents[k], pronoun)
    requires forall r, j :: 0 <= r < k && 0 <= j < |sents[r].tokens| ==> !IsNominal(sents[r].tokens[j])
    ensures Antecedent(sents, k, pronoun) == Unknown
  {
    FilterMapEmptyIff(sents[k].tokens, SubjectBefore(pronoun), TextOf);
    forall r | 0 <= r < k
      ensures Nominals(sents[r]) == []
    {
      FilterMapEmptyIff(sents[r].tokens, IsNominal, TextOf);
    }
    NearestPreviousNone(sents, k);
  }

  /** In the first sentence, a pronoun without a same-sentence candidate gets `"Unknown"`. */
  lemma FirstSentenceUnknown(sents: seq<Sentence>, pronoun: Token)
    requires 0 < |sents|
    requires NoSameSentenceCandidate(sents[0], pronoun)
    ensures Antecedent(sents, 0, pronoun) == Unknown
  {
    UnknownRule(sents, 0, pronoun);
  }

  // ---------------------------------------------------------------------------------------
  // The forward-looking centers of a sentence.

  /** A `c_f` entry: the token text, and its entity type if it has one, its part of speech otherwise. */
  function CfEntryOf(t: Token): CfEntry {
    CfEntry(t.text, if t.entType != "" then t.entType else t.pos)
  }

  function CfFor(sent: Sentence): seq<CfEntry> {
    FilterMap(sent.tokens, IsCfToken, CfEntryOf)
  }

  /**
    `c_f` lists, in token order, exactly the nouns, proper nouns and entity tokens of the
    sentence, each typed by its entity type when it has one and by its part of speech otherwise.
   */
  lemma CfForExact(sent: Sentence)
    ensures var idx := Positions(sent.tokens, IsCfToken, 0);
            && (forall j :: 0 <= j < |sent.tokens| && IsCfToken(sent.tokens[j]) ==> j in idx)
            && (forall k :: 0 <= k < |idx| ==> IsCfToken(sent.tokens[idx[k]]))
            && (forall k, m :: 0 <= k < m < |idx| ==> idx[k] < idx[m])
            && |CfFor(sent)| == |idx|
            && (forall k :: 0 <= k < |idx| ==>
                  CfFor(sent)[k].text == sent.tokens[idx[k]].text &&
                  CfFor(sent)[k].kind == (if sent.tokens[idx[k]].entType != "" then sent.tokens[idx[k]].entType
                                          else sent.tokens[idx[k]].pos))
  {
    FilterMapExact(sent.tokens, IsCfToken, CfEntryOf);
  }

  // ---------------------------------------------------------------------------------------
  // The request.

  function TokenInfos(sent: Sentence): (infos: seq<TokenInfo>)
    ensures |infos| == |sent.tokens|
  {
    seq(|sent.tokens|, j requires 0 <= j < |sent.tokens| =>
      TokenInfo(sent.tokens[j].text, sent.tokens[j].pos, sent.tokens[j].dep))
  }

  /** The reply record of sentence `k`. */
  function SentenceResult(sents: seq<Sentence>, k: nat): SentenceData
    requires k < |sents|
  {
    SentenceData(sents[k].text, TokenInfos(sents[k]), sents[k].ents, CbFor(sents, k), CfFor(sents[k]))
  }

  /** The reply records of all sentences, in order. */
  function AnalyseAll(sents: seq<Sentence>): (rs: seq<SentenceData>)
    ensures |rs| == |sents|
  {
    seq(|sents|, k requires 0 <= k < |sents| => SentenceResult(sents, k))
  }

  /** `text.strip()` is empty. */
  predicate IsBlank(text: string) {
    Trim(text, IsPySpace) == ""
  }

  /** What `parse_text` answers to a request body (`None` for a JSON `null` body). */
  function ParseSpec(body: Option<map<string, JsonValue>>, nlp: string -> seq<Sentence>): Response {
    if body.None? || "text" !in body.value then BadRequest("No text provided")
    else match body.value["text"]
      case JOther => ServerError
      case JString(text) => if IsBlank(text) then BadRequest("Empty text provided") else Parsed(AnalyseAll(nlp(text)))
  }

  /** One pass of the sentence loop of `parse_text`: the token loop filling `antecedents`, then `c_f`. */
  method AnalyseSentence(sentences: seq<Sentence>, k: nat) returns (data: SentenceData)
    requires k < |sentences|
    ensures data == SentenceResult(sentences, k)
  {
    var sent := sentences[k];
    var antecedents: seq<CbEntry> := [];
    for m := 0 to |sent.tokens|
      invariant antecedents == CbUpTo(sentences, k, m)
    {
      var token := sent.tokens[m];
      if IsPronoun(token) {
        var antecedent: seq<string> := [];
        if RefersToSubject(token) {
          antecedent := EarlierSubjects(sent, token);
        }
        if antecedent == [] {
          var p := k;
          while p > 0
            invariant p <= k
            invariant antecedent == []
            invariant NearestPrevious(sentences, p) == NearestPrevious(sentences, k)
          {
            p := p - 1;
            antecedent := Nominals(sentences[p]);
            if antecedent != [] {
              break;
            }
          }
        }
        antecedents := Put(antecedents, token.text, if antecedent != [] then antecedent[0] else Unknown);
      }
    }
    data := SentenceData(sent.text, TokenInfos(sent), sent.ents, antecedents, CfFor(sent));
  }

  /** `parse_text`: the input checks, then the loop over the sentences. */
  method ParseText(body: Option<map<string, JsonValue>>, nlp: string -> seq<Sentence>) returns (resp: Response)
    ensures resp == ParseSpec(body, nlp)
  {
    if body.None? || "text" !in body.value {
      return BadRequest("No text provided");
    }
    var field := body.value["text"];
    if field.JOther? {
      return ServerError;
    }
    var text := field.s;
    if Trim(text, IsPySpace) == "" {
      return BadRequest("Empty text provided");
    }
    var sentences := nlp(text);
    var results: seq<SentenceData> := [];
    for k := 0 to |sentences|
      invariant |results| == k
      invariant forall j :: 0 <= j < k ==> results[j] == SentenceResult(sentences, j)
    {
      var data := AnalyseSentence(sentences, k);
      results := results + [data];
    }
    assert results == AnalyseAll(sentences);
    return Parsed(results);
  }

  // ---------------------------------------------------------------------------------------
  // The reply.

  /** A body without a `text` field is refused with status 400 and `No text provided`. */
  lemma MissingTextRefused(body: Option<map<string, JsonValue>>, nlp: string -> seq<Sentence>)
    requires body.None? || "text" !in body.value
    ensures ParseSpec(body, nlp) == BadRequest("No text provided") && StatusCode(ParseSpec(body, nlp)) == 400
  {
  }

  /** A text field that is a string is refused as empty, with status 400, exactly when it is all white space. */
  lemma BlankTextRefused(body: Option<map<string, JsonValue>>, nlp: string -> seq<Sentence>)
    requires body.Some? && "text" in body.value && body.value["text"].JString?
    ensures var s := body.value["text"].s;
            ParseSpec(body, nlp) == BadRequest("Empty text provided") <==> forall c :: 0 <= c < |s| ==> IsPySpace(s[c])
    ensures ParseSpec(body, nlp).Parsed? || StatusCode(ParseSpec(body, nlp)) == 400
  {
    TrimEmptyIff(body.value["text"].s, IsPySpace);
  }

  /**
    A text with some non-blank character gets one record per sentence, in sentence order, each
    with the sentence's own text, and a `c_b` whose keys are exactly the pronouns of that
    sentence: the dictionary starts afresh for every sentence.
   */
  lemma ParsedPerSentence(body: Option<map<string, JsonValue>>, nlp: string -> seq<Sentence>)
    requires body.Some? && "text" in body.value && body.value["text"].JString?
    requires exists c :: 0 <= c < |body.value["text"].s| && !IsPySpace(body.value["text"].s[c])
    ensures var sents := nlp(body.value["text"].s);
            && ParseSpec(body, nlp).Parsed?
            && |ParseSpec(body, nlp).results| == |sents|
            && forall k :: 0 <= k < |sents| ==>
                 && ParseSpec(body, nlp).results[k].text == sents[k].text
                 && ParseSpec(body, nlp).results[k].entities == sents[k].ents
                 && |ParseSpec(body, nlp).results[k].tokens| == |sents[k].tokens|
                 && (forall j :: 0 <= j < |sents[k].tokens| ==>
                       ParseSpec(body, nlp).results[k].tokens[j] ==
                         TokenInfo(sents[k].tokens[j].text, sents[k].tokens[j].pos, sents[k].tokens[j].dep))
                 && (forall p :: p in Keys(ParseSpec(body, nlp).results[k].cb) <==>
                       exists j :: 0 <= j < |sents[k].tokens| && IsPronoun(sents[k].tokens[j]) && sents[k].tokens[j].text == p)
  {
    var sents := nlp(body.value["text"].s);
    TrimEmptyIff(body.value["text"].s, IsPySpace);
    forall k | 0 <= k < |sents| {
      CbForKeys(sents, k);
    }
  }
}
