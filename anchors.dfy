/**
  Addressable anchors and the relations drawn between them. Every word is addressed as
  `word-<sentence>-<word>` and every sentence as `sentence-<index>`; the relations come from the
  backend, and each anchor receives exactly those whose `sourceId` is its own id.
 */
module Anchors {
  import opened Strings
  import opened Lists

  /** The side of a rendered element a connector attaches to. */
  datatype Anchor = Top | Bottom | Left | Right

  /** A relation as the backend sends it. */
  datatype Relation = Relation(targetId: string, sourceId: string, targetAnchor: Anchor, sourceAnchor: Anchor)

  /** What an anchor is given for one outgoing relation: the relation without its `sourceId`. */
  datatype Edge = Edge(targetId: string, sourceAnchor: Anchor, targetAnchor: Anchor)

  /** The id of word `w` of sentence `s`: `word-${s}-${w}`. */
  function WordId(s: nat, w: nat): string {
    "word-" + NatToString(s) + "-" + NatToString(w)
  }

  /** The id of sentence `i`: `sentence-${i}`. */
  function SentenceId(i: nat): string {
    "sentence-" + NatToString(i)
  }

  /** In a run of digits followed by a dash, the first dash is the one after the digits. */
  lemma FirstDash(a: string, b: string)
    requires AllDigits(a)
    ensures (a + "-" + b)[|a|] == '-'
    ensures forall i :: 0 <= i < |a| ==> (a + "-" + b)[i] != '-'
  {
  }

  /** A dash after a run of digits marks where the digits end. */
  lemma DigitsDashSplit(a: string, b: string, c: string, d: string)
    requires AllDigits(a) && AllDigits(c)
    requires a + "-" + b == c + "-" + d
    ensures a == c && b == d
  {
    var x := a + "-" + b;
    FirstDash(a, b);
    FirstDash(c, d);
    assert |a| == |c|;
    assert a == x[..|a|] == c;
    assert b == x[|a| + 1..] == d;
  }

  /** Distinct word positions have distinct ids. */
  lemma WordIdInjective(s1: nat, w1: nat, s2: nat, w2: nat)
    requires WordId(s1, w1) == WordId(s2, w2)
    ensures s1 == s2 && w1 == w2
  {
    var x := WordId(s1, w1);
    assert x[5..] == NatToString(s1) + "-" + NatToString(w1);
    assert x[5..] == NatToString(s2) + "-" + NatToString(w2);
    DigitsDashSplit(NatToString(s1), NatToString(w1), NatToString(s2), NatToString(w2));
    NatToStringInjective(s1, s2);
    NatToStringInjective(w1, w2);
  }

  /** Distinct sentences have distinct ids. */
  lemma SentenceIdInjective(i: nat, j: nat)
    requires SentenceId(i) == SentenceId(j)
    ensures i == j
  {
    assert SentenceId(i)[9..] == NatToString(i);
    assert SentenceId(j)[9..] == NatToString(j);
    NatToStringInjective(i, j);
  }

  /** No word id is a sentence id. */
  lemma WordIdIsNotSentenceId(s: nat, w: nat, i: nat)
    ensures WordId(s, w) != SentenceId(i)
  {
    assert WordId(s, w)[0] == 'w' && SentenceId(i)[0] == 's';
  }

  // ---------------------------------------------------------------------------------------
  // Selecting the outgoing relations of one anchor.

  function ToEdge(r: Relation): Edge {
    Edge(r.targetId, r.sourceAnchor, r.targetAnchor)
  }

  /** The test `rel.sourceId === id`. */
  function LeavesFrom(id: string): Relation -> bool {
    (r: Relation) => r.sourceId == id
  }

  /**
    `relations.filter((rel) => rel.sourceId === id).map((rel) => ({ targetId, sourceAnchor, targetAnchor }))`.
   */
  function Outgoing(rels: seq<Relation>, id: string): (out: seq<Edge>)
    ensures |out| <= |rels|
  {
    FilterMap(rels, LeavesFrom(id), ToEdge)
  }

  /**
    The outgoing relations of an anchor are exactly the input relations whose `sourceId` is the
    anchor's id, in input order, each with its target and both anchors copied unchanged.
   */
  lemma OutgoingExact(rels: seq<Relation>, id: string)
    ensures var idx := Positions(rels, LeavesFrom(id), 0);
            && (forall j :: 0 <= j < |rels| && rels[j].sourceId == id ==> j in idx)
            && (forall k :: 0 <= k < |idx| ==> rels[idx[k]].sourceId == id)
            && (forall k, m :: 0 <= k < m < |idx| ==> idx[k] < idx[m])
            && |Outgoing(rels, id)| == |idx|
            && (forall k :: 0 <= k < |idx| ==> Outgoing(rels, id)[k] == ToEdge(rels[idx[k]]))
  {
    FilterMapExact(rels, LeavesFrom(id), ToEdge);
  }

  /** An edge is given to an anchor exactly when some relation leaving that anchor carries it. */
  lemma OutgoingMembers(rels: seq<Relation>, id: string, e: Edge)
    ensures e in Outgoing(rels, id) <==> exists j :: 0 <= j < |rels| && rels[j].sourceId == id && ToEdge(rels[j]) == e
  {
    FilterMapMembers(rels, LeavesFrom(id), ToEdge, e);
  }
}
