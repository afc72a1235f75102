/**
  The string primitives of JavaScript and Python that the core relies on, written out:
  `split` on a regular expression that matches runs of separator characters, `split` on a
  single character, `trim`/`strip`, removal of a character class, `toLowerCase`, `includes`,
  decimal rendering of a number and `join`.
 */
module Strings {

  /** The characters JavaScript's `\s` class and `String.prototype.trim` treat as white space. */
  predicate IsJsSpace(c: char) {
    c == ' ' || c == '\t' || c == '\n' || c == '\r' || c == '\U{B}' || c == '\U{C}' ||
    c == '\U{A0}' || c == '\U{1680}' || ('\U{2000}' <= c <= '\U{200A}') ||
    c == '\U{2028}' || c == '\U{2029}' || c == '\U{202F}' || c == '\U{205F}' ||
    c == '\U{3000}' || c == '\U{FEFF}'
  }

  /** Visible ASCII characters (`!` to `~`) are not white space. */
  lemma VisibleAsciiNotJsSpace(s: string)
    requires forall k :: 0 <= k < |s| ==> '!' <= s[k] <= '~'
    ensures forall k :: 0 <= k < |s| ==> !IsJsSpace(s[k])
  {
  }

  /** The characters Python's `str.strip()` (with no argument) removes, i.e. `str.isspace()`. */
  predicate IsPySpace(c: char) {
    c == ' ' || ('\t' <= c <= '\r') || ('\U{1C}' <= c <= '\U{1F}') ||
    c == '\U{85}' || c == '\U{A0}' || c == '\U{1680}' || ('\U{2000}' <= c <= '\U{200A}') ||
    c == '\U{2028}' || c == '\U{2029}' || c == '\U{202F}' || c == '\U{205F}' || c == '\U{3000}'
  }

  // ---------------------------------------------------------------------------------------
  // Removing a class of characters: `s.replace(/[...]/g, "")`, and a filter on characters.

  /** `s` with every character satisfying `drop` deleted, the rest kept in order. */
  function DropAll(s: string, drop: char -> bool): (r: string)
    ensures |r| <= |s|
    ensures forall k :: 0 <= k < |r| ==> !drop(r[k])
    decreases |s|
  {
    if s == [] then []
    else DropAll(s[..|s| - 1], drop) + (if drop(s[|s| - 1]) then [] else [s[|s| - 1]])
  }

  /** Nothing is dropped from a string that has no character of the class. */
  lemma {:induction false} DropAllNothing(s: string, drop: char -> bool)
    requires forall k :: 0 <= k < |s| ==> !drop(s[k])
    ensures DropAll(s, drop) == s
    decreases |s|
  {
    if s != [] {
      DropAllNothing(s[..|s| - 1], drop);
    }
  }

  /** Everything is dropped from a string made only of characters of the class. */
  lemma {:induction false} DropAllEverything(s: string, drop: char -> bool)
    requires forall k :: 0 <= k < |s| ==> drop(s[k])
    ensures DropAll(s, drop) == []
    decreases |s|
  {
    if s != [] {
      DropAllEverything(s[..|s| - 1], drop);
    }
  }

  lemma {:induction false} DropAllAppend(a: string, b: string, drop: char -> bool)
    ensures DropAll(a + b, drop) == DropAll(a, drop) + DropAll(b, drop)
    decreases |b|
  {
    if b == [] {
      assert a + b == a;
    } else {
      var b' := b[..|b| - 1];
      assert (a + b)[..|a + b| - 1] == a + b';
      DropAllAppend(a, b', drop);
    }
  }

  /** Nothing is left exactly when every character belongs to the dropped class. */
  lemma {:induction false} DropAllEmptyIff(s: string, drop: char -> bool)
    ensures DropAll(s, drop) == [] <==> forall k :: 0 <= k < |s| ==> drop(s[k])
    decreases |s|
  {
    if s != [] {
      var s' := s[..|s| - 1];
      DropAllEmptyIff(s', drop);
      if DropAll(s, drop) == [] {
        assert DropAll(s', drop) == [] && drop(s[|s| - 1]);
        assert forall k :: 0 <= k < |s| - 1 ==> drop(s'[k]);
      }
      if forall k :: 0 <= k < |s| ==> drop(s[k]) {
        assert forall k :: 0 <= k < |s'| ==> drop(s'[k]);
      }
    }
  }

  // ---------------------------------------------------------------------------------------
  // `s.split(/[X]+/)`: split on maximal runs of separator characters.

  /**
    JavaScript's `s.split(re)` where `re` matches one or more separator characters. A run of
    separators at the start (end) yields an empty first (last) piece, and `""` splits to `[""]`.
   */
  function SplitRuns(s: string, sep: char -> bool): (pieces: seq<string>)
    ensures |pieces| >= 1
    decreases |s|
  {
    if s == [] then [""]
    else
      var init := SplitRuns(s[..|s| - 1], sep);
      var c := s[|s| - 1];
      if !sep(c) then init[..|init| - 1] + [init[|init| - 1] + [c]]
      else if |s| >= 2 && sep(s[|s| - 2]) then init
      else init + [""]
  }

  /** The concatenation of a list of strings. */
  function Flatten(ps: seq<string>): string
    decreases |ps|
  {
    if ps == [] then [] else Flatten(ps[..|ps| - 1]) + ps[|ps| - 1]
  }

  lemma FlattenSnoc(ps: seq<string>, p: string)
    ensures Flatten(ps + [p]) == Flatten(ps) + p
  {
    assert (ps + [p])[..|ps + [p]| - 1] == ps;
  }

  lemma {:induction false} FlattenCons(u: string, rest: seq<string>)
    ensures Flatten([u] + rest) == u + Flatten(rest)
    decreases |rest|
  {
    if rest == [] {
      assert [u] + rest == [] + [u];
      FlattenSnoc([], u);
    } else {
      var front := rest[..|rest| - 1];
      var last := rest[|rest| - 1];
      FlattenCons(u, front);
      assert [u] + rest == ([u] + front) + [last];
      assert rest == front + [last];
      FlattenSnoc([u] + front, last);
      FlattenSnoc(front, last);
    }
  }

  /** Dropping a class from a concatenation, one more piece at a time. */
  lemma DropAllFlattenSnoc(ps: seq<string>, p: string, drop: char -> bool)
    ensures DropAll(Flatten(ps + [p]), drop) == DropAll(Flatten(ps), drop) + DropAll(p, drop)
  {
    FlattenSnoc(ps, p);
    DropAllAppend(Flatten(ps), p, drop);
  }

  /** No piece of the split contains a separator character. */
  lemma {:induction false} SplitRunsPiecesClean(s: string, sep: char -> bool)
    ensures forall j, k :: 0 <= j < |SplitRuns(s, sep)| && 0 <= k < |SplitRuns(s, sep)[j]| ==>
                           !sep(SplitRuns(s, sep)[j][k])
    decreases |s|
  {
    if s != [] {
      SplitRunsPiecesClean(s[..|s| - 1], sep);
    }
  }

  /** Splitting loses exactly the separators: the pieces put back together are `s` without them. */
  lemma {:induction false} SplitRunsKeepsContent(s: string, sep: char -> bool)
    ensures Flatten(SplitRuns(s, sep)) == DropAll(s, sep)
    decreases |s|
  {
    if s != [] {
      var s' := s[..|s| - 1];
      var init := SplitRuns(s', sep);
      var c := s[|s| - 1];
      SplitRunsKeepsContent(s', sep);
      if !sep(c) {
        var front := init[..|init| - 1];
        var last := init[|init| - 1];
        assert init == front + [last];
        FlattenSnoc(front, last);
        FlattenSnoc(front, last + [c]);
      } else if |s| >= 2 && sep(s[|s| - 2]) {
      } else {
        FlattenSnoc(init, "");
      }
    }
  }

  /**
    For a string that starts with a non-separator, every piece but the last is non-empty, and the
    last piece is empty exactly when the string ends with a separator.
   */
  lemma {:induction false} SplitRunsShape(s: string, sep: char -> bool)
    requires s != [] && !sep(s[0])
    ensures forall j :: 0 <= j < |SplitRuns(s, sep)| - 1 ==> SplitRuns(s, sep)[j] != []
    ensures SplitRuns(s, sep)[|SplitRuns(s, sep)| - 1] == [] <==> sep(s[|s| - 1])
    decreases |s|
  {
    if |s| > 1 {
      SplitRunsShape(s[..|s| - 1], sep);
    }
  }

  /** A string with no separator at either end splits into non-empty pieces only. */
  lemma SplitRunsNoEmptyPiece(s: string, sep: char -> bool)
    requires s != [] && !sep(s[0]) && !sep(s[|s| - 1])
    ensures forall j :: 0 <= j < |SplitRuns(s, sep)| ==> SplitRuns(s, sep)[j] != []
  {
    SplitRunsShape(s, sep);
  }

  /** A string without separators is one piece. */
  lemma {:induction false} SplitRunsNoSep(b: string, sep: char -> bool)
    requires forall k :: 0 <= k < |b| ==> !sep(b[k])
    ensures SplitRuns(b, sep) == [b]
    decreases |b|
  {
    if b != [] {
      SplitRunsNoSep(b[..|b| - 1], sep);
      assert b == b[..|b| - 1] + [b[|b| - 1]];
    }
  }

  /**
    A separator that follows a non-separator (or starts the string) closes a piece, and the
    separator-free text after it is the next piece.
   */
  lemma {:induction false} SplitRunsSepThen(s: string, t: char, b: string, sep: char -> bool)
    requires sep(t) && (s == [] || !sep(s[|s| - 1]))
    requires forall k :: 0 <= k < |b| ==> !sep(b[k])
    ensures SplitRuns(s + [t] + b, sep) == SplitRuns(s, sep) + [b]
    decreases |b|
  {
    if b == [] {
      assert s + [t] + b == s + [t];
      assert (s + [t])[..|s + [t]| - 1] == s;
    } else {
      var b' := b[..|b| - 1];
      SplitRunsSepThen(s, t, b', sep);
      assert (s + [t] + b)[..|s + [t] + b| - 1] == s + [t] + b';
      assert b == b' + [b[|b| - 1]];
    }
  }

  /** Two separator-free words around one separator split into those two words. */
  lemma SplitRunsTwo(a: string, t: char, b: string, sep: char -> bool)
    requires sep(t)
    requires a != [] && forall k :: 0 <= k < |a| ==> !sep(a[k])
    requires forall k :: 0 <= k < |b| ==> !sep(b[k])
    ensures SplitRuns(a + [t] + b, sep) == [a, b]
  {
    SplitRunsNoSep(a, sep);
    SplitRunsSepThen(a, t, b, sep);
  }

  // ---------------------------------------------------------------------------------------
  // `s.split(" ")`: split on every occurrence of one character, and its inverse `join`.

  /** JavaScript's `s.split(c)` for a one-character string `c`: two adjacent `c` give an empty piece. */
  function SplitOn(s: string, c: char): (pieces: seq<string>)
    ensures |pieces| >= 1
    decreases |s|
  {
    if s == [] then [""]
    else
      var init := SplitOn(s[..|s| - 1], c);
      if s[|s| - 1] == c then init + [""]
      else init[..|init| - 1] + [init[|init| - 1] + [s[|s| - 1]]]
  }

  /** `pieces.join(sep)`. */
  function JoinWith(pieces: seq<string>, sep: string): string
    decreases |pieces|
  {
    if pieces == [] then ""
    else if |pieces| == 1 then pieces[0]
    else JoinWith(pieces[..|pieces| - 1], sep) + sep + pieces[|pieces| - 1]
  }

  lemma JoinWithSnoc(ps: seq<string>, p: string, sep: string)
    requires ps != []
    ensures JoinWith(ps + [p], sep) == JoinWith(ps, sep) + sep + p
  {
    assert (ps + [p])[..|ps + [p]| - 1] == ps;
  }

  /** Extending the last piece by `x` extends the joined string by `x`. */
  lemma JoinWithExtendLast(ps: seq<string>, x: char, sep: string)
    requires ps != []
    ensures JoinWith(ps[..|ps| - 1] + [ps[|ps| - 1] + [x]], sep) == JoinWith(ps, sep) + [x]
  {
    var front := ps[..|ps| - 1];
    var last := ps[|ps| - 1];
    assert ps == front + [last];
    if front != [] {
      JoinWithSnoc(front, last, sep);
      JoinWithSnoc(front, last + [x], sep);
    }
  }

  /** A join starts with the first character of its first piece. */
  lemma {:induction false} JoinWithFirst(ps: seq<string>, sep: string)
    requires ps != [] && ps[0] != []
    ensures JoinWith(ps, sep) != [] && JoinWith(ps, sep)[0] == ps[0][0]
    decreases |ps|
  {
    if |ps| > 1 {
      JoinWithFirst(ps[..|ps| - 1], sep);
    }
  }

  /** A join ends with the last character of its last piece. */
  lemma JoinWithLast(ps: seq<string>, sep: string)
    requires ps != [] && ps[|ps| - 1] != []
    ensures JoinWith(ps, sep) != [] && JoinWith(ps, sep)[|JoinWith(ps, sep)| - 1] == ps[|ps| - 1][|ps[|ps| - 1]| - 1]
  {
  }

  /** A class of characters that holds every character of the pieces and of the separator holds every character of the join. */
  lemma {:induction false} JoinWithAll(ps: seq<string>, sep: string, P: char -> bool)
    requires forall i, k :: 0 <= i < |ps| && 0 <= k < |ps[i]| ==> P(ps[i][k])
    requires forall k :: 0 <= k < |sep| ==> P(sep[k])
    ensures forall k :: 0 <= k < |JoinWith(ps, sep)| ==> P(JoinWith(ps, sep)[k])
    decreases |ps|
  {
    if |ps| > 1 {
      var front := ps[..|ps| - 1];
      var last := ps[|ps| - 1];
      JoinWithAll(front, sep, P);
      var j := JoinWith(front, sep);
      assert JoinWith(ps, sep) == j + sep + last;
      forall k | 0 <= k < |j + sep + last|
        ensures P((j + sep + last)[k])
      {
        if k < |j| {
        } else if k < |j| + |sep| {
          assert (j + sep + last)[k] == sep[k - |j|];
        } else {
          assert (j + sep + last)[k] == last[k - |j| - |sep|];
        }
      }
    }
  }

  /** Non-empty separator-free pieces joined by one separator character split back into those pieces. */
  lemma {:induction false} SplitRunsJoin(ps: seq<string>, t: char, sep: char -> bool)
    requires sep(t) && ps != []
    requires forall i :: 0 <= i < |ps| ==> ps[i] != []
    requires forall i, k :: 0 <= i < |ps| && 0 <= k < |ps[i]| ==> !sep(ps[i][k])
    ensures SplitRuns(JoinWith(ps, [t]), sep) == ps
    decreases |ps|
  {
    var front := ps[..|ps| - 1];
    var last := ps[|ps| - 1];
    assert ps == front + [last];
    if front == [] {
      SplitRunsNoSep(last, sep);
    } else {
      SplitRunsJoin(front, t, sep);
      JoinWithSnoc(front, last, [t]);
      JoinWithLast(front, [t]);
      SplitRunsSepThen(JoinWith(front, [t]), t, last, sep);
    }
  }

  /** Joining the pieces of a split with the separator gives back the original string. */
  lemma {:induction false} JoinSplitOn(s: string, c: char)
    ensures JoinWith(SplitOn(s, c), [c]) == s
    decreases |s|
  {
    if s != [] {
      var s' := s[..|s| - 1];
      var init := SplitOn(s', c);
      JoinSplitOn(s', c);
      assert s == s' + [s[|s| - 1]];
      if s[|s| - 1] == c {
        JoinWithSnoc(init, "", [c]);
      } else {
        JoinWithExtendLast(init, s[|s| - 1], [c]);
      }
    }
  }

  /** A string without the separator is one piece. */
  lemma {:induction false} SplitOnNoSep(b: string, c: char)
    requires forall k :: 0 <= k < |b| ==> b[k] != c
    ensures SplitOn(b, c) == [b]
    decreases |b|
  {
    if b != [] {
      SplitOnNoSep(b[..|b| - 1], c);
      assert b == b[..|b| - 1] + [b[|b| - 1]];
    }
  }

  /** Each occurrence of the separator closes a piece; the separator-free text after it is the next one. */
  lemma {:induction false} SplitOnSepThen(s: string, c: char, b: string)
    requires forall k :: 0 <= k < |b| ==> b[k] != c
    ensures SplitOn(s + [c] + b, c) == SplitOn(s, c) + [b]
    decreases |b|
  {
    if b == [] {
      assert s + [c] + b == s + [c];
      assert (s + [c])[..|s + [c]| - 1] == s;
    } else {
      var b' := b[..|b| - 1];
      SplitOnSepThen(s, c, b');
      assert (s + [c] + b)[..|s + [c] + b| - 1] == s + [c] + b';
      assert b == b' + [b[|b| - 1]];
    }
  }

  /** No piece of `SplitOn(s, c)` contains `c`. */
  lemma {:induction false} SplitOnPiecesClean(s: string, c: char)
    ensures forall j, k :: 0 <= j < |SplitOn(s, c)| && 0 <= k < |SplitOn(s, c)[j]| ==> SplitOn(s, c)[j][k] != c
    decreases |s|
  {
    if s != [] {
      SplitOnPiecesClean(s[..|s| - 1], c);
    }
  }

  // ---------------------------------------------------------------------------------------
  // `trim` / `strip`.

  /** `s` without its leading white space (for the white-space class `ws`). */
  function TrimStart(s: string, ws: char -> bool): (r: string)
    ensures |r| <= |s| && r == s[|s| - |r|..]
    ensures forall k :: 0 <= k < |s| - |r| ==> ws(s[k])
    ensures r != [] ==> !ws(r[0])
    decreases |s|
  {
    if s != [] && ws(s[0]) then TrimStart(s[1..], ws) else s
  }

  /** `s` without its trailing white space. */
  function TrimEnd(s: string, ws: char -> bool): (r: string)
    ensures |r| <= |s| && r == s[..|r|]
    ensures forall k :: |r| <= k < |s| ==> ws(s[k])
    ensures r != [] ==> !ws(r[|r| - 1])
    decreases |s|
  {
    if s != [] && ws(s[|s| - 1]) then TrimEnd(s[..|s| - 1], ws) else s
  }

  /** JavaScript's `s.trim()` (with `IsJsSpace`) and Python's `s.strip()` (with `IsPySpace`). */
  function Trim(s: string, ws: char -> bool): string
  {
    TrimEnd(TrimStart(s, ws), ws)
  }

  /** `r` is `s[i..j]`, and everything of `s` outside `i..j` is white space. */
  predicate CutsOnlySpace(s: string, ws: char -> bool, i: int, j: int)
  {
    0 <= i <= j <= |s| &&
    (forall k :: 0 <= k < i ==> ws(s[k])) && (forall k :: j <= k < |s| ==> ws(s[k]))
  }

  /** The trimmed string is `s[i..j]` for bounds `i`, `j` outside which `s` holds only white space. */
  lemma TrimCutsOnlySpace(s: string, ws: char -> bool) returns (i: nat, j: nat)
    ensures CutsOnlySpace(s, ws, i, j) && Trim(s, ws) == s[i..j]
  {
    var a := TrimStart(s, ws);
    var b := TrimEnd(a, ws);
    i := |s| - |a|;
    j := i + |b|;
    forall k | j <= k < |s| ensures ws(s[k]) {
      assert s[k] == a[k - i];
    }
  }

  /** Removing white space after cutting white space off the ends is removing it from the whole. */
  lemma DropAllCut(p: string, ws: char -> bool, i: int, j: int)
    requires CutsOnlySpace(p, ws, i, j)
    ensures DropAll(p[i..j], ws) == DropAll(p, ws)
  {
    var a, t, b := p[..i], p[i..j], p[j..];
    assert p == a + t + b;
    DropAllEverything(a, ws);
    DropAllEverything(b, ws);
    DropAllAppend(a, t, ws);
    DropAllAppend(a + t, b, ws);
  }

  /** Trimming removes only white space. */
  lemma TrimKeepsContent(p: string, ws: char -> bool)
    ensures DropAll(Trim(p, ws), ws) == DropAll(p, ws)
  {
    var i, j := TrimCutsOnlySpace(p, ws);
    DropAllCut(p, ws, i, j);
  }

  /** A character class absent from `p` is absent from its trimmed form. */
  lemma TrimKeepsAbsence(p: string, ws: char -> bool, bad: char -> bool)
    requires forall k :: 0 <= k < |p| ==> !bad(p[k])
    ensures forall k :: 0 <= k < |Trim(p, ws)| ==> !bad(Trim(p, ws)[k])
  {
    var i, j := TrimCutsOnlySpace(p, ws);
    assert forall k :: 0 <= k < j - i ==> p[i..j][k] == p[i + k];
  }

  /** The trimmed string neither starts nor ends with white space. */
  lemma TrimEnds(s: string, ws: char -> bool)
    requires Trim(s, ws) != []
    ensures !ws(Trim(s, ws)[0]) && !ws(Trim(s, ws)[|Trim(s, ws)| - 1])
  {
    var a := TrimStart(s, ws);
    assert Trim(s, ws)[0] == a[0];
  }

  /** A string with no white space at either end is its own trimmed form. */
  lemma TrimIdentity(s: string, ws: char -> bool)
    requires s != [] && !ws(s[0]) && !ws(s[|s| - 1])
    ensures Trim(s, ws) == s
  {
  }

  /** A leading white-space character does not survive trimming. */
  lemma TrimDropsLeading(c: char, s: string, ws: char -> bool)
    requires ws(c)
    ensures Trim([c] + s, ws) == Trim(s, ws)
  {
    assert ([c] + s)[1..] == s;
  }

  /** Trimming leaves nothing exactly when the string is all white space. */
  lemma TrimEmptyIff(s: string, ws: char -> bool)
    ensures Trim(s, ws) == [] <==> forall k :: 0 <= k < |s| ==> ws(s[k])
  {
    var a := TrimStart(s, ws);
    var b := TrimEnd(a, ws);
    if b == [] {
      forall k | 0 <= k < |s| ensures ws(s[k]) {
        if k >= |s| - |a| {
          assert s[k] == a[k - (|s| - |a|)];
        }
      }
    }
  }

  // ---------------------------------------------------------------------------------------
  // `toLowerCase` and `includes`.

  /** Lower-cases an ASCII capital letter and leaves every other character alone. */
  function LowerChar(c: char): char {
    if 'A' <= c <= 'Z' then (c as int + 32) as char else c
  }

  /** `s.toLowerCase()`, on the ASCII letters. */
  function Lower(s: string): string {
    seq(|s|, k requires 0 <= k < |s| => LowerChar(s[k]))
  }

  /** Lower-casing twice is lower-casing once, and it leaves no capital letter. */
  lemma LowerIdempotent(s: string)
    ensures Lower(Lower(s)) == Lower(s)
    ensures forall k :: 0 <= k < |s| ==> !('A' <= Lower(s)[k] <= 'Z')
  {
  }

  /** `hay.includes(needle)`. */
  function Contains(hay: string, needle: string): bool
    decreases |hay|
  {
    if needle <= hay then true
    else if hay == [] then false
    else Contains(hay[1..], needle)
  }

  /** `needle` occurs in `hay` starting at position `i`. */
  predicate OccursAt(hay: string, needle: string, i: int)
  {
    0 <= i && i + |needle| <= |hay| && hay[i..i + |needle|] == needle
  }

  /** `includes` holds exactly when `needle` occurs at some position of `hay`. */
  lemma {:induction false} ContainsIff(hay: string, needle: string)
    ensures Contains(hay, needle) <==> exists i :: OccursAt(hay, needle, i)
    decreases |hay|
  {
    if needle <= hay {
      assert OccursAt(hay, needle, 0);
    } else if hay == [] {
    } else {
      ContainsIff(hay[1..], needle);
      if exists i :: OccursAt(hay, needle, i) {
        var i :| OccursAt(hay, needle, i);
        assert i != 0;
        assert OccursAt(hay[1..], needle, i - 1);
      }
      if Contains(hay[1..], needle) {
        var i :| OccursAt(hay[1..], needle, i);
        assert OccursAt(hay, needle, i + 1);
      }
    }
  }

  // ---------------------------------------------------------------------------------------
  // Decimal rendering of a number, as in the template literal `${n}`.

  predicate IsDigit(c: char) {
    '0' <= c <= '9'
  }

  predicate AllDigits(s: string) {
    forall k :: 0 <= k < |s| ==> IsDigit(s[k])
  }

  function DigitChar(d: nat): (c: char)
    requires d < 10
    ensures IsDigit(c)
  {
    ('0' as int + d) as char
  }

  /** The decimal digits of `n`, most significant first, with no leading zero. */
  function NatToString(n: nat): (s: string)
    ensures |s| >= 1 && AllDigits(s)
    ensures |s| == 1 <==> n < 10
    decreases n
  {
    if n < 10 then [DigitChar(n)] else NatToString(n / 10) + [DigitChar(n % 10)]
  }

  /** The number a string of decimal digits denotes (`Number(s)`). */
  function DigitsValue(s: string): nat
    requires AllDigits(s)
    decreases |s|
  {
    if s == [] then 0 else 10 * DigitsValue(s[..|s| - 1]) + (s[|s| - 1] as int - '0' as int)
  }

  /** Reading back the rendered digits gives the number. */
  lemma {:induction false} NatToStringRoundTrip(n: nat)
    ensures DigitsValue(NatToString(n)) == n
    decreases n
  {
    if n >= 10 {
      NatToStringRoundTrip(n / 10);
      var s := NatToString(n);
      assert s[..|s| - 1] == NatToString(n / 10);
    }
  }

  /** Distinct numbers render to distinct strings. */
  lemma NatToStringInjective(a: nat, b: nat)
    requires NatToString(a) == NatToString(b)
    ensures a == b
  {
    NatToStringRoundTrip(a);
    NatToStringRoundTrip(b);
  }
}
