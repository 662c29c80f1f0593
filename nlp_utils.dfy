/** Tokenizers and the token-type classifier of include/nlp_utils.h. */
module NlpUtils {
  import opened Ordering
  import opened Utils

  // ---------------------------------------------------------------------
  // Counting and sequence helpers shared by the text pipeline

  /** How many elements of s satisfy p (counted from the end, so that a loop
      over a prefix extends it one element at a time). */
  function CountIf<T>(s: seq<T>, p: T -> bool): (n: nat)
    ensures n <= |s|
  {
    if s == [] then 0 else CountIf(s[..|s| - 1], p) + (if p(s[|s| - 1]) then 1 else 0)
  }

  lemma CountIfStep<T>(s: seq<T>, i: nat, p: T -> bool)
    requires i < |s|
    ensures CountIf(s[..i + 1], p) == CountIf(s[..i], p) + (if p(s[i]) then 1 else 0)
  {
    assert s[..i + 1][..i] == s[..i];
  }

  /** Every element satisfies p exactly when all of them are counted. */
  lemma {:induction false} CountIfAll<T>(s: seq<T>, p: T -> bool)
    ensures CountIf(s, p) == |s| <==> forall i :: 0 <= i < |s| ==> p(s[i])
  {
    if s != [] {
      var s' := s[..|s| - 1];
      CountIfAll(s', p);
      if CountIf(s, p) == |s| {
        forall i | 0 <= i < |s| ensures p(s[i]) {
          if i < |s| - 1 {
            assert s'[i] == s[i];
          }
        }
      }
      if forall i :: 0 <= i < |s| ==> p(s[i]) {
        assert forall i :: 0 <= i < |s'| ==> p(s'[i]) by {
          forall i | 0 <= i < |s'| ensures p(s'[i]) {
            assert s'[i] == s[i];
          }
        }
      }
    }
  }

  /** The concatenation of a sequence of strings. */
  function Concat(ts: seq<string>): (r: string)
    ensures |ts| == 1 ==> r == ts[0]
  {
    if ts == [] then "" else ts[0] + Concat(ts[1..])
  }

  /** The strings joined with the delimiter between consecutive ones. */
  function Join(ts: seq<string>, d: char): string {
    if |ts| == 0 then "" else if |ts| == 1 then ts[0] else ts[0] + [d] + Join(ts[1..], d)
  }

  /** s without the characters in cs. */
  function Strip(s: string, cs: set<char>): string {
    if s == [] then "" else (if s[0] in cs then "" else [s[0]]) + Strip(s[1..], cs)
  }

  lemma {:induction false} StripAppend(a: string, b: string, cs: set<char>)
    ensures Strip(a + b, cs) == Strip(a, cs) + Strip(b, cs)
  {
    if a == [] {
      assert a + b == b;
    } else {
      assert (a + b)[0] == a[0] && (a + b)[1..] == a[1..] + b;
      StripAppend(a[1..], b, cs);
      var head := if a[0] in cs then "" else [a[0]];
      assert Strip(a + b, cs) == head + Strip(a[1..] + b, cs);
      assert Strip(a, cs) == head + Strip(a[1..], cs);
    }
  }

  lemma {:induction false} StripNone(a: string, cs: set<char>)
    requires forall c :: c in a ==> c !in cs
    ensures Strip(a, cs) == a
  {
    if a != [] {
      StripNone(a[1..], cs);
    }
  }

  // ---------------------------------------------------------------------
  // tokenize

  /** The pieces between delimiters from position from on, empty pieces
      included: what the first loop of tokenize pushes. */
  function SplitAt(s: string, d: char, from: nat): (r: seq<string>)
    requires from <= |s|
    ensures |r| >= 1
    decreases |s| - from
  {
    var p := FindChar(s, d, from);
    if p == -1 then [s[from..]] else [s[from..p]] + SplitAt(s, d, p + 1)
  }

  function Split(s: string, d: char): (r: seq<string>) {
    SplitAt(s, d, 0)
  }

  /** The non-empty strings of ts, in order. */
  function NonEmpty(ts: seq<string>): (r: seq<string>)
    ensures |r| <= |ts|
  {
    if ts == [] then [] else (if |ts[0]| == 0 then [] else [ts[0]]) + NonEmpty(ts[1..])
  }

  lemma {:induction false} NonEmptyMembers(ts: seq<string>)
    ensures forall t :: t in NonEmpty(ts) ==> t in ts && |t| > 0
  {
    if ts != [] {
      NonEmptyMembers(ts[1..]);
    }
  }

  /** What tokenize(text, delimiter) returns. */
  function Tokens(s: string, d: char): seq<string> {
    NonEmpty(Split(s, d))
  }

  /** The lines std::getline reads from a stream over s: the pieces between
      newlines, without an empty piece after a final newline. */
  function Lines(s: string): seq<string> {
    if s == [] then []
    else if s[|s| - 1] == '\n' then Split(s[..|s| - 1], '\n')
    else Split(s, '\n')
  }

  /** No line holds a newline, and joining the lines with newlines gives
      back the text up to its final newline. */
  lemma LinesJoin(s: string)
    ensures forall t :: t in Lines(s) ==> '\n' !in t
    ensures s != [] && s[|s| - 1] == '\n' ==> Join(Lines(s), '\n') + "\n" == s
    ensures s != [] && s[|s| - 1] != '\n' ==> Join(Lines(s), '\n') == s
  {
    if s != [] {
      var body := if s[|s| - 1] == '\n' then s[..|s| - 1] else s;
      SplitAtPiecesFree(body, '\n', 0);
      SplitJoin(body, '\n');
      if s[|s| - 1] == '\n' {
        assert body + "\n" == s;
      }
    }
  }

  lemma {:induction false} SplitAtJoin(s: string, d: char, from: nat)
    requires from <= |s|
    ensures Join(SplitAt(s, d, from), d) == s[from..]
    decreases |s| - from
  {
    var p := FindChar(s, d, from);
    if p != -1 {
      SplitAtJoin(s, d, p + 1);
      assert s[from..] == s[from..p] + [d] + s[p + 1..];
    }
  }

  /** Joining the pieces with the delimiter gives back the text. */
  lemma SplitJoin(s: string, d: char)
    ensures Join(Split(s, d), d) == s
  {
    SplitAtJoin(s, d, 0);
    assert s[0..] == s;
  }

  /** No piece contains the delimiter. */
  lemma {:induction false} SplitAtPiecesFree(s: string, d: char, from: nat)
    requires from <= |s|
    ensures forall t :: t in SplitAt(s, d, from) ==> d !in t
    decreases |s| - from
  {
    var p := FindChar(s, d, from);
    if p != -1 {
      SplitAtPiecesFree(s, d, p + 1);
    }
  }

  /** The first piece from position from on, with the delimiter that ends
      it (if any) and what follows. */
  lemma FirstPiece(s: string, d: char, from: nat)
    requires from <= |s|
    ensures var p := FindChar(s, d, from);
      var t := if p == -1 then s[from..] else s[from..p];
      && Strip(t, {d}) == t
      && (p == -1 ==> s[from..] == t)
      && (p != -1 ==> s[from..] == t + ([d] + s[p + 1..]))
  {
    var p := FindChar(s, d, from);
    var e := if p == -1 then |s| else p;
    var t := s[from..e];
    NoDelimiterBefore(s, d, from, e);
    StripNone(t, {d});
    if p != -1 {
      assert s[from..] == s[from..p] + ([d] + s[p + 1..]);
    } else {
      assert s[from..] == t;
    }
  }

  /** A stretch that FindChar skips holds no delimiter. */
  lemma NoDelimiterBefore(s: string, d: char, from: nat, e: nat)
    requires from <= e <= |s| && forall j :: from <= j < e ==> s[j] != d
    ensures forall c :: c in s[from..e] ==> c !in {d}
  {
    var t := s[from..e];
    forall c | c in t ensures c !in {d} {
      var j :| 0 <= j < |t| && t[j] == c;
      assert s[from + j] == c;
    }
  }

  lemma StripDelimited(t: string, d: char, y: string)
    requires Strip(t, {d}) == t
    ensures Strip(t + ([d] + y), {d}) == t + Strip(y, {d})
  {
    StripAppend(t, [d] + y, {d});
    StripAppend([d], y, {d});
    assert Strip([d], {d}) == "";
  }

  lemma {:induction false} ConcatSplitAt(s: string, d: char, from: nat)
    requires from <= |s|
    ensures Concat(SplitAt(s, d, from)) == Strip(s[from..], {d})
    decreases |s| - from
  {
    var p := FindChar(s, d, from);
    FirstPiece(s, d, from);
    if p == -1 {
      assert SplitAt(s, d, from) == [s[from..]];
    } else {
      var t := s[from..p];
      var rest := SplitAt(s, d, p + 1);
      assert SplitAt(s, d, from) == [t] + rest;
      assert Concat([t] + rest) == t + Concat(rest);
      ConcatSplitAt(s, d, p + 1);
      StripDelimited(t, d, s[p + 1..]);
    }
  }

  lemma {:induction false} ConcatNonEmpty(ts: seq<string>)
    ensures Concat(NonEmpty(ts)) == Concat(ts)
  {
    if ts != [] {
      ConcatNonEmpty(ts[1..]);
      var head: seq<string> := if |ts[0]| == 0 then [] else [ts[0]];
      ConcatAppend(head, NonEmpty(ts[1..]));
    }
  }

  lemma {:induction false} ConcatAppend(a: seq<string>, b: seq<string>)
    ensures Concat(a + b) == Concat(a) + Concat(b)
  {
    if a == [] {
      assert a + b == b;
    } else {
      assert (a + b)[0] == a[0] && (a + b)[1..] == a[1..] + b;
      ConcatAppend(a[1..], b);
    }
  }

  /** tokenize's promise: no token is empty or holds the delimiter, and
      together the tokens are the text with the delimiters taken out. */
  lemma TokensCorrect(s: string, d: char)
    ensures forall t :: t in Tokens(s, d) ==> |t| > 0 && d !in t
    ensures Concat(Tokens(s, d)) == Strip(s, {d})
  {
    SplitAtPiecesFree(s, d, 0);
    NonEmptyMembers(Split(s, d));
    ConcatNonEmpty(Split(s, d));
    ConcatSplitAt(s, d, 0);
    assert s[0..] == s;
  }

  lemma NonEmptyAt(ts: seq<string>, i: nat)
    requires i < |ts|
    ensures NonEmpty(ts[i..]) == (if |ts[i]| == 0 then [] else [ts[i]]) + NonEmpty(ts[i + 1..])
  {
    assert ts[i..][1..] == ts[i + 1..];
  }

  /** One step of the erasing loop of tokenize. */
  lemma EraseStep(orig: seq<string>, i: nat, tokens: seq<string>)
    requires i < |orig| && tokens == orig[..i + 1] + NonEmpty(orig[i + 1..])
    ensures tokens[i] == orig[i]
    ensures |tokens[i]| == 0 ==> tokens[..i] + tokens[i + 1..] == orig[..i] + NonEmpty(orig[i..])
    ensures |tokens[i]| != 0 ==> tokens == orig[..i] + NonEmpty(orig[i..])
  {
    NonEmptyAt(orig, i);
    assert orig[..i + 1] == orig[..i] + [orig[i]];
    if |orig[i]| == 0 {
      assert tokens[..i] == orig[..i];
      assert tokens[i + 1..] == NonEmpty(orig[i + 1..]);
    }
  }

  /** tokenize: push the pieces between delimiters, then erase the empty
      ones from the back. */
  method Tokenize(text: string, delimiter: char) returns (tokens: seq<string>)
    ensures tokens == Tokens(text, delimiter)
  {
    var pieces := SplitPieces(text, delimiter);
    tokens := EraseEmpty(pieces);
  }

  /** The first loop of tokenize: every piece between delimiters, then the
      rest of the text. */
  method SplitPieces(text: string, delimiter: char) returns (tokens: seq<string>)
    ensures tokens == Split(text, delimiter)
  {
    tokens := [];
    var initialPos: nat := 0;
    var pos := FindChar(text, delimiter, 0);
    while pos != -1
      invariant initialPos <= |text|
      invariant pos == FindChar(text, delimiter, initialPos)
      invariant tokens + SplitAt(text, delimiter, initialPos) == Split(text, delimiter)
      decreases |text| - initialPos
    {
      SplitAtStep(tokens, text, delimiter, initialPos);
      tokens := tokens + [text[initialPos..pos]];
      initialPos := pos + 1;
      pos := FindChar(text, delimiter, initialPos);
    }
    // substr(initialPos, size - initialPos + 1) clamps to the end of the text
    assert SplitAt(text, delimiter, initialPos) == [text[initialPos..]];
    tokens := tokens + [text[initialPos..]];
  }

  /** One pass of the first loop of tokenize moves a piece from what is
      left to what is pushed. */
  lemma SplitAtStep(tokens: seq<string>, s: string, d: char, from: nat)
    requires from <= |s| && FindChar(s, d, from) != -1
    ensures tokens + SplitAt(s, d, from) == (tokens + [s[from..FindChar(s, d, from)]]) + SplitAt(s, d, FindChar(s, d, from) + 1)
  {
    var p := FindChar(s, d, from);
    assert SplitAt(s, d, from) == [s[from..p]] + SplitAt(s, d, p + 1);
  }

  /** The erasing loop of tokenize: from the back, every empty token is
      erased. */
  method EraseEmpty(pieces: seq<string>) returns (tokens: seq<string>)
    ensures tokens == NonEmpty(pieces)
  {
    tokens := pieces;
    ghost var orig := tokens;
    var i := |tokens| - 1;
    assert orig[i + 1..] == [];
    while i >= 0
      invariant -1 <= i < |orig|
      invariant tokens == orig[..i + 1] + NonEmpty(orig[i + 1..])
    {
      EraseStep(orig, i, tokens);
      if |tokens[i]| == 0 {
        tokens := tokens[..i] + tokens[i + 1..];
      }
      i := i - 1;
    }
    assert orig[0..] == orig;
  }

  // ---------------------------------------------------------------------
  // tokenize_with_punctuation

  /** The signs tokenize_with_punctuation surrounds with spaces. */
  const PUNCT_SIGNS: seq<char> := ['.', ',', ':', ';', '!', '?', '\'', '"', '\U{201C}', '\U{AB}', '\U{BB}', '-']

  predicate IsPunctSign(c: char) {
    || c == '.' || c == ',' || c == ':' || c == ';' || c == '!' || c == '?'
    || c == '\'' || c == '"' || c == '\U{201C}' || c == '\U{AB}' || c == '\U{BB}' || c == '-'
  }

  /** Every punctuation sign wrapped in a space on each side. */
  function Spaced(s: string): (r: string)
    ensures |r| >= |s|
  {
    if s == [] then "" else (if IsPunctSign(s[0]) then [' ', s[0], ' '] else [s[0]]) + Spaced(s[1..])
  }

  /** What tokenize_with_punctuation(text) returns. */
  function PunctTokens(text: string): seq<string> {
    Tokens(Spaced(ReplaceWith(text, "\n", " ")), ' ')
  }

  lemma {:induction false} SpacedAppend(a: string, b: string)
    ensures Spaced(a + b) == Spaced(a) + Spaced(b)
  {
    if a == [] {
      assert a + b == b;
    } else {
      assert (a + b)[0] == a[0] && (a + b)[1..] == a[1..] + b;
      SpacedAppend(a[1..], b);
    }
  }

  lemma {:induction false} SpacedNone(a: string)
    requires forall i :: 0 <= i < |a| ==> !IsPunctSign(a[i])
    ensures Spaced(a) == a
  {
    if a != [] {
      SpacedNone(a[1..]);
    }
  }

  /** One step of the insertion loop: the sign at pos gets its two spaces. */
  lemma SpacedStep(orig: string, pos: nat, b: nat)
    requires pos < b <= |orig|
    requires IsPunctSign(orig[pos])
    requires forall x :: pos < x < b ==> !IsPunctSign(orig[x])
    ensures var s := orig[..b] + Spaced(orig[b..]);
            var s1 := s[..pos + 1] + " " + s[pos + 1..];
            s1[..pos] + " " + s1[pos..] == orig[..pos] + Spaced(orig[pos..])
  {
    var rest := Spaced(orig[b..]);
    var s := orig[..b] + rest;
    var mid := orig[pos + 1..b];
    SpacedFrom(orig, pos, b);
    assert s[..pos + 1] == orig[..pos] + [orig[pos]];
    assert s[pos + 1..] == mid + rest;
    var s1 := s[..pos + 1] + " " + s[pos + 1..];
    assert s1[..pos] == orig[..pos];
    assert s1[pos..] == [orig[pos]] + " " + mid + rest;
  }

  /** From a sign with no other sign before position b, Spaced wraps the
      sign and copies the rest up to b. */
  lemma SpacedFrom(orig: string, pos: nat, b: nat)
    requires pos < b <= |orig|
    requires IsPunctSign(orig[pos])
    requires forall x :: pos < x < b ==> !IsPunctSign(orig[x])
    ensures Spaced(orig[pos..]) == [' ', orig[pos], ' '] + orig[pos + 1..b] + Spaced(orig[b..])
  {
    var mid := orig[pos + 1..b];
    assert orig[pos..] == [orig[pos]] + (mid + orig[b..]);
    SpacedAppend([orig[pos]], mid + orig[b..]);
    SpacedAppend(mid, orig[b..]);
    SpacedNone(mid);
    assert Spaced([orig[pos]]) == [' ', orig[pos], ' '];
  }

  /** Each element of an increasing sequence occurs once. */
  lemma {:induction false} IncreasingCount(s: seq<nat>)
    requires Increasing(s)
    ensures forall x :: multiset(s)[x] == if x in s then 1 else 0
  {
    if s != [] {
      assert Increasing(s[1..]) by {
        forall i, j | 0 <= i < j < |s[1..]| ensures s[1..][i] < s[1..][j] {
          assert s[1..][i] == s[i + 1] && s[1..][j] == s[j + 1];
        }
      }
      IncreasingCount(s[1..]);
      assert s == [s[0]] + s[1..];
      assert s[0] !in s[1..] by {
        forall k | 0 <= k < |s[1..]| ensures s[1..][k] != s[0] {
          assert s[1..][k] == s[k + 1];
        }
      }
    }
  }

  /** No element occurs twice in a sequence whose counts are at most one. */
  lemma Distinct(s: seq<nat>, i: nat, j: nat)
    requires forall x :: multiset(s)[x] <= 1
    requires i < j < |s|
    ensures s[i] != s[j]
  {
    var v := s[i];
    assert s == s[..j] + s[j..];
    assert s[i] == s[..j][i];
    assert s[j] == s[j..][0];
    assert multiset(s)[v] == multiset(s[..j])[v] + multiset(s[j..])[v];
    assert multiset(s[..j])[v] >= 1;
  }

  lemma PunctSignsDistinct()
    ensures forall a, b :: 0 <= a < b < |PUNCT_SIGNS| ==> PUNCT_SIGNS[a] != PUNCT_SIGNS[b]
    ensures forall c :: IsPunctSign(c) <==> c in PUNCT_SIGNS
  {
  }

  ghost predicate Decreasing(s: seq<nat>) {
    forall i, j :: 0 <= i < j < |s| ==> s[i] > s[j]
  }

  /** The positions still to visit are exactly the signs before b. */
  ghost predicate Pending(orig: string, positions: seq<nat>, k: nat, b: nat)
    requires k <= |positions| && b <= |orig|
  {
    && (forall x: nat :: (x < b && IsPunctSign(orig[x])) <==> x in positions[k..])
    && (forall i :: k <= i < |positions| ==> positions[i] < b)
  }

  /** Sorting the collected positions, each of which occurs once, puts every
      sign position in strictly descending order. */
  lemma SortedPositions(orig: string, unsorted: seq<nat>, positions: seq<nat>)
    requires forall x: nat :: multiset(unsorted)[x] == (if x < |orig| && IsPunctSign(orig[x]) then 1 else 0)
    requires multiset(positions) == multiset(unsorted)
    requires NonIncreasing(positions, (p: nat) => p as int)
    ensures Decreasing(positions)
    ensures Pending(orig, positions, 0, |orig|)
  {
    forall x: nat ensures x in positions <==> x < |orig| && IsPunctSign(orig[x]) {
      assert x in positions <==> x in multiset(positions);
    }
    forall i | 0 <= i < |positions| ensures positions[i] < |orig| {
      assert positions[i] in positions;
    }
    forall i, j | 0 <= i < j < |positions| ensures positions[i] > positions[j] {
      Distinct(positions, i, j);
    }
    assert positions[0..] == positions;
  }

  /** Each sign's positions are counted once. */
  ghost predicate Collected(orig: string, positions: seq<nat>, j: nat)
    requires j <= |PUNCT_SIGNS|
  {
    forall x: nat :: multiset(positions)[x] == (if x < |orig| && orig[x] in PUNCT_SIGNS[..j] then 1 else 0)
  }

  lemma CollectStep(orig: string, positions: seq<nat>, tempPos: seq<nat>, j: nat)
    requires j < |PUNCT_SIGNS| && Collected(orig, positions, j)
    requires Increasing(tempPos)
    requires forall p: nat :: p in tempPos <==> p < |orig| && orig[p] == PUNCT_SIGNS[j]
    ensures Collected(orig, positions + tempPos, j + 1)
  {
    PunctSignsDistinct();
    IncreasingCount(tempPos);
    assert PUNCT_SIGNS[..j + 1] == PUNCT_SIGNS[..j] + [PUNCT_SIGNS[j]];
  }

  lemma CollectedAll(orig: string, positions: seq<nat>)
    requires Collected(orig, positions, |PUNCT_SIGNS|)
    ensures forall x: nat :: multiset(positions)[x] == (if x < |orig| && IsPunctSign(orig[x]) then 1 else 0)
  {
    PunctSignsDistinct();
    assert PUNCT_SIGNS[..|PUNCT_SIGNS|] == PUNCT_SIGNS;
  }

  /** Visiting the largest pending position keeps the rest pending. */
  lemma PendingStep(orig: string, positions: seq<nat>, k: nat, b: nat)
    requires Decreasing(positions) && k < |positions| && b <= |orig|
    requires Pending(orig, positions, k, b)
    ensures positions[k] < b && IsPunctSign(orig[positions[k]])
    ensures forall x :: positions[k] < x < b ==> !IsPunctSign(orig[x])
    ensures Pending(orig, positions, k + 1, positions[k])
  {
    var pos := positions[k];
    assert positions[k..] == [pos] + positions[k + 1..];
    assert pos in positions[k..];
    forall x | pos < x < b ensures !IsPunctSign(orig[x]) {
      assert forall i :: k <= i < |positions| ==> positions[i] <= pos;
    }
  }

  lemma NothingPending(orig: string, positions: seq<nat>, b: nat)
    requires b <= |orig| && Pending(orig, positions, |positions|, b)
    ensures forall x :: 0 <= x < b ==> !IsPunctSign(orig[x])
  {
    assert positions[|positions|..] == [];
  }

  /** With no sign left before b, the text is fully spaced. */
  lemma SpacedDone(orig: string, b: nat)
    requires b <= |orig|
    requires forall x :: 0 <= x < b ==> !IsPunctSign(orig[x])
    ensures orig[..b] + Spaced(orig[b..]) == Spaced(orig)
  {
    SpacedNone(orig[..b]);
    SpacedAppend(orig[..b], orig[b..]);
    assert orig[..b] + orig[b..] == orig;
  }

  /** tokenize_with_punctuation: newlines become spaces, and a space goes on
      each side of every sign, at positions taken in descending order so that
      the earlier positions stay valid. */
  method TokenizeWithPunctuation(text: string) returns (tokens: seq<string>)
    ensures tokens == PunctTokens(text)
  {
    var nonewlines := ReplaceWith(text, "\n", " ");
    ghost var orig := nonewlines;
    var positions: seq<nat> := [];
    for j := 0 to |PUNCT_SIGNS|
      invariant Collected(orig, positions, j)
    {
      var tempPos := GetAllOccurences(nonewlines, PUNCT_SIGNS[j]);
      CollectStep(orig, positions, tempPos, j);
      positions := positions + tempPos;
    }
    CollectedAll(orig, positions);
    ghost var unsorted := positions;
    positions := SortDesc<nat>(positions, (p: nat) => p as int);
    SortedPositions(orig, unsorted, positions);
    ghost var b := |orig|;
    var k := 0;
    assert orig[..b] == orig && orig[b..] == [];
    while k < |positions|
      invariant 0 <= k <= |positions|
      invariant b <= |orig|
      invariant nonewlines == orig[..b] + Spaced(orig[b..])
      invariant Pending(orig, positions, k, b)
    {
      var pos := positions[k];
      PendingStep(orig, positions, k, b);
      SpacedStep(orig, pos, b);
      nonewlines := nonewlines[..pos + 1] + " " + nonewlines[pos + 1..];
      nonewlines := nonewlines[..pos] + " " + nonewlines[pos..];
      b := pos;
      k := k + 1;
    }
    NothingPending(orig, positions, b);
    SpacedDone(orig, b);
    tokens := Tokenize(nonewlines, ' ');
  }

  /** Signs never have a neighbour other than a space (or the string's end). */
  ghost predicate SignsIsolated(x: string) {
    forall i :: 0 <= i < |x| && IsPunctSign(x[i]) ==>
      (i == 0 || x[i - 1] == ' ') && (i == |x| - 1 || x[i + 1] == ' ')
  }

  lemma {:induction false} SpacedIsolates(s: string)
    ensures forall i :: 0 <= i < |Spaced(s)| && IsPunctSign(Spaced(s)[i]) ==>
      0 < i < |Spaced(s)| - 1 && Spaced(s)[i - 1] == ' ' && Spaced(s)[i + 1] == ' '
  {
    if s != [] {
      SpacedIsolates(s[1..]);
      var rest := Spaced(s[1..]);
      var head := if IsPunctSign(s[0]) then [' ', s[0], ' '] else [s[0]];
      assert Spaced(s) == head + rest;
      forall i | 0 <= i < |Spaced(s)| && IsPunctSign(Spaced(s)[i])
        ensures 0 < i < |Spaced(s)| - 1 && Spaced(s)[i - 1] == ' ' && Spaced(s)[i + 1] == ' '
      {
        if i >= |head| {
          assert Spaced(s)[i] == rest[i - |head|];
          assert Spaced(s)[i + 1] == rest[i - |head| + 1];
          assert Spaced(s)[i - 1] == rest[i - |head| - 1];
        }
      }
    }
  }

  /** A sign inside a space-free run bounded by spaces is the whole run. */
  lemma IsolatedInPiece(x: string, from: nat, e: nat, k: nat)
    requires SignsIsolated(x)
    requires from <= k < e <= |x|
    requires from == 0 || x[from - 1] == ' '
    requires forall j :: from <= j < e ==> x[j] != ' '
    requires IsPunctSign(x[k])
    ensures k == from && k + 1 == e
  {
    assert k == 0 || x[k - 1] == ' ';
    assert k == |x| - 1 || x[k + 1] == ' ';
  }

  /** A single sign, or a token without signs. */
  ghost predicate PunctShaped(t: string) {
    (|t| == 1 && IsPunctSign(t[0])) || forall i :: 0 <= i < |t| ==> !IsPunctSign(t[i])
  }

  lemma PieceShaped(x: string, from: nat)
    requires SignsIsolated(x)
    requires from <= |x| && (from == 0 || x[from - 1] == ' ')
    ensures var p := FindChar(x, ' ', from);
      PunctShaped(if p == -1 then x[from..] else x[from..p])
  {
    var p := FindChar(x, ' ', from);
    var e := if p == -1 then |x| else p;
    PieceShapedAt(x, from, e);
  }

  /** A stretch without spaces that starts after a space is one sign or
      has none. */
  lemma PieceShapedAt(x: string, from: nat, e: nat)
    requires SignsIsolated(x)
    requires from <= e <= |x| && (from == 0 || x[from - 1] == ' ')
    requires forall j :: from <= j < e ==> x[j] != ' '
    ensures PunctShaped(x[from..e])
  {
    var t := x[from..e];
    if i :| 0 <= i < |t| && IsPunctSign(t[i]) {
      assert t[i] == x[from + i];
      IsolatedInPiece(x, from, e, from + i);
      assert i == 0 && |t| == 1;
    }
  }

  lemma {:induction false} SplitIsolated(x: string, from: nat)
    requires SignsIsolated(x)
    requires from <= |x| && (from == 0 || x[from - 1] == ' ')
    ensures forall t :: t in SplitAt(x, ' ', from) ==> PunctShaped(t)
    decreases |x| - from
  {
    var p := FindChar(x, ' ', from);
    PieceShaped(x, from);
    if p != -1 {
      SplitIsolated(x, p + 1);
    }
  }

  lemma {:induction false} StripSpaced(s: string)
    ensures Strip(Spaced(s), {' '}) == Strip(s, {' '})
  {
    if s != [] {
      StripSpaced(s[1..]);
      var head := if IsPunctSign(s[0]) then [' ', s[0], ' '] else [s[0]];
      StripAppend(head, Spaced(s[1..]), {' '});
      if IsPunctSign(s[0]) {
        assert head == [' '] + ([s[0]] + [' ']);
        StripAppend([' '], [s[0]] + [' '], {' '});
        StripAppend([s[0]], [' '], {' '});
        assert Strip([' '], {' '}) == "";
      }
      assert Strip(head, {' '}) == Strip([s[0]], {' '});
    }
  }

  lemma {:induction false} StripNewlines(text: string)
    ensures Strip(ReplaceWith(text, "\n", " "), {' '}) == Strip(text, {' ', '\n'})
    ensures '\n' !in ReplaceWith(text, "\n", " ")
  {
    ReplaceCharWise(text, '\n', ' ');
    if text != [] {
      StripNewlines(text[1..]);
      assert text[..1] == [text[0]];
      assert ReplaceWith(text, "\n", " ") ==
        [if text[0] == '\n' then ' ' else text[0]] + ReplaceWith(text[1..], "\n", " ");
    }
  }

  lemma {:induction false} SpacedNoNewline(s: string)
    requires '\n' !in s
    ensures '\n' !in Spaced(s)
  {
    if s != [] {
      SpacedNoNewline(s[1..]);
    }
  }

  /** Splitting invents no characters: every character of a piece split
      from position from onwards occurs in the text. */
  lemma {:induction false} PiecesWithin(s: string, d: char, from: nat)
    requires from <= |s|
    ensures forall t, c :: t in SplitAt(s, d, from) && c in t ==> c in s
    decreases |s| - from
  {
    var p := FindChar(s, d, from);
    if p != -1 {
      PiecesWithin(s, d, p + 1);
    }
  }

  /** tokenize_with_punctuation's promise: every sign is a token of its own,
      and no other token holds a sign, a space or a newline. */
  lemma PunctTokensShape(text: string)
    ensures forall t :: t in PunctTokens(text) ==> |t| > 0 && ' ' !in t && '\n' !in t
    ensures forall t :: t in PunctTokens(text) ==>
      (|t| == 1 && IsPunctSign(t[0])) || forall i :: 0 <= i < |t| ==> !IsPunctSign(t[i])
  {
    var r := ReplaceWith(text, "\n", " ");
    var x := Spaced(r);
    TokensCorrect(x, ' ');
    NonEmptyMembers(Split(x, ' '));
    SpacedIsolates(r);
    SplitIsolated(x, 0);
    StripNewlines(text);
    SpacedNoNewline(r);
    PiecesWithin(x, ' ', 0);
  }

  /** Together the tokens are the text without its spaces and newlines. */
  lemma PunctTokensConcat(text: string)
    ensures Concat(PunctTokens(text)) == Strip(text, {' ', '\n'})
  {
    var r := ReplaceWith(text, "\n", " ");
    TokensCorrect(Spaced(r), ' ');
    StripSpaced(r);
    StripNewlines(text);
  }

  // ---------------------------------------------------------------------
  // get_token_type and tolower

  datatype TokenType = Other | Latin | Cyrillic | Number | Punctuation

  /** ::towlower for the scripts the pipeline distinguishes: Latin A-Z and
      the Cyrillic capitals U+0400-U+042F. */
  function LowerChar(c: char): char {
    if 'A' <= c <= 'Z' then (c as int + 32) as char
    else if '\U{410}' <= c <= '\U{42F}' then (c as int + 32) as char
    else if '\U{400}' <= c <= '\U{40F}' then (c as int + 80) as char
    else c
  }

  /** ::iswpunct: ASCII punctuation and the typographic quotes and dashes. */
  predicate IsPunct(c: char) {
    || ('!' <= c <= '/') || (':' <= c <= '@') || ('[' <= c <= '`') || ('{' <= c <= '~')
    || c in ['\U{AB}', '\U{BB}', '\U{2013}', '\U{2014}', '\U{2018}', '\U{2019}', '\U{201C}', '\U{201D}', '\U{201E}', '\U{2026}']
  }

  predicate IsLatinChar(c: char) {
    'a' <= LowerChar(c) <= 'z'
  }

  /** а-я, U+0430-U+044F; ё lies outside that range. */
  predicate IsCyrillicChar(c: char) {
    '\U{430}' <= LowerChar(c) <= '\U{44F}'
  }

  predicate IsDigitChar(c: char) {
    '0' <= LowerChar(c) <= '9'
  }

  /** The type get_token_type gives a token. */
  function TypeOf(token: string): TokenType {
    if |token| == 1 && IsPunct(token[0]) then Punctuation
    else if forall i :: 0 <= i < |token| ==> IsLatinChar(token[i]) then Latin
    else if forall i :: 0 <= i < |token| ==> IsCyrillicChar(token[i]) then Cyrillic
    else if forall i :: 0 <= i < |token| ==> IsDigitChar(token[i]) then Number
    else Other
  }

  /** get_token_type: count the Latin, Cyrillic and digit characters and
      compare each count with the length. */
  method GetTokenType(token: string) returns (t: TokenType)
    ensures t == TypeOf(token)
    ensures |token| == 1 && IsPunct(token[0]) ==> t == Punctuation
    ensures token == "" ==> t == Latin
  {
    var enCount, ruCount, digitCount := 0, 0, 0;
    var textLen := |token|;
    if textLen == 1 {
      if IsPunct(token[0]) {
        return Punctuation;
      }
    }
    for i := 0 to |token|
      invariant enCount == CountIf(token[..i], IsLatinChar)
      invariant ruCount == CountIf(token[..i], IsCyrillicChar)
      invariant digitCount == CountIf(token[..i], IsDigitChar)
    {
      CountIfStep(token, i, IsLatinChar);
      CountIfStep(token, i, IsCyrillicChar);
      CountIfStep(token, i, IsDigitChar);
      var cl := LowerChar(token[i]);
      if 'a' <= cl <= 'z' {
        enCount := enCount + 1;
      } else if '\U{430}' <= cl <= '\U{44F}' {
        ruCount := ruCount + 1;
      } else if '0' <= cl <= '9' {
        digitCount := digitCount + 1;
      }
    }
    assert token[..|token|] == token;
    CountIfAll(token, IsLatinChar);
    CountIfAll(token, IsCyrillicChar);
    CountIfAll(token, IsDigitChar);
    if textLen == enCount {
      t := Latin;
    } else if textLen == ruCount {
      t := Cyrillic;
    } else if textLen == digitCount {
      t := Number;
    } else {
      t := Other;
    }
  }

  /** tolower: every character lowered, the length unchanged. */
  function ToLower(token: string): (r: string)
    ensures |r| == |token|
    ensures forall i :: 0 <= i < |token| ==> r[i] == LowerChar(token[i])
  {
    if token == [] then [] else [LowerChar(token[0])] + ToLower(token[1..])
  }

  /** Lowering twice is lowering once. */
  lemma ToLowerIdempotent(token: string)
    ensures ToLower(ToLower(token)) == ToLower(token)
  {
  }

  /** make_stemming: the language's stemmer applied to every word, for en
      and ru only; the stemmer itself is a parameter. */
  function MakeStemming(langCode: string, words: seq<string>, stem: (string, string) -> string): (r: seq<string>)
    ensures |r| == |words|
    ensures forall i :: 0 <= i < |words| ==>
      r[i] == if langCode == "en" || langCode == "ru" then stem(langCode, words[i]) else words[i]
  {
    if langCode == "en" || langCode == "ru" then seq(|words|, i requires 0 <= i < |words| => stem(langCode, words[i]))
    else words
  }
}
