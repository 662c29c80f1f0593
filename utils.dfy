/** String and container helpers of include/utils.h. Positions are
    std::size_t values; std::string::npos is written -1. */
module Utils {
  import opened Ordering

  /** A value that may be missing. */
  datatype Option<T> = None | Some(value: T)

  /** std::size_t arithmetic wraps modulo 2^64. */
  const SIZE_T_MOD: int := 0x1_0000_0000_0000_0000

  function SizeT(x: int): (r: nat)
    ensures r < SIZE_T_MOD
    ensures 0 <= x < SIZE_T_MOD ==> r == x
  {
    x % SIZE_T_MOD
  }

  // ---------------------------------------------------------------------
  // Paths

  /** get_full_path: the directory, a '/', then the file name. */
  function GetFullPath(directory: string, filename: string): (r: string)
    ensures |r| == |directory| + 1 + |filename|
    ensures r[..|directory|] == directory && r[|directory|] == '/'
    ensures r[|directory| + 1..] == filename
  {
    directory + "/" + filename
  }

  predicate IsSeparator(c: char) {
    c == '/' || c == '\\'
  }

  /** find_last_of("/\\"): the index of the last separator, -1 if none. */
  function LastSeparator(s: string): (i: int)
    ensures -1 <= i < |s|
    ensures i >= 0 ==> IsSeparator(s[i])
    ensures forall j :: i < j < |s| ==> !IsSeparator(s[j])
  {
    if |s| == 0 then -1
    else if IsSeparator(s[|s| - 1]) then |s| - 1
    else LastSeparator(s[..|s| - 1])
  }

  /** get_filename_only: what follows the last '/' or '\\'; the whole string
      when there is neither (npos + 1 wraps to 0). */
  function GetFilenameOnly(filename: string): (r: string)
    ensures |r| <= |filename| && r == filename[|filename| - |r|..]
    ensures forall j :: 0 <= j < |r| ==> !IsSeparator(r[j])
    ensures |r| < |filename| ==> IsSeparator(filename[|filename| - |r| - 1])
  {
    filename[LastSeparator(filename) + 1..]
  }

  /** A file name without separators survives a trip through a full path. */
  lemma FilenameOfFullPath(directory: string, filename: string)
    requires forall j :: 0 <= j < |filename| ==> !IsSeparator(filename[j])
    ensures GetFilenameOnly(GetFullPath(directory, filename)) == filename
  {
  }

  // ---------------------------------------------------------------------
  // Searching

  /** std::wstring::find(c, from). */
  function FindChar(s: string, c: char, from: nat): (r: int)
    ensures r == -1 || (from <= r < |s| && s[r] == c)
    ensures forall j :: from <= j < (if r == -1 then |s| else r) ==> s[j] != c
    decreases |s| - from
  {
    if from >= |s| then -1
    else if s[from] == c then from
    else FindChar(s, c, from + 1)
  }

  /** sub occurs in w at position p. */
  predicate MatchAt(w: string, sub: string, p: nat) {
    p + |sub| <= |w| && w[p..p + |sub|] == sub
  }

  /** std::wstring::find(sub, from): the first occurrence at or after from. */
  function Find(w: string, sub: string, from: nat): (r: int)
    ensures r == -1 || (from <= r && MatchAt(w, sub, r))
    ensures forall p :: from <= p && (r == -1 || p < r) ==> !MatchAt(w, sub, p)
    decreases |w| + 1 - from
  {
    if from + |sub| > |w| then -1
    else if w[from..from + |sub|] == sub then from
    else Find(w, sub, from + 1)
  }

  ghost predicate Increasing(s: seq<nat>) {
    forall i, j :: 0 <= i < j < |s| ==> s[i] < s[j]
  }

  lemma IncreasingAppend(s: seq<nat>, x: nat)
    requires Increasing(s) && forall k :: k in s ==> k < x
    ensures Increasing(s + [x])
  {
    forall i, j | 0 <= i < j < |s| + 1 ensures (s + [x])[i] < (s + [x])[j] {
      assert (s + [x])[i] == s[i];
      if j == |s| {
        assert s[i] in s;
      }
    }
  }

  /** find_all: every position where wsubstr occurs, overlapping occurrences
      included, in increasing order. */
  method FindAll(wstr: string, wsubstr: string) returns (indexes: seq<nat>)
    ensures Increasing(indexes)
    ensures forall p: nat :: p in indexes <==> MatchAt(wstr, wsubstr, p)
  {
    indexes := [];
    var index: nat := 0;
    var found := Find(wstr, wsubstr, index);
    while found != -1
      invariant index <= |wstr| + 1
      invariant found == Find(wstr, wsubstr, index)
      invariant Increasing(indexes)
      invariant forall k :: k in indexes ==> k < index
      invariant forall p: nat :: p < index ==> (p in indexes <==> MatchAt(wstr, wsubstr, p))
      decreases |wstr| + 1 - index
    {
      IncreasingAppend(indexes, found);
      indexes := indexes + [found];
      index := found + 1;
      found := Find(wstr, wsubstr, index);
    }
  }

  /** get_all_occurences: every position of sign, in increasing order. */
  method GetAllOccurences(wstr: string, sign: char) returns (positions: seq<nat>)
    ensures Increasing(positions)
    ensures forall p: nat :: p in positions <==> p < |wstr| && wstr[p] == sign
  {
    positions := [];
    var pos := FindChar(wstr, sign, 0);
    while pos != -1
      invariant -1 <= pos < |wstr|
      invariant Increasing(positions)
      invariant pos != -1 ==> forall k :: k in positions ==> k < pos
      invariant pos == -1 ==> forall p: nat :: p < |wstr| && wstr[p] == sign ==> p in positions
      invariant pos != -1 ==> forall p: nat :: p < pos ==> (p in positions <==> wstr[p] == sign)
      invariant pos != -1 ==> wstr[pos] == sign
      invariant forall k :: k in positions ==> k < |wstr| && wstr[k] == sign
      decreases if pos == -1 then 0 else |wstr| + 1 - pos
    {
      IncreasingAppend(positions, pos);
      positions := positions + [pos];
      pos := FindChar(wstr, sign, pos + 1);
    }
  }

  /** get_substr: wstr.substr(begin, end - begin + 1) with size_t
      arithmetic; substr clamps the count to the end of the string and
      throws std::out_of_range when begin is past the end. */
  function GetSubstr(wstr: string, beginIndex: nat, endIndex: nat): (r: string)
    requires beginIndex <= |wstr|
    ensures var count := SizeT(endIndex - beginIndex + 1);
      |r| == if beginIndex + count <= |wstr| then count else |wstr| - beginIndex
    ensures r == wstr[beginIndex..beginIndex + |r|]
  {
    var count := SizeT(endIndex - beginIndex + 1);
    wstr[beginIndex..if beginIndex + count <= |wstr| then beginIndex + count else |wstr|]
  }

  /** Within the string, get_substr is the inclusive slice [begin, end]. */
  lemma GetSubstrInclusive(wstr: string, beginIndex: nat, endIndex: int)
    requires |wstr| < SIZE_T_MOD
    requires beginIndex <= endIndex + 1 <= |wstr|
    ensures GetSubstr(wstr, beginIndex, SizeT(endIndex)) == wstr[beginIndex..endIndex + 1]
  {
    if endIndex == -1 {
      assert SizeT(endIndex) == SIZE_T_MOD - 1;
      assert SizeT(SIZE_T_MOD - 1 - beginIndex + 1) == 0;
    }
  }

  /** replace_with: regex_replace with a pattern that is a literal string;
      matches are replaced left to right without overlapping. */
  function ReplaceWith(wstr: string, pattern: string, replacement: string): (r: string)
    requires |pattern| > 0
    ensures |replacement| == |pattern| ==> |r| == |wstr|
    decreases |wstr|
  {
    if |wstr| < |pattern| then wstr
    else if wstr[..|pattern|] == pattern then
      replacement + ReplaceWith(wstr[|pattern|..], pattern, replacement)
    else
      [wstr[0]] + ReplaceWith(wstr[1..], pattern, replacement)
  }

  /** A text without a match is left as it is. */
  lemma ReplaceWithoutMatch(wstr: string, pattern: string, replacement: string)
    requires |pattern| > 0
    requires forall p: nat :: !MatchAt(wstr, pattern, p)
    ensures ReplaceWith(wstr, pattern, replacement) == wstr
  {
    ReplaceKeepsPrefix(wstr, pattern, replacement, |wstr|);
    assert wstr[|wstr|..] == [];
    assert wstr[..|wstr|] == wstr;
  }

  /** The scan of replace_with, left to right: a stretch without a match
      start is copied as it is. */
  lemma {:induction false} ReplaceKeepsPrefix(wstr: string, pattern: string, replacement: string, k: nat)
    requires |pattern| > 0 && k <= |wstr|
    requires forall i: nat :: i < k ==> !MatchAt(wstr, pattern, i)
    ensures ReplaceWith(wstr, pattern, replacement) == wstr[..k] + ReplaceWith(wstr[k..], pattern, replacement)
    decreases k
  {
    if k == 0 {
      assert wstr[k..] == wstr;
    } else if |wstr| < |pattern| {
      assert wstr == wstr[..k] + wstr[k..];
    } else {
      assert !MatchAt(wstr, pattern, 0);
      assert wstr[0..|pattern|] == wstr[..|pattern|];
      NoMatchInTail(wstr, pattern, k);
      ReplaceKeepsPrefix(wstr[1..], pattern, replacement, k - 1);
      assert wstr[1..][..k - 1] == wstr[1..k];
      assert wstr[1..][k - 1..] == wstr[k..];
      assert [wstr[0]] + wstr[1..k] == wstr[..k];
    }
  }

  /** Match starts after the first character, seen from the tail. */
  lemma NoMatchInTail(wstr: string, pattern: string, k: nat)
    requires 0 < k <= |wstr|
    requires forall i: nat :: i < k ==> !MatchAt(wstr, pattern, i)
    ensures forall i: nat :: i < k - 1 ==> !MatchAt(wstr[1..], pattern, i)
  {
    forall i: nat | i < k - 1
      ensures !MatchAt(wstr[1..], pattern, i)
    {
      if i + 1 + |pattern| <= |wstr| {
        assert wstr[1..][i..i + |pattern|] == wstr[i + 1..i + 1 + |pattern|];
        assert !MatchAt(wstr, pattern, i + 1);
      }
    }
  }

  /** The scan of replace_with at a match: the replacement, then the rest
      scanned after the whole match, so matches never overlap. */
  lemma ReplaceAtMatch(wstr: string, pattern: string, replacement: string)
    requires |pattern| > 0 && MatchAt(wstr, pattern, 0)
    ensures ReplaceWith(wstr, pattern, replacement) == replacement + ReplaceWith(wstr[|pattern|..], pattern, replacement)
  {
    assert wstr[0..|pattern|] == wstr[..|pattern|];
  }

  /** A replacement that is not empty and shares no character with the
      pattern leaves no match behind: no new one forms across a seam. */
  lemma {:induction false} ReplaceLeavesNoMatch(wstr: string, pattern: string, replacement: string)
    requires |pattern| > 0 && |replacement| > 0
    requires forall c :: c in replacement ==> c !in pattern
    ensures forall q: nat :: !MatchAt(ReplaceWith(wstr, pattern, replacement), pattern, q)
    decreases |wstr|
  {
    var r := ReplaceWith(wstr, pattern, replacement);
    if |wstr| < |pattern| {
      assert r == wstr;
    } else if wstr[..|pattern|] == pattern {
      var rest := ReplaceWith(wstr[|pattern|..], pattern, replacement);
      ReplaceLeavesNoMatch(wstr[|pattern|..], pattern, replacement);
      assert r == replacement + rest;
      forall q: nat
        ensures !MatchAt(r, pattern, q)
      {
        if q < |replacement| {
          if q + |pattern| <= |r| {
            assert r[q] == replacement[q] && replacement[q] in replacement;
            assert r[q..q + |pattern|][0] == r[q] != pattern[0];
          }
        } else if q + |pattern| <= |r| {
          assert r[q..q + |pattern|] == rest[q - |replacement|..q - |replacement| + |pattern|];
          assert !MatchAt(rest, pattern, q - |replacement|);
        }
      }
    } else {
      var rest := ReplaceWith(wstr[1..], pattern, replacement);
      ReplaceLeavesNoMatch(wstr[1..], pattern, replacement);
      assert r == [wstr[0]] + rest;
      forall q: nat
        ensures !MatchAt(r, pattern, q)
      {
        if q == 0 {
          NoMatchAtStart(wstr, pattern, replacement);
        } else if q + |pattern| <= |r| {
          assert r[q..q + |pattern|] == rest[q - 1..q - 1 + |pattern|];
          assert !MatchAt(rest, pattern, q - 1);
        }
      }
    }
  }

  /** Where the text does not start with a match, neither does the result. */
  lemma NoMatchAtStart(wstr: string, pattern: string, replacement: string)
    requires |pattern| > 0 && |replacement| > 0
    requires forall c :: c in replacement ==> c !in pattern
    requires |wstr| >= |pattern| && wstr[..|pattern|] != pattern
    ensures !MatchAt(ReplaceWith(wstr, pattern, replacement), pattern, 0)
  {
    assert wstr[0..|pattern|] == wstr[..|pattern|];
    var i := 1;
    while i < |pattern| && !MatchAt(wstr, pattern, i)
      invariant 1 <= i <= |pattern|
      invariant forall j: nat :: j < i ==> !MatchAt(wstr, pattern, j)
    {
      i := i + 1;
    }
    ReplaceKeepsPrefix(wstr, pattern, replacement, i);
    var r := ReplaceWith(wstr, pattern, replacement);
    var tail := ReplaceWith(wstr[i..], pattern, replacement);
    assert r == wstr[..i] + tail;
    if i == |pattern| {
      if |pattern| <= |r| {
        assert r[..|pattern|] == wstr[..|pattern|];
        assert r[0..|pattern|] == r[..|pattern|];
      }
    } else {
      assert wstr[i..][0..|pattern|] == wstr[i..i + |pattern|];
      ReplaceAtMatch(wstr[i..], pattern, replacement);
      assert r[i] == replacement[0] && replacement[0] in replacement && pattern[i] in pattern;
      if |pattern| <= |r| {
        assert r[0..|pattern|][i] == r[i] != pattern[i];
      }
    }
  }

  /** Replacing one character by another maps the string character-wise. */
  lemma {:induction false} ReplaceCharWise(wstr: string, c: char, d: char)
    ensures |ReplaceWith(wstr, [c], [d])| == |wstr|
    ensures forall i :: 0 <= i < |wstr| ==>
      ReplaceWith(wstr, [c], [d])[i] == if wstr[i] == c then d else wstr[i]
    decreases |wstr|
  {
    if |wstr| > 0 {
      ReplaceCharWise(wstr[1..], c, d);
      assert wstr[..1] == [wstr[0]];
      var r := ReplaceWith(wstr, [c], [d]);
      var rest := ReplaceWith(wstr[1..], [c], [d]);
      assert r == [if wstr[0] == c then d else wstr[0]] + rest;
    }
  }

  // ---------------------------------------------------------------------
  // Containers

  /** get_index_by_value: the first index of val, -1 when absent. */
  function GetIndexByValue<T(==)>(vals: seq<T>, val: T): (r: int)
    ensures -1 <= r < |vals|
    ensures r == -1 <==> val !in vals
    ensures r >= 0 ==> vals[r] == val && val !in vals[..r]
  {
    if |vals| == 0 then -1
    else if vals[0] == val then 0
    else
      var i := GetIndexByValue(vals[1..], val);
      assert vals == [vals[0]] + vals[1..];
      if i == -1 then -1 else i + 1
  }

  /** The running maximum of get_pair_by_max_value over the keys still to
      visit: a key replaces the best one only with a strictly larger count. */
  function MaxPairFrom(keys: seq<string>, counter: map<string, int>, best: string, max: int): (string, int)
    requires forall k :: k in keys ==> k in counter
  {
    if keys == [] then (best, max)
    else if counter[keys[0]] > max then MaxPairFrom(keys[1..], counter, keys[0], counter[keys[0]])
    else MaxPairFrom(keys[1..], counter, best, max)
  }

  /** What get_pair_by_max_value returns for a std::map<std::string, int>. */
  function MaxPair(counter: map<string, int>): (string, int) {
    MaxPairFrom(StrKeys(counter), counter, "", 0)
  }

  /** (best, max) is the answer for the keys visited so far. */
  ghost predicate MaxPairSoFar(visited: seq<string>, counter: map<string, int>, best: string, max: int)
    requires forall k :: k in visited ==> k in counter
  {
    && max >= 0
    && (forall k :: k in visited ==> counter[k] <= max)
    && (max == 0 ==> best == "")
    && (max > 0 ==> best in visited && counter[best] == max)
    && (max > 0 ==> forall k :: k in visited && StrLess(k, best) ==> counter[k] < max)
  }

  lemma {:induction false} MaxPairFromCorrect(keys: seq<string>, counter: map<string, int>, i: nat, best: string, max: int)
    requires StrictlySorted(keys, StrLess)
    requires forall k :: k in keys ==> k in counter
    requires i <= |keys|
    requires MaxPairSoFar(keys[..i], counter, best, max)
    ensures MaxPairSoFar(keys, counter, MaxPairFrom(keys[i..], counter, best, max).0, MaxPairFrom(keys[i..], counter, best, max).1)
    decreases |keys| - i
  {
    if i == |keys| {
      assert keys[..i] == keys;
    } else {
      var x := keys[i];
      assert keys[i..][1..] == keys[i + 1..];
      assert keys[..i + 1] == keys[..i] + [x];
      SortedPrefixBelow(keys, i);
      MaxPairSoFarStep(keys[..i], x, counter, best, max);
      if counter[x] > max {
        MaxPairFromCorrect(keys, counter, i + 1, x, counter[x]);
      } else {
        MaxPairFromCorrect(keys, counter, i + 1, best, max);
      }
    }
  }

  /** In a strictly sorted list every key before position i is less than
      the key at i. */
  lemma SortedPrefixBelow(keys: seq<string>, i: nat)
    requires StrictlySorted(keys, StrLess) && i < |keys|
    ensures forall k :: k in keys[..i] ==> StrLess(k, keys[i])
  {
    forall k | k in keys[..i] ensures StrLess(k, keys[i]) {
      var j :| 0 <= j < i && keys[j] == k;
    }
  }

  /** Visiting a key greater than all visited ones keeps the answer right:
      it takes over only with a strictly greater count. */
  lemma MaxPairSoFarStep(visited: seq<string>, x: string, counter: map<string, int>, best: string, max: int)
    requires forall k :: k in visited ==> k in counter
    requires x in counter && forall k :: k in visited ==> StrLess(k, x)
    requires MaxPairSoFar(visited, counter, best, max)
    ensures counter[x] > max ==> MaxPairSoFar(visited + [x], counter, x, counter[x])
    ensures counter[x] <= max ==> MaxPairSoFar(visited + [x], counter, best, max)
  {
    StrLessStrictTotal();
  }

  /** get_pair_by_max_value's promise: the first key in map order whose count
      is maximal, when some count is positive; otherwise ("", 0). */
  lemma MaxPairCorrect(counter: map<string, int>)
    ensures MaxPair(counter).1 >= 0
    ensures forall k :: k in counter ==> counter[k] <= MaxPair(counter).1
    ensures MaxPair(counter).1 > 0 <==> exists k :: k in counter && counter[k] > 0
    ensures MaxPair(counter).1 == 0 ==> MaxPair(counter).0 == ""
    ensures MaxPair(counter).1 > 0 ==>
      MaxPair(counter).0 in counter && counter[MaxPair(counter).0] == MaxPair(counter).1
    ensures forall k :: k in counter && StrLess(k, MaxPair(counter).0) ==> counter[k] < MaxPair(counter).1
  {
    var keys := StrKeys(counter);
    assert keys[..0] == [] && keys[0..] == keys;
    MaxPairFromCorrect(keys, counter, 0, "", 0);
  }

  /** get_pair_by_max_value on a std::map<std::string, int>. */
  method GetPairByMaxValue(counter: map<string, int>) returns (bestValue: string, maxCount: int)
    ensures (bestValue, maxCount) == MaxPair(counter)
    ensures maxCount >= 0 && forall k :: k in counter ==> counter[k] <= maxCount
    ensures maxCount > 0 <==> exists k :: k in counter && counter[k] > 0
    ensures maxCount > 0 ==> bestValue in counter && counter[bestValue] == maxCount
    ensures maxCount == 0 ==> bestValue == ""
    ensures forall k :: k in counter && StrLess(k, bestValue) ==> counter[k] < maxCount
  {
    var keys := StrKeys(counter);
    bestValue, maxCount := "", 0;
    var i := 0;
    while i < |keys|
      invariant 0 <= i <= |keys|
      invariant MaxPairFrom(keys[i..], counter, bestValue, maxCount) == MaxPair(counter)
    {
      assert keys[i..][1..] == keys[i + 1..];
      var val := keys[i];
      var count := counter[val];
      if count > maxCount {
        bestValue := val;
        maxCount := count;
      }
      i := i + 1;
    }
    assert keys[i..] == [];
    MaxPairCorrect(counter);
  }

  /** std::map<std::string, int>::operator[] read: 0 for an absent key. */
  function LookupCount(m: map<string, int>, k: string): (r: int)
    ensures k in m ==> r == m[k]
    ensures k !in m ==> r == 0
  {
    if k in m then m[k] else 0
  }

  /** counter[key]++ on a std::map<K, int>: an absent key starts at 0. */
  function Bump(counter: map<string, int>, category: string): map<string, int> {
    counter[category := LookupCount(counter, category) + 1]
  }

  /** std::map<std::string, std::vector<T>>::operator[] read: an absent
      key reads as an empty vector. */
  function Lookup<T>(m: map<string, seq<T>>, k: string): (r: seq<T>)
    ensures k in m ==> r == m[k]
    ensures k !in m ==> r == []
  {
    if k in m then m[k] else []
  }

  /** The search loops of the text pipeline: walk the vector and stop at the
      first element equal to x. */
  method Contains<T(==)>(xs: seq<T>, x: T) returns (found: bool)
    ensures found <==> x in xs
  {
    found := false;
    var i := 0;
    while i < |xs|
      invariant 0 <= i <= |xs|
      invariant x !in xs[..i]
    {
      if xs[i] == x {
        found := true;
        break;
      }
      assert xs[..i + 1] == xs[..i] + [xs[i]];
      i := i + 1;
    }
    assert found || xs[..i] == xs;
  }

  /** remove_if_exists: erase the first occurrence of elem, if any. */
  function RemoveIfExists<T(==)>(vec: seq<T>, elem: T): (r: (bool, seq<T>))
    ensures r.0 <==> elem in vec
    ensures !r.0 ==> r.1 == vec
    ensures r.0 ==> var i := GetIndexByValue(vec, elem);
      r.1 == vec[..i] + vec[i + 1..] && multiset(r.1) == multiset(vec) - multiset{elem}
  {
    var i := GetIndexByValue(vec, elem);
    if i == -1 then (false, vec)
    else
      assert vec == vec[..i] + [vec[i]] + vec[i + 1..];
      (true, vec[..i] + vec[i + 1..])
  }

  /** remove_map_elem_if_exists: erase the key; report whether it was there. */
  function RemoveMapElemIfExists<K(!new), V>(m: map<K, V>, key: K): (r: (bool, map<K, V>))
    ensures r.0 <==> key in m
    ensures key !in r.1
    ensures forall k :: k != key ==> (k in r.1 <==> k in m) && (k in r.1 ==> r.1[k] == m[k])
  {
    if key in m then (true, m - {key}) else (false, m)
  }
}
