/** The category classifier of include/category_classifier.h. Each
    language has a keyword table read from a text file: a line with one word
    opens a category, every other line lists (stemmed) keywords of the
    category opened last. A heading is classified by counting, per category,
    the tokens that start with one of its keywords. */
module Categories {
  import opened Ordering
  import opened Utils
  import opened NlpUtils

  /** keywords[lang_code] read: an empty table for an absent language. */
  function LookupTable(m: map<string, map<string, string>>, langCode: string): (r: map<string, string>)
    ensures langCode in m ==> r == m[langCode]
    ensures langCode !in m ==> r == map[]
  {
    if langCode in m then m[langCode] else map[]
  }

  // ---------------------------------------------------------------------
  // read_keywords

  /** category_now when line n is read: the word of the last one-word line
      before it, or "" when there is none. */
  function CurrentCategory(lines: seq<string>, n: nat): string
    requires n <= |lines|
  {
    if n == 0 then ""
    else
      var tokens := Tokens(lines[n - 1], ' ');
      if |tokens| == 1 then tokens[0] else CurrentCategory(lines, n - 1)
  }

  /** The (keyword, category) assignments line k makes, in order: none for
      a one-word line, otherwise each stemmed word to the current category. */
  function LinePairs(lines: seq<string>, k: nat, langCode: string, stem: (string, string) -> string): (ps: seq<(string, string)>)
    requires k < |lines|
  {
    var tokens := Tokens(lines[k], ' ');
    if |tokens| == 1 then []
    else
      var words := MakeStemming(langCode, tokens, stem);
      seq(|words|, i requires 0 <= i < |words| => (words[i], CurrentCategory(lines, k)))
  }

  /** The assignments of the first n lines. */
  function KeywordPairs(lines: seq<string>, n: nat, langCode: string, stem: (string, string) -> string): seq<(string, string)>
    requires n <= |lines|
  {
    if n == 0 then [] else KeywordPairs(lines, n - 1, langCode, stem) + LinePairs(lines, n - 1, langCode, stem)
  }

  /** The assignments of a whole keyword file, read line by line. */
  function FilePairs(rawData: string, langCode: string, stem: (string, string) -> string): seq<(string, string)> {
    var lines := Lines(rawData);
    KeywordPairs(lines, |lines|, langCode, stem)
  }

  /** One more line read: what it adds and the category after it. */
  lemma LineStep(lines: seq<string>, k: nat, langCode: string, stem: (string, string) -> string)
    requires k < |lines|
    ensures KeywordPairs(lines, k + 1, langCode, stem) == KeywordPairs(lines, k, langCode, stem) + LinePairs(lines, k, langCode, stem)
    ensures var tokens := Tokens(lines[k], ' ');
      && (|tokens| == 1 ==> LinePairs(lines, k, langCode, stem) == [] && CurrentCategory(lines, k + 1) == tokens[0])
      && (|tokens| != 1 ==> CurrentCategory(lines, k + 1) == CurrentCategory(lines, k))
      && (|tokens| != 1 ==> var words := MakeStemming(langCode, tokens, stem);
            |LinePairs(lines, k, langCode, stem)| == |words|
            && forall j :: 0 <= j < |words| ==> LinePairs(lines, k, langCode, stem)[j] == (words[j], CurrentCategory(lines, k)))
  {
  }

  /** A std::map filled by operator[] assignments in this order. */
  function PairsToMap(ps: seq<(string, string)>): map<string, string> {
    if ps == [] then map[] else PairsToMap(ps[..|ps| - 1])[ps[|ps| - 1].0 := ps[|ps| - 1].1]
  }

  /** The categories the assignments mention. */
  function CategoriesOf(ps: seq<(string, string)>): set<string> {
    set i | 0 <= i < |ps| :: ps[i].1
  }

  lemma CategoriesOfAppend(ps: seq<(string, string)>, p: (string, string))
    ensures CategoriesOf(ps + [p]) == CategoriesOf(ps) + {p.1}
  {
    assert (ps + [p])[|ps|] == p;
    forall c | c in CategoriesOf(ps) ensures c in CategoriesOf(ps + [p]) {
      var i :| 0 <= i < |ps| && ps[i].1 == c;
      assert (ps + [p])[i] == ps[i];
    }
  }

  lemma PairsToMapAppend(ps: seq<(string, string)>, p: (string, string))
    ensures PairsToMap(ps + [p]) == PairsToMap(ps)[p.0 := p.1]
  {
    assert (ps + [p])[..|ps|] == ps;
  }

  /** The table holds exactly the assigned keywords. */
  lemma {:induction false} PairsToMapKeys(ps: seq<(string, string)>)
    ensures forall k :: k in PairsToMap(ps) <==> exists i :: 0 <= i < |ps| && ps[i].0 == k
  {
    if ps != [] {
      var init := ps[..|ps| - 1];
      PairsToMapKeys(init);
      var last := ps[|ps| - 1];
      assert PairsToMap(ps) == PairsToMap(init)[last.0 := last.1];
      forall k | k in PairsToMap(ps) ensures exists i :: 0 <= i < |ps| && ps[i].0 == k {
        if k != last.0 {
          var i :| 0 <= i < |init| && init[i].0 == k;
          assert ps[i] == init[i];
        }
      }
      forall k | exists i :: 0 <= i < |ps| && ps[i].0 == k ensures k in PairsToMap(ps) {
        var i :| 0 <= i < |ps| && ps[i].0 == k;
        if i < |ps| - 1 {
          assert init[i] == ps[i];
        }
      }
    }
  }

  /** A keyword reads as the category of its last assignment. */
  lemma PairsToMapLastWins(ps: seq<(string, string)>)
    ensures forall i :: 0 <= i < |ps| && (forall j :: i < j < |ps| ==> ps[j].0 != ps[i].0) ==>
      ps[i].0 in PairsToMap(ps) && PairsToMap(ps)[ps[i].0] == ps[i].1
  {
    forall i | 0 <= i < |ps| && (forall j :: i < j < |ps| ==> ps[j].0 != ps[i].0)
      ensures ps[i].0 in PairsToMap(ps) && PairsToMap(ps)[ps[i].0] == ps[i].1
    {
      LastAssignment(ps, i);
    }
  }

  /** Assignment i is the last one of its keyword, so it is what the table
      holds. */
  lemma {:induction false} LastAssignment(ps: seq<(string, string)>, i: nat)
    requires i < |ps| && forall j :: i < j < |ps| ==> ps[j].0 != ps[i].0
    ensures ps[i].0 in PairsToMap(ps) && PairsToMap(ps)[ps[i].0] == ps[i].1
    decreases |ps|
  {
    var init := ps[..|ps| - 1];
    if i < |ps| - 1 {
      assert ps[i] == init[i];
      assert forall j :: i < j < |init| ==> init[j] == ps[j];
      LastAssignment(init, i);
    }
  }

  /** Every keyword's category is one the assignments mention. */
  lemma {:induction false} PairsToMapValues(ps: seq<(string, string)>)
    ensures forall k :: k in PairsToMap(ps) ==> PairsToMap(ps)[k] in CategoriesOf(ps)
  {
    if ps != [] {
      var init := ps[..|ps| - 1];
      PairsToMapValues(init);
      assert ps == init + [ps[|ps| - 1]];
      CategoriesOfAppend(init, ps[|ps| - 1]);
    }
  }

  /** A one-word line assigns no keyword and names the category of the
      lines after it. */
  lemma HeaderLine(lines: seq<string>, k: nat, langCode: string, stem: (string, string) -> string)
    requires k < |lines| && |Tokens(lines[k], ' ')| == 1
    ensures LinePairs(lines, k, langCode, stem) == []
    ensures CurrentCategory(lines, k + 1) == Tokens(lines[k], ' ')[0]
  {
  }

  // ---------------------------------------------------------------------
  // classify

  /** The script filter of classify: only Latin tokens for en, only Cyrillic
      ones for ru, every token for another language. */
  predicate Eligible(t: string, langCode: string) {
    !(langCode == "en" && TypeOf(t) != Latin) && !(langCode == "ru" && TypeOf(t) != Cyrillic)
  }

  /** min_token_share of classify: the least keyword length a token of
      this length accepts. */
  function MinTokenShare(tokenLen: int, minCharShare: real): real {
    tokenLen as real * minCharShare
  }

  /** The keyword is long enough for the token and is a prefix of it. */
  predicate KeywordMatches(t: string, k: string, share: real) {
    MinTokenShare(|t|, share) <= |k| as real && k <= t
  }

  /** The index of the first matching keyword, -1 if none matches. */
  function FirstMatch(keys: seq<string>, t: string, share: real): (r: int)
    ensures -1 <= r < |keys|
    ensures r >= 0 ==> KeywordMatches(t, keys[r], share)
    ensures forall j :: 0 <= j < |keys| && (r == -1 || j < r) ==> !KeywordMatches(t, keys[j], share)
  {
    if keys == [] then -1
    else if KeywordMatches(t, keys[0], share) then 0
    else
      var r := FirstMatch(keys[1..], t, share);
      if r == -1 then -1 else r + 1
  }

  /** The category a token counts for, if any: that of the first keyword,
      in the table's key order, that matches it. */
  function CategoryOf(t: string, langCode: string, table: map<string, string>, share: real): Option<string> {
    if !Eligible(t, langCode) then None
    else
      var keys := StrKeys(table);
      var r := FirstMatch(keys, t, share);
      if r == -1 then None else Some(table[keys[r]])
  }

  /** A token counts for a category exactly when it is in the language's
      script and some keyword matches it. */
  lemma CategoryOfMeaning(t: string, langCode: string, table: map<string, string>, share: real)
    ensures CategoryOf(t, langCode, table, share).Some? <==>
      Eligible(t, langCode) && exists k :: k in table && KeywordMatches(t, k, share)
  {
    var keys := StrKeys(table);
    if Eligible(t, langCode) && exists k :: k in table && KeywordMatches(t, k, share) {
      var k :| k in table && KeywordMatches(t, k, share);
      var j :| 0 <= j < |keys| && keys[j] == k;
    }
  }

  /** The category is that of the least matching keyword in the table's
      order. */
  lemma CategoryOfLeastKeyword(t: string, langCode: string, table: map<string, string>, share: real)
    requires CategoryOf(t, langCode, table, share).Some?
    ensures var k := StrKeys(table)[FirstMatch(StrKeys(table), t, share)];
      && k in table && KeywordMatches(t, k, share) && CategoryOf(t, langCode, table, share).value == table[k]
      && forall k' :: k' in table && StrLess(k', k) ==> !KeywordMatches(t, k', share)
  {
    var keys := StrKeys(table);
    var r := FirstMatch(keys, t, share);
    forall k' | k' in table && StrLess(k', keys[r]) ensures !KeywordMatches(t, k', share) {
      EarlierKeysMiss(keys, t, share, k');
    }
  }

  /** In a strictly sorted list, no key before the first match matches. */
  lemma EarlierKeysMiss(keys: seq<string>, t: string, share: real, k': string)
    requires StrictlySorted(keys, StrLess) && FirstMatch(keys, t, share) >= 0
    requires k' in keys && StrLess(k', keys[FirstMatch(keys, t, share)])
    ensures !KeywordMatches(t, k', share)
  {
    var j' :| 0 <= j' < |keys| && keys[j'] == k';
    SortedIndexOrder(keys, j', FirstMatch(keys, t, share));
  }

  /** In a strictly sorted key list a smaller key comes earlier. */
  lemma SortedIndexOrder(keys: seq<string>, i: nat, j: nat)
    requires StrictlySorted(keys, StrLess)
    requires i < |keys| && j < |keys| && StrLess(keys[i], keys[j])
    ensures i < j
  {
    if i == j {
      StrLessIrreflexive(keys[i]);
    } else if i > j {
      StrLessTransitive(keys[i], keys[j], keys[i]);
      StrLessIrreflexive(keys[i]);
    }
  }

  /** The counter after the token loop of classify, started from counter. */
  function Tally(tokens: seq<string>, langCode: string, table: map<string, string>, share: real, counter: map<string, int>): map<string, int> {
    if tokens == [] then counter
    else
      var before := Tally(tokens[..|tokens| - 1], langCode, table, share, counter);
      match CategoryOf(tokens[|tokens| - 1], langCode, table, share)
      case None => before
      case Some(c) => Bump(before, c)
  }

  /** How many tokens count for category c. */
  function CountCategory(tokens: seq<string>, langCode: string, table: map<string, string>, share: real, c: string): (n: nat)
    ensures n <= |tokens|
  {
    if tokens == [] then 0
    else
      CountCategory(tokens[..|tokens| - 1], langCode, table, share, c)
      + (if CategoryOf(tokens[|tokens| - 1], langCode, table, share) == Some(c) then 1 else 0)
  }

  function InitCounter(categories: set<string>): map<string, int> {
    map c | c in categories :: 0
  }

  lemma TallyStep(tokens: seq<string>, i: nat, langCode: string, table: map<string, string>, share: real, counter: map<string, int>)
    requires i < |tokens|
    ensures Tally(tokens[..i + 1], langCode, table, share, counter) ==
      match CategoryOf(tokens[i], langCode, table, share)
      case None => Tally(tokens[..i], langCode, table, share, counter)
      case Some(c) => Bump(Tally(tokens[..i], langCode, table, share, counter), c)
  {
    assert tokens[..i + 1][..i] == tokens[..i];
  }

  /** A counter with exactly the categories as keys, all at zero. */
  lemma ZeroCounterIsInit(categories: set<string>, counter: map<string, int>)
    requires forall x :: x in counter <==> x in categories
    requires forall x :: x in counter ==> counter[x] == 0
    ensures counter == InitCounter(categories)
  {
  }

  /** Each category's count is its start value plus the tokens that count
      for it. */
  lemma {:induction false} TallyCount(tokens: seq<string>, langCode: string, table: map<string, string>, share: real, counter: map<string, int>, c: string)
    ensures LookupCount(Tally(tokens, langCode, table, share, counter), c)
      == LookupCount(counter, c) + CountCategory(tokens, langCode, table, share, c)
  {
    if tokens != [] {
      TallyCount(tokens[..|tokens| - 1], langCode, table, share, counter, c);
    }
  }

  /** The counter gains no key besides the categories of the table. */
  lemma {:induction false} TallyKeys(tokens: seq<string>, langCode: string, table: map<string, string>, share: real, counter: map<string, int>)
    ensures forall k :: k in counter ==> k in Tally(tokens, langCode, table, share, counter)
    ensures forall k :: k in Tally(tokens, langCode, table, share, counter) ==> k in counter || k in table.Values
  {
    if tokens != [] {
      TallyKeys(tokens[..|tokens| - 1], langCode, table, share, counter);
    }
  }

  class CategoryClassifier {
    var categories: set<string>
    var keywords: map<string, map<string, string>>
    var minCharShare: real
    var minTokenCount: map<string, int>
    /** The Snowball stemmer make_stemming applies, as a parameter. */
    const stem: (string, string) -> string

    /** Every keyword maps to a known category. */
    ghost predicate Valid()
      reads this
    {
      forall lang, k :: lang in keywords && k in keywords[lang] ==> keywords[lang][k] in categories
    }

    /** The file contents stand for the files the constructor reads. */
    constructor (enData: string, ruData: string, minCharShare: real, minTokenCount: map<string, int>, stem: (string, string) -> string)
      ensures this.stem == stem
      ensures keywords == map["en" := PairsToMap(FilePairs(enData, "en", stem)), "ru" := PairsToMap(FilePairs(ruData, "ru", stem))]
      ensures categories == CategoriesOf(FilePairs(enData, "en", stem)) + CategoriesOf(FilePairs(ruData, "ru", stem))
      ensures this.minCharShare == minCharShare && this.minTokenCount == minTokenCount
      ensures Valid()
    {
      this.stem := stem;
      this.categories := {};
      this.keywords := map[];
      this.minCharShare := minCharShare;
      this.minTokenCount := minTokenCount;
      new;
      var en := ReadKeywords(enData, "en");
      keywords := keywords["en" := en];
      var ru := ReadKeywords(ruData, "ru");
      keywords := keywords["ru" := ru];
      PairsToMapValues(FilePairs(enData, "en", stem));
      PairsToMapValues(FilePairs(ruData, "ru", stem));
    }

    /** CategoryClassifier::read_keywords on the contents of a keyword file:
        the keyword table of the file, and its categories added to the set. */
    method ReadKeywords(rawData: string, langCode: string) returns (categoryByKeyword: map<string, string>)
      modifies this`categories
      ensures categoryByKeyword == PairsToMap(FilePairs(rawData, langCode, stem))
      ensures categories == old(categories) + CategoriesOf(FilePairs(rawData, langCode, stem))
    {
      var lines := Lines(rawData);
      categoryByKeyword := map[];
      var categoryNow := "";
      var k := 0;
      while k < |lines|
        invariant 0 <= k <= |lines|
        invariant categoryNow == CurrentCategory(lines, k)
        invariant categoryByKeyword == PairsToMap(KeywordPairs(lines, k, langCode, stem))
        invariant categories == old(categories) + CategoriesOf(KeywordPairs(lines, k, langCode, stem))
      {
        categoryNow, categoryByKeyword := ReadLine(lines, k, langCode, categoryNow, categoryByKeyword, old(categories));
        k := k + 1;
      }
    }

    /** One line of read_keywords: a one-word line opens a category, any
        other line assigns its stemmed words to the current one. */
    method ReadLine(lines: seq<string>, k: nat, langCode: string, categoryNow: string, table: map<string, string>, ghost before: set<string>)
      returns (categoryNow': string, table': map<string, string>)
      requires k < |lines| && categoryNow == CurrentCategory(lines, k)
      requires table == PairsToMap(KeywordPairs(lines, k, langCode, stem))
      requires categories == before + CategoriesOf(KeywordPairs(lines, k, langCode, stem))
      modifies this`categories
      ensures categoryNow' == CurrentCategory(lines, k + 1)
      ensures table' == PairsToMap(KeywordPairs(lines, k + 1, langCode, stem))
      ensures categories == before + CategoriesOf(KeywordPairs(lines, k + 1, langCode, stem))
    {
      var tokens := Tokenize(lines[k], ' ');
      LineStep(lines, k, langCode, stem);
      if |tokens| == 1 {
        categoryNow', table' := tokens[0], table;
        assert KeywordPairs(lines, k + 1, langCode, stem) == KeywordPairs(lines, k, langCode, stem);
      } else {
        tokens := MakeStemming(langCode, tokens, stem);
        categoryNow' := categoryNow;
        table' := AddKeywords(tokens, categoryNow, table,
          before, KeywordPairs(lines, k, langCode, stem), LinePairs(lines, k, langCode, stem));
      }
    }

    /** The inner loop of read_keywords: every word of a keyword line is
        assigned the current category, which joins the category set. */
    method AddKeywords(words: seq<string>, categoryNow: string, table: map<string, string>,
                       ghost before: set<string>, ghost done: seq<(string, string)>, ghost line: seq<(string, string)>)
      returns (categoryByKeyword: map<string, string>)
      requires table == PairsToMap(done) && categories == before + CategoriesOf(done)
      requires |line| == |words| && forall j :: 0 <= j < |words| ==> line[j] == (words[j], categoryNow)
      modifies this`categories
      ensures categoryByKeyword == PairsToMap(done + line)
      ensures categories == before + CategoriesOf(done + line)
    {
      categoryByKeyword := table;
      var j := 0;
      assert done + line[..j] == done;
      while j < |words|
        invariant 0 <= j <= |words|
        invariant categoryByKeyword == PairsToMap(done + line[..j])
        invariant categories == before + CategoriesOf(done + line[..j])
      {
        assert done + line[..j + 1] == (done + line[..j]) + [line[j]];
        PairsToMapAppend(done + line[..j], line[j]);
        CategoriesOfAppend(done + line[..j], line[j]);
        categories := categories + {categoryNow};
        categoryByKeyword := categoryByKeyword[words[j] := categoryNow];
        j := j + 1;
      }
      assert line[..j] == line;
    }

    /** The result classify promises: the most frequent category when its
        count exceeds the language's minimum, "other" otherwise. */
    ghost function ClassifySpec(tokens: seq<string>, langCode: string): string
      reads this
    {
      var counter := Tally(tokens, langCode, LookupTable(keywords, langCode), minCharShare, InitCounter(categories));
      var best := MaxPair(counter);
      if best.1 > LookupCount(minTokenCount, langCode) then best.0 else "other"
    }

    /** A counter with every category at zero (the first loop of classify). */
    static method ZeroCounter(categories: set<string>) returns (counter: map<string, int>)
      ensures counter == InitCounter(categories)
    {
      counter := map[];
      var rest := categories;
      while rest != {}
        invariant rest <= categories
        invariant counter == InitCounter(categories - rest)
        decreases |rest|
      {
        var c :| c in rest;
        counter := counter[c := 0];
        rest := rest - {c};
      }
      assert categories - rest == categories;
    }

    /** The keyword loop of classify: the first keyword, in key order, long
        enough for the token and a prefix of it. */
    static method MatchKeyword(token: string, table: map<string, string>, minCharShare: real) returns (isFound: bool, categoryFound: string)
      ensures var r := FirstMatch(StrKeys(table), token, minCharShare);
        && (isFound <==> r != -1)
        && (isFound ==> categoryFound == table[StrKeys(table)[r]])
    {
      isFound, categoryFound := MatchKeywordIn(StrKeys(table), token, table, minCharShare);
    }

    /** The same loop over the table's keys in iteration order. */
    static method MatchKeywordIn(keys: seq<string>, token: string, table: map<string, string>, minCharShare: real)
      returns (isFound: bool, categoryFound: string)
      requires forall l :: 0 <= l < |keys| ==> keys[l] in table
      ensures var r := FirstMatch(keys, token, minCharShare);
        && (isFound <==> r != -1)
        && (isFound ==> categoryFound == table[keys[r]])
    {
      var tokenLen := |token|;
      var minTokenShare := MinTokenShare(tokenLen, minCharShare);
      isFound := false;
      categoryFound := "other";
      var j := 0;
      while j < |keys|
        invariant 0 <= j <= |keys|
        invariant forall l :: 0 <= l < j ==> !KeywordMatches(token, keys[l], minCharShare)
      {
        if minTokenShare <= |keys[j]| as real {
          if keys[j] <= token {
            categoryFound := table[keys[j]];
            isFound := true;
            assert KeywordMatches(token, keys[j], minCharShare);
            assert FirstMatch(keys, token, minCharShare) == j;
            return;
          }
        }
        j := j + 1;
      }
    }

    /** The body of the token loop of classify: skip a token outside the
        language's script, otherwise count it for the category of its first
        matching keyword, if any. */
    static method CountToken(counter: map<string, int>, token: string, langCode: string, table: map<string, string>, minCharShare: real)
      returns (counter': map<string, int>)
      ensures counter' == match CategoryOf(token, langCode, table, minCharShare)
        case None => counter
        case Some(c) => Bump(counter, c)
    {
      counter' := counter;
      var tokenType := GetTokenType(token);
      if langCode == "en" && tokenType != Latin {
        return;
      } else if langCode == "ru" && tokenType != Cyrillic {
        return;
      }
      assert Eligible(token, langCode);
      var isFound, categoryFound := MatchKeyword(token, table, minCharShare);
      assert CategoryOf(token, langCode, table, minCharShare) == if isFound then Some(categoryFound) else None;
      if isFound {
        counter' := Bump(counter', categoryFound);
      }
    }

    /** CategoryClassifier::classify. */
    method Classify(tokens: seq<string>, langCode: string) returns (r: string)
      ensures r == ClassifySpec(tokens, langCode)
    {
      var counter := ZeroCounter(categories);
      var table := LookupTable(keywords, langCode);
      ghost var init := counter;
      var i := 0;
      while i < |tokens|
        invariant 0 <= i <= |tokens|
        invariant counter == Tally(tokens[..i], langCode, table, minCharShare, init)
      {
        TallyStep(tokens, i, langCode, table, minCharShare, init);
        counter := CountToken(counter, tokens[i], langCode, table, minCharShare);
        i := i + 1;
      }
      assert tokens[..i] == tokens;
      var categoryBest, categoryCount := GetPairByMaxValue(counter);
      if categoryCount > LookupCount(minTokenCount, langCode) {
        r := categoryBest;
      } else {
        r := "other";
      }
    }

    /** What classify answers: "other", or a category counted more often
        than the minimum and at least as often as any other, or, when the
        minimum is negative and no token counts, "". */
    lemma ClassifyMeaning(tokens: seq<string>, langCode: string)
      requires Valid()
      ensures var r := ClassifySpec(tokens, langCode);
        var table := LookupTable(keywords, langCode);
        var minimum := LookupCount(minTokenCount, langCode);
        r == "other" ||
        (r in categories
         && CountCategory(tokens, langCode, table, minCharShare, r) > minimum
         && forall c :: c in categories ==>
              CountCategory(tokens, langCode, table, minCharShare, c) <= CountCategory(tokens, langCode, table, minCharShare, r)) ||
        (r == "" && minimum < 0 && forall c :: c in categories ==> CountCategory(tokens, langCode, table, minCharShare, c) == 0)
    {
      var table := LookupTable(keywords, langCode);
      var counter := Tally(tokens, langCode, table, minCharShare, InitCounter(categories));
      CounterIsCounts(tokens, langCode);
      MaxPairCorrect(counter);
    }

    /** With Valid, the counter holds exactly the categories, each with the
        number of tokens that count for it. */
    lemma CounterIsCounts(tokens: seq<string>, langCode: string)
      requires Valid()
      ensures var table := LookupTable(keywords, langCode);
        var counter := Tally(tokens, langCode, table, minCharShare, InitCounter(categories));
        && (forall k :: k in counter <==> k in categories)
        && (forall k :: k in counter ==> counter[k] == CountCategory(tokens, langCode, table, minCharShare, k))
    {
      var table := LookupTable(keywords, langCode);
      var init := InitCounter(categories);
      TallyKeys(tokens, langCode, table, minCharShare, init);
      forall k | k in table.Values ensures k in categories {
        var kw :| kw in table && table[kw] == k;
      }
      forall k | k in categories ensures LookupCount(Tally(tokens, langCode, table, minCharShare, init), k) == CountCategory(tokens, langCode, table, minCharShare, k) {
        TallyCount(tokens, langCode, table, minCharShare, init, k);
      }
    }

    /** A category that some tokens count for, more often than the
        minimum, wins over "other": the answer is then a category counted
        at least as often. */
    lemma ClassifyFindsFrequent(tokens: seq<string>, langCode: string, c: string)
      requires Valid() && c in categories
      requires var n := CountCategory(tokens, langCode, LookupTable(keywords, langCode), minCharShare, c);
        n > 0 && n > LookupCount(minTokenCount, langCode)
      ensures var r := ClassifySpec(tokens, langCode);
        var table := LookupTable(keywords, langCode);
        r in categories && CountCategory(tokens, langCode, table, minCharShare, r) >= CountCategory(tokens, langCode, table, minCharShare, c)
    {
      var table := LookupTable(keywords, langCode);
      var counter := Tally(tokens, langCode, table, minCharShare, InitCounter(categories));
      CounterIsCounts(tokens, langCode);
      MaxPairCorrect(counter);
    }
  }
}
