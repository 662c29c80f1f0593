/** The news-heading detector of include/news_detector.h. The detector's
    tables are fixed by its constructor, so they are constants here. */
module News {
  import opened Utils
  import opened NlpUtils

  const QUOTE_MARKS: seq<char> := ['"', '\U{201C}', '\U{AB}', '\U{BB}']

  /** Direct appeals to the reader. */
  const STOPWORDS: map<string, seq<string>> := map[
    "ru" := ["вы", "вас", "вам", "вами", "ваш", "вашего", "вашему", "вашим", "вашем"],
    "en" := ["you", "your", "your"]]

  /** Question words and superlatives that disqualify a heading when they
      are its first word. */
  const STOPWORDS_FIRST: map<string, seq<string>> := map[
    "ru" := ["топ", "самый", "самая", "самые", "лучший", "лучшая", "лучшие", "как", "кто", "когда", "где", "зачем", "почему"],
    "en" := ["top", "best", "how", "who", "when", "where", "why"]]

  /** The token with its first character lowered (ltoken in is_news). */
  function LowerFirst(t: string): (r: string)
    ensures |r| == |t|
    ensures |t| > 0 ==> r[0] == LowerChar(t[0]) && r[1..] == t[1..]
  {
    if |t| == 0 then t else [LowerChar(t[0])] + t[1..]
  }

  predicate IsQuoteToken(t: string) {
    TypeOf(t) == Punctuation && t[0] in QUOTE_MARKS
  }

  /** Inside a quotation once token i has been read: an odd number of quote
      marks so far, the token itself included. */
  ghost predicate InQuote(ts: seq<string>, i: nat)
    requires i < |ts|
  {
    CountIf(ts[..i + 1], IsQuoteToken) % 2 == 1
  }

  /** A word in the heading's script: Latin for en, Cyrillic for ru. */
  predicate ScriptMatch(t: string, lang: string) {
    (TypeOf(t) == Latin && lang == "en") || (TypeOf(t) == Cyrillic && lang == "ru")
  }

  /** A word outside quotes that can be the heading's first word. */
  ghost predicate Candidate(ts: seq<string>, lang: string, j: nat)
    requires j < |ts|
  {
    TypeOf(ts[j]) != Punctuation && !InQuote(ts, j) && ScriptMatch(ts[j], lang)
  }

  /** No candidate word among tokens [0, n). */
  ghost predicate NoCandidate(ts: seq<string>, lang: string, n: nat)
    requires n <= |ts|
  {
    forall j :: 0 <= j < n ==> !Candidate(ts, lang, j)
  }

  ghost predicate IsFirstWord(ts: seq<string>, lang: string, i: nat)
    requires i < |ts|
  {
    Candidate(ts, lang, i) && NoCandidate(ts, lang, i)
  }

  /** Token i disqualifies the heading: outside quotes, a '!' or '?', a
      stopword, or a first-word stopword in first position. */
  ghost predicate Trigger(ts: seq<string>, lang: string, i: nat)
    requires i < |ts|
  {
    && !InQuote(ts, i)
    && if TypeOf(ts[i]) == Punctuation then ts[i][0] == '!' || ts[i][0] == '?'
       else
         || LowerFirst(ts[i]) in Lookup(STOPWORDS, lang)
         || (IsFirstWord(ts, lang, i) && LowerFirst(ts[i]) in Lookup(STOPWORDS_FIRST, lang))
  }

  /** The flags of is_news once tokens [0, n) are read: is_quote_now
      holds an odd count of quote marks, is_first_found the sight of a
      candidate word. */
  ghost predicate Scanned(ts: seq<string>, lang: string, n: nat, isQuoteNow: bool, isFirstFound: bool)
    requires n <= |ts|
  {
    && isQuoteNow == (CountIf(ts[..n], IsQuoteToken) % 2 == 1)
    && isFirstFound == !NoCandidate(ts, lang, n)
  }

  /** NewsDetector::is_news: one pass over the heading's tokens with the
      flags is_quote_now, is_first_found and is_news_flag, stopping at the
      first token that disqualifies it. */
  method IsNews(headerTokens: seq<string>, langCode: string) returns (isNewsFlag: bool)
    ensures isNewsFlag <==> forall i :: 0 <= i < |headerTokens| ==> !Trigger(headerTokens, langCode, i)
  {
    isNewsFlag := true;
    var isQuoteNow := false;
    var isFirstFound := false;
    var i := 0;
    while i < |headerTokens|
      invariant 0 <= i <= |headerTokens|
      invariant Scanned(headerTokens, langCode, i, isQuoteNow, isFirstFound)
      invariant forall j :: 0 <= j < i ==> !Trigger(headerTokens, langCode, j)
    {
      var stop;
      stop, isQuoteNow, isFirstFound := ReadToken(headerTokens, langCode, i, isQuoteNow, isFirstFound);
      if stop {
        isNewsFlag := false;
        break;
      }
      i := i + 1;
    }
  }

  /** The body of is_news's loop for token i: whether the token ends the
      scan with a negative answer, and the two flags after it. */
  method ReadToken(headerTokens: seq<string>, langCode: string, i: nat, isQuoteNow: bool, isFirstFound: bool)
    returns (stop: bool, quoteAfter: bool, firstAfter: bool)
    requires i < |headerTokens|
    requires Scanned(headerTokens, langCode, i, isQuoteNow, isFirstFound)
    ensures stop <==> Trigger(headerTokens, langCode, i)
    ensures !stop ==> Scanned(headerTokens, langCode, i + 1, quoteAfter, firstAfter)
  {
    stop, quoteAfter, firstAfter := false, isQuoteNow, isFirstFound;
    var token := headerTokens[i];
    var tokenType := GetTokenType(token);
    CountIfStep(headerTokens, i, IsQuoteToken);
    if tokenType == Punctuation {
      var sign := token[0];
      var isQuoteMark := Contains(QUOTE_MARKS, sign);
      if isQuoteMark {
        quoteAfter := !quoteAfter;
      }
      assert quoteAfter == InQuote(headerTokens, i);
      assert !Candidate(headerTokens, langCode, i);
      if !quoteAfter && (sign == '!' || sign == '?') {
        stop := true;
      }
    } else {
      assert quoteAfter == InQuote(headerTokens, i);
      if quoteAfter {
        assert !Candidate(headerTokens, langCode, i);
        return;
      }
      var ltoken := LowerFirst(token);
      var isStopword := Contains(Lookup(STOPWORDS, langCode), ltoken);
      if isStopword {
        stop := true;
        return;
      }
      if !isFirstFound {
        if tokenType == Latin && langCode == "en" {
          firstAfter := true;
        } else if tokenType == Cyrillic && langCode == "ru" {
          firstAfter := true;
        }
        assert firstAfter == Candidate(headerTokens, langCode, i);
        if firstAfter {
          var isStopwordFirst := Contains(Lookup(STOPWORDS_FIRST, langCode), ltoken);
          if isStopwordFirst {
            assert IsFirstWord(headerTokens, langCode, i);
            stop := true;
          }
        }
      }
    }
  }

  /** Each quote mark flips the quotation state, the closing-looking » as
      much as the others. */
  lemma QuoteToggles(ts: seq<string>, i: nat)
    requires 0 < i < |ts|
    ensures IsQuoteToken(ts[i]) ==> (InQuote(ts, i) <==> !InQuote(ts, i - 1))
    ensures !IsQuoteToken(ts[i]) ==> (InQuote(ts, i) <==> InQuote(ts, i - 1))
  {
    CountIfStep(ts, i, IsQuoteToken);
  }

  /** For a language other than en and ru only the '!' and '?' rule applies. */
  lemma OtherLanguageTriggers(ts: seq<string>, lang: string, i: nat)
    requires lang != "en" && lang != "ru" && i < |ts|
    ensures Trigger(ts, lang, i) <==>
      !InQuote(ts, i) && TypeOf(ts[i]) == Punctuation && (ts[i][0] == '!' || ts[i][0] == '?')
  {
  }

  /** A stopword outside quotes disqualifies the heading wherever it stands. */
  lemma StopwordTriggers(ts: seq<string>, lang: string, i: nat)
    requires i < |ts| && TypeOf(ts[i]) != Punctuation && !InQuote(ts, i)
    requires LowerFirst(ts[i]) in Lookup(STOPWORDS, lang)
    ensures Trigger(ts, lang, i)
  {
  }

  /** A word inside quotes never disqualifies the heading. */
  lemma QuotedWordsIgnored(ts: seq<string>, lang: string, i: nat)
    requires i < |ts| && TypeOf(ts[i]) != Punctuation && InQuote(ts, i)
    ensures !Trigger(ts, lang, i)
  {
  }
}
