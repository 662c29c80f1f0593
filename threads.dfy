/** The story clusters of include/thread_manager.h. A thread maps article
    keys (file names) to articles; the manager files every added article
    into the best-matching thread of its language, or into a new one, and
    keeps an inverted index from header tokens to article keys. */
module Threads {
  import opened Ordering
  import opened Utils
  import opened Articles

  // ---------------------------------------------------------------------
  // Thread

  /** The running maximum of get_last_published_time and get_title over the
      keys still to visit: an article replaces the kept one only with a
      strictly later time. */
  function LatestFrom(keys: seq<string>, articles: map<string, ArticleValue>, time: int, title: string): (int, string)
    requires forall k :: k in keys ==> k in articles
  {
    if keys == [] then (time, title)
    else
      var a := articles[keys[0]];
      if a.publishedTime > time then LatestFrom(keys[1..], articles, a.publishedTime, a.headerRaw)
      else LatestFrom(keys[1..], articles, time, title)
  }

  /** category_counter after the loop over the keys still to visit. */
  function CategoryCounterFrom(keys: seq<string>, articles: map<string, ArticleValue>, counter: map<string, int>): map<string, int>
    requires forall k :: k in keys ==> k in articles
  {
    if keys == [] then counter
    else CategoryCounterFrom(keys[1..], articles, Bump(counter, articles[keys[0]].category))
  }

  /** How many of the keys name an article of category c. */
  function CategoryCount(keys: seq<string>, articles: map<string, ArticleValue>, c: string): (n: nat)
    requires forall k :: k in keys ==> k in articles
    ensures n <= |keys|
  {
    if keys == [] then 0
    else (if articles[keys[0]].category == c then 1 else 0) + CategoryCount(keys[1..], articles, c)
  }

  datatype Thread = Thread(articles: map<string, ArticleValue>) {

    /** Thread::add and Thread::update: articles[article_key] = article. */
    function Put(articleKey: string, article: ArticleValue): (r: Thread)
      ensures articleKey in r.articles && r.articles[articleKey] == article
      ensures forall k :: k != articleKey ==>
        (k in r.articles <==> k in articles) && (k in articles ==> r.articles[k] == articles[k])
    {
      Thread(articles[articleKey := article])
    }

    /** Thread::remove. */
    function Remove(articleKey: string): (r: (bool, Thread))
      ensures r.0 <==> articleKey in articles
      ensures articleKey !in r.1.articles
      ensures forall k :: k != articleKey ==>
        (k in r.1.articles <==> k in articles) && (k in articles ==> r.1.articles[k] == articles[k])
    {
      var removed := RemoveMapElemIfExists(articles, articleKey);
      (removed.0, Thread(removed.1))
    }

    /** Thread::get_article_keys: the keys in map order. */
    method GetArticleKeys() returns (articleKeys: seq<string>)
      ensures articleKeys == StrKeys(articles)
      ensures StrictlySorted(articleKeys, StrLess)
      ensures forall k :: k in articleKeys <==> k in articles
    {
      articleKeys := PushKeys(StrKeys(articles));
    }

    /** Thread::get_article_by_key: a default article for an absent key. */
    function GetArticleByKey(articleKey: string): (r: ArticleValue)
      ensures articleKey in articles ==> r == articles[articleKey]
      ensures articleKey !in articles ==> r == DEFAULT_ARTICLE
    {
      if articleKey in articles then articles[articleKey] else DEFAULT_ARTICLE
    }

    /** Thread::get_lang_code: the language of the first article in key
        order, "other" for an empty thread. */
    function GetLangCode(): string {
      if |articles| > 0 then articles[StrKeys(articles)[0]].langCode else "other"
    }

    function LastPublishedTime(): int {
      LatestFrom(StrKeys(articles), articles, 0, "").0
    }

    function Title(): string {
      LatestFrom(StrKeys(articles), articles, 0, "").1
    }

    function CategoryCounter(): map<string, int> {
      CategoryCounterFrom(StrKeys(articles), articles, map[])
    }

    /** Thread::get_category: the counter's best pair, whose key is "" when
        nothing was counted. */
    function Category(): string {
      MaxPair(CategoryCounter()).0
    }

    /** Thread::get_last_published_time. */
    method GetLastPublishedTime() returns (lastPublishedTime: int)
      ensures lastPublishedTime == LastPublishedTime()
    {
      lastPublishedTime := LatestTimeOf(StrKeys(articles), articles);
    }

    /** Thread::get_title. */
    method GetTitle() returns (lastArticleTitle: string)
      ensures lastArticleTitle == Title()
    {
      lastArticleTitle := LatestTitleOf(StrKeys(articles), articles);
    }

    /** Thread::get_category. */
    method GetCategory() returns (category: string)
      ensures category == Category()
    {
      var categoryCounter := CountCategories(StrKeys(articles), articles);
      var categoryWithCount, count := GetPairByMaxValue(categoryCounter);
      category := categoryWithCount;
    }
  }

  /** The loop of get_article_keys: every key pushed back in visiting order. */
  method PushKeys(keys: seq<string>) returns (articleKeys: seq<string>)
    ensures articleKeys == keys
  {
    articleKeys := [];
    var i := 0;
    while i < |keys|
      invariant 0 <= i <= |keys|
      invariant articleKeys == keys[..i]
    {
      assert keys[..i + 1] == keys[..i] + [keys[i]];
      articleKeys := articleKeys + [keys[i]];
      i := i + 1;
    }
    assert keys[..i] == keys;
  }

  /** The loop of get_last_published_time over the keys in visiting order:
      the running maximum, from 0. */
  method LatestTimeOf(keys: seq<string>, articles: map<string, ArticleValue>) returns (lastPublishedTime: int)
    requires forall k :: k in keys ==> k in articles
    ensures lastPublishedTime == LatestFrom(keys, articles, 0, "").0
  {
    lastPublishedTime := 0;
    var i := 0;
    while i < |keys|
      invariant 0 <= i <= |keys|
      invariant LatestFrom(keys[i..], articles, lastPublishedTime, "").0 == LatestFrom(keys, articles, 0, "").0
    {
      assert keys[i..][1..] == keys[i + 1..];
      var publishedTime := articles[keys[i]].publishedTime;
      if publishedTime > lastPublishedTime {
        LatestTimeOnly(keys[i + 1..], articles, publishedTime, articles[keys[i]].headerRaw, "");
        lastPublishedTime := publishedTime;
      }
      i := i + 1;
    }
  }

  /** The loop of get_title over the keys in visiting order: the header
      kept with the running maximum of the time. */
  method LatestTitleOf(keys: seq<string>, articles: map<string, ArticleValue>) returns (lastArticleTitle: string)
    requires forall k :: k in keys ==> k in articles
    ensures lastArticleTitle == LatestFrom(keys, articles, 0, "").1
  {
    var lastPublishedTime := 0;
    lastArticleTitle := "";
    var i := 0;
    while i < |keys|
      invariant 0 <= i <= |keys|
      invariant LatestFrom(keys[i..], articles, lastPublishedTime, lastArticleTitle) == LatestFrom(keys, articles, 0, "")
    {
      assert keys[i..][1..] == keys[i + 1..];
      var article := articles[keys[i]];
      if article.publishedTime > lastPublishedTime {
        lastPublishedTime := article.publishedTime;
        lastArticleTitle := article.headerRaw;
      }
      i := i + 1;
    }
  }

  /** The counting loop of get_category over the keys in visiting order. */
  method CountCategories(keys: seq<string>, articles: map<string, ArticleValue>) returns (categoryCounter: map<string, int>)
    requires forall k :: k in keys ==> k in articles
    ensures categoryCounter == CategoryCounterFrom(keys, articles, map[])
  {
    categoryCounter := map[];
    var i := 0;
    while i < |keys|
      invariant 0 <= i <= |keys|
      invariant CategoryCounterFrom(keys[i..], articles, categoryCounter) == CategoryCounterFrom(keys, articles, map[])
    {
      CategoryCounterStep(keys, articles, i, categoryCounter);
      var categoryNow := articles[keys[i]].category;
      ghost var before := categoryCounter;
      if categoryNow !in categoryCounter {
        categoryCounter := categoryCounter[categoryNow := 0];
      }
      BumpInPlace(before, categoryCounter, categoryNow);
      categoryCounter := categoryCounter[categoryNow := categoryCounter[categoryNow] + 1];
      i := i + 1;
    }
  }

  /** Thread(article_key, article). */
  function NewThread(articleKey: string, article: ArticleValue): (r: Thread)
    ensures r.articles.Keys == {articleKey} && r.articles[articleKey] == article
  {
    Thread(map[articleKey := article])
  }

  /** The two statements of counter[key]++ behind an insertion of 0 for
      an absent key. */
  lemma BumpInPlace(m: map<string, int>, m': map<string, int>, key: string)
    requires m' == if key in m then m else m[key := 0]
    ensures key in m' && m'[key := m'[key] + 1] == Bump(m, key)
  {
  }

  lemma CategoryCounterStep(keys: seq<string>, articles: map<string, ArticleValue>, i: nat, counter: map<string, int>)
    requires i < |keys| && forall k :: k in keys ==> k in articles
    ensures CategoryCounterFrom(keys[i..], articles, counter) ==
      CategoryCounterFrom(keys[i + 1..], articles, Bump(counter, articles[keys[i]].category))
  {
    assert keys[i..][1..] == keys[i + 1..];
  }

  /** Thread(): what std::map<int, Thread>::operator[] inserts. */
  const EMPTY_THREAD := Thread(map[])

  /** The time component of the running maximum does not depend on the
      title it carries. */
  lemma {:induction false} LatestTimeOnly(keys: seq<string>, articles: map<string, ArticleValue>, time: int, t1: string, t2: string)
    requires forall k :: k in keys ==> k in articles
    ensures LatestFrom(keys, articles, time, t1).0 == LatestFrom(keys, articles, time, t2).0
    decreases |keys|
  {
    if keys != [] {
      var a := articles[keys[0]];
      if a.publishedTime > time {
      } else {
        LatestTimeOnly(keys[1..], articles, time, t1, t2);
      }
    }
  }

  /** (time, title) is the answer for the first n keys: time is their
      latest time (0 at least), and title is the header of the first of
      them that has that time, or "" when no time is positive. */
  ghost predicate LatestSoFar(keys: seq<string>, articles: map<string, ArticleValue>, n: nat, time: int, title: string)
    requires n <= |keys| && forall k :: k in keys ==> k in articles
  {
    && time >= 0
    && (forall j :: 0 <= j < n ==> articles[keys[j]].publishedTime <= time)
    && (time == 0 ==> title == "")
    && (time > 0 ==> exists j :: 0 <= j < n && FirstLatest(keys, articles, j, time, title))
  }

  /** Key j holds the kept time and title, and no earlier key reaches it. */
  ghost predicate FirstLatest(keys: seq<string>, articles: map<string, ArticleValue>, j: nat, time: int, title: string)
    requires j < |keys| && forall k :: k in keys ==> k in articles
  {
    && articles[keys[j]].publishedTime == time
    && articles[keys[j]].headerRaw == title
    && forall j' :: 0 <= j' < j ==> articles[keys[j']].publishedTime < time
  }

  lemma {:induction false} LatestFromCorrect(keys: seq<string>, articles: map<string, ArticleValue>, n: nat, time: int, title: string)
    requires forall k :: k in keys ==> k in articles
    requires n <= |keys| && LatestSoFar(keys, articles, n, time, title)
    ensures var r := LatestFrom(keys[n..], articles, time, title); LatestSoFar(keys, articles, |keys|, r.0, r.1)
    decreases |keys| - n
  {
    if n < |keys| {
      assert keys[n..][0] == keys[n] && keys[n..][1..] == keys[n + 1..];
      var a := articles[keys[n]];
      if a.publishedTime > time {
        assert FirstLatest(keys, articles, n, a.publishedTime, a.headerRaw);
        assert LatestSoFar(keys, articles, n + 1, a.publishedTime, a.headerRaw);
        LatestFromCorrect(keys, articles, n + 1, a.publishedTime, a.headerRaw);
      } else {
        if time > 0 {
          var j :| 0 <= j < n && FirstLatest(keys, articles, j, time, title);
          assert FirstLatest(keys, articles, j, time, title);
        }
        assert LatestSoFar(keys, articles, n + 1, time, title);
        LatestFromCorrect(keys, articles, n + 1, time, title);
      }
    }
  }

  /** get_last_published_time and get_title: the latest time of the
      thread's articles, 0 when none is positive (an empty thread
      included); the title is the header of the first article in key order
      with that time, or "" when the time is 0. */
  lemma LatestMeaning(t: Thread)
    ensures t.LastPublishedTime() >= 0
    ensures forall k :: k in t.articles ==> t.articles[k].publishedTime <= t.LastPublishedTime()
    ensures |t.articles| == 0 ==> t.LastPublishedTime() == 0 && t.Title() == ""
    ensures t.LastPublishedTime() == 0 ==> t.Title() == ""
    ensures t.LastPublishedTime() > 0 ==>
      var keys := StrKeys(t.articles);
      exists j :: 0 <= j < |keys| && FirstLatest(keys, t.articles, j, t.LastPublishedTime(), t.Title())
  {
    var keys := StrKeys(t.articles);
    LatestOver(keys, t.articles);
    if t.LastPublishedTime() > 0 {
      var j :| 0 <= j < |keys| && FirstLatest(keys, t.articles, j, t.LastPublishedTime(), t.Title());
    }
  }

  /** The running maximum over keys that are exactly the map's keys. */
  lemma LatestOver(keys: seq<string>, articles: map<string, ArticleValue>)
    requires forall k :: k in keys <==> k in articles
    ensures var r := LatestFrom(keys, articles, 0, "");
      && r.0 >= 0
      && (forall k :: k in articles ==> articles[k].publishedTime <= r.0)
      && (|keys| == 0 ==> r.0 == 0 && r.1 == "")
      && (r.0 == 0 ==> r.1 == "")
      && (r.0 > 0 ==> exists j :: 0 <= j < |keys| && FirstLatest(keys, articles, j, r.0, r.1))
  {
    assert keys[0..] == keys;
    LatestFromCorrect(keys, articles, 0, 0, "");
    var r := LatestFrom(keys, articles, 0, "");
    assert LatestSoFar(keys, articles, |keys|, r.0, r.1);
    forall k | k in articles ensures articles[k].publishedTime <= r.0 {
      var j :| 0 <= j < |keys| && keys[j] == k;
    }
  }

  /** The time is that of one of the thread's articles when it is
      positive. */
  lemma LatestIsSomeArticle(t: Thread)
    ensures t.LastPublishedTime() > 0 ==>
      exists k :: k in t.articles && t.articles[k].publishedTime == t.LastPublishedTime() && t.articles[k].headerRaw == t.Title()
  {
    LatestMeaning(t);
    if t.LastPublishedTime() > 0 {
      var keys := StrKeys(t.articles);
      var j :| 0 <= j < |keys| && FirstLatest(keys, t.articles, j, t.LastPublishedTime(), t.Title());
      assert keys[j] in t.articles;
    }
  }

  lemma {:induction false} CategoryCounterFromCounts(keys: seq<string>, articles: map<string, ArticleValue>, counter: map<string, int>, c: string)
    requires forall k :: k in keys ==> k in articles
    ensures LookupCount(CategoryCounterFrom(keys, articles, counter), c) == LookupCount(counter, c) + CategoryCount(keys, articles, c)
    ensures c in CategoryCounterFrom(keys, articles, counter) <==> c in counter || CategoryCount(keys, articles, c) > 0
    decreases |keys|
  {
    if keys != [] {
      CategoryCounterFromCounts(keys[1..], articles, Bump(counter, articles[keys[0]].category), c);
    }
  }

  /** A category is counted exactly when some article of the keys has it. */
  lemma {:induction false} CategoryCountPositive(keys: seq<string>, articles: map<string, ArticleValue>, c: string)
    requires forall k :: k in keys ==> k in articles
    ensures CategoryCount(keys, articles, c) > 0 <==> exists k :: k in keys && articles[k].category == c
    decreases |keys|
  {
    if keys != [] {
      CategoryCountPositive(keys[1..], articles, c);
      assert keys == [keys[0]] + keys[1..];
    }
  }

  /** get_category: "" for an empty thread; otherwise a category some
      article has, counted at least as often as every other, and counted
      strictly more often than every category before it in string order. */
  lemma CategoryMeaning(t: Thread)
    ensures |t.articles| == 0 ==> t.Category() == ""
    ensures |t.articles| > 0 ==> exists k :: k in t.articles && t.articles[k].category == t.Category()
    ensures forall c :: CategoryCount(StrKeys(t.articles), t.articles, c) <= CategoryCount(StrKeys(t.articles), t.articles, t.Category())
    ensures forall c :: StrLess(c, t.Category()) ==>
      CategoryCount(StrKeys(t.articles), t.articles, c) < CategoryCount(StrKeys(t.articles), t.articles, t.Category())
  {
    var keys := StrKeys(t.articles);
    var counter := t.CategoryCounter();
    MaxPairCorrect(counter);
    var best := MaxPair(counter);
    forall c ensures LookupCount(counter, c) == CategoryCount(keys, t.articles, c) {
      CategoryCounterFromCounts(keys, t.articles, map[], c);
    }
    forall c ensures c in counter <==> CategoryCount(keys, t.articles, c) > 0 {
      CategoryCounterFromCounts(keys, t.articles, map[], c);
    }
    if |t.articles| > 0 {
      var k0 := keys[0];
      CategoryCountPositive(keys, t.articles, t.articles[k0].category);
      assert t.articles[k0].category in counter;
      CategoryCountPositive(keys, t.articles, best.0);
    } else {
      assert keys == [];
    }
    forall c ensures CategoryCount(keys, t.articles, c) <= CategoryCount(keys, t.articles, best.0) {
      if c in counter {
        assert counter[c] <= best.1;
      }
    }
    forall c | StrLess(c, best.0) ensures CategoryCount(keys, t.articles, c) < CategoryCount(keys, t.articles, best.0) {
      if c in counter {
        assert counter[c] < best.1;
      }
    }
  }

  /** get_lang_code: "other" for an empty thread, otherwise the language of
      the article whose key comes first in string order. */
  lemma LangCodeMeaning(t: Thread)
    ensures |t.articles| == 0 ==> t.GetLangCode() == "other"
    ensures |t.articles| > 0 ==> exists k :: (k in t.articles && t.GetLangCode() == t.articles[k].langCode
      && forall k' :: k' in t.articles && k' != k ==> StrLess(k, k'))
  {
    if |t.articles| > 0 {
      FirstKeyIsLeast(t.articles);
      assert StrKeys(t.articles)[0] in t.articles;
    }
  }

  // ---------------------------------------------------------------------
  // ThreadManager: the state and its specification

  datatype ManagerState = ManagerState(
    threads: map<int, Thread>,
    threadIdByKey: map<string, int>,
    keysByToken: map<string, seq<string>>,
    lastThreadId: int,
    lastArticleTime: int)

  /** What add, remove and update keep: every thread id, stored or filed,
      is below last_thread_id, an article in a thread is filed under that
      thread's id, and no stored article is later than last_article_time. */
  ghost predicate Consistent(s: ManagerState) {
    && s.lastThreadId >= 0
    && s.lastArticleTime >= 0
    && (forall id :: id in s.threads ==> 0 <= id < s.lastThreadId)
    && (forall k :: k in s.threadIdByKey ==> 0 <= s.threadIdByKey[k] < s.lastThreadId)
    && (forall id, k :: id in s.threads && k in s.threads[id].articles ==>
          k in s.threadIdByKey && s.threadIdByKey[k] == id)
    && (forall id, k :: id in s.threads && k in s.threads[id].articles ==>
          s.threads[id].articles[k].publishedTime <= s.lastArticleTime)
  }

  /** threads[id] as a read: a missing entry reads as an empty thread. */
  function ThreadAt(threads: map<int, Thread>, id: int): (r: Thread)
    ensures id in threads ==> r == threads[id]
    ensures id !in threads ==> r == EMPTY_THREAD
  {
    if id in threads then threads[id] else EMPTY_THREAD
  }

  /** The keys get_best_thread_id visits, in order: for each header token,
      the keys filed under it. */
  function Candidates(tokens: seq<string>, keysByToken: map<string, seq<string>>): seq<string> {
    if tokens == [] then []
    else Candidates(tokens[..|tokens| - 1], keysByToken) + Lookup(keysByToken, tokens[|tokens| - 1])
  }

  /** A visited key that get_best_thread_id counts: still filed, and its
      thread has the article's language. */
  predicate Counted(s: ManagerState, langCode: string, k: string) {
    k in s.threadIdByKey && ThreadAt(s.threads, s.threadIdByKey[k]).GetLangCode() == langCode
  }

  /** article_counter after visiting cands. */
  function TallyKeys(s: ManagerState, langCode: string, cands: seq<string>): map<string, int> {
    if cands == [] then map[]
    else
      var before := TallyKeys(s, langCode, cands[..|cands| - 1]);
      var k := cands[|cands| - 1];
      if Counted(s, langCode, k) then Bump(before, k) else before
  }

  /** threads after get_best_thread_id has read threads[thread_id_now] for
      the filed keys among cands: each id with no thread gets an empty one. */
  function Revived(threads: map<int, Thread>, threadIdByKey: map<string, int>, cands: seq<string>): map<int, Thread> {
    if cands == [] then threads
    else
      var before := Revived(threads, threadIdByKey, cands[..|cands| - 1]);
      var k := cands[|cands| - 1];
      if k in threadIdByKey && threadIdByKey[k] !in before then before[threadIdByKey[k] := EMPTY_THREAD] else before
  }

  /** How often k occurs in cands. */
  function Occurrences(cands: seq<string>, k: string): (n: nat)
    ensures n <= |cands|
  {
    if cands == [] then 0
    else Occurrences(cands[..|cands| - 1], k) + (if cands[|cands| - 1] == k then 1 else 0)
  }

  lemma {:induction false} OccurrencesZero(cands: seq<string>, k: string)
    ensures Occurrences(cands, k) == 0 <==> k !in cands
  {
    if cands != [] {
      var init := cands[..|cands| - 1];
      OccurrencesZero(init, k);
      assert cands == init + [cands[|cands| - 1]];
    }
  }

  /** similarity > min_similarity with similarity = shared / all computed
      in double: a zero denominator gives +infinity for a positive count. */
  predicate Similar(shared: int, all: int, minSimilarity: real) {
    if all == 0 then shared > 0 else (shared as real) / (all as real) > minSimilarity
  }

  /** The last test of get_best_thread_id: the best thread when the
      headers are similar enough, -1 otherwise. */
  function Decide(threadIdBest: int, shared: int, all: int, minSimilarity: real): (r: int)
    ensures r == threadIdBest || r == -1
    ensures r == threadIdBest <== Similar(shared, all, minSimilarity)
    ensures threadIdBest != -1 ==> (r == threadIdBest <==> Similar(shared, all, minSimilarity))
  {
    if Similar(shared, all, minSimilarity) then threadIdBest else -1
  }

  /** all_token_count: the tokens of both headers, the shared ones counted
      once; the other header is that of the article filed under key. */
  function AllTokenCount(s: ManagerState, article: ArticleValue, key: string, shared: int): int
    requires key in s.threadIdByKey
  {
    |article.headerTk| + |ThreadAt(s.threads, s.threadIdByKey[key]).GetArticleByKey(key).headerTk| - shared
  }

  /** What get_best_thread_id returns once it has visited cands. */
  function BestId(s: ManagerState, article: ArticleValue, minSimilarity: real, cands: seq<string>): int {
    var counter := TallyKeys(s, article.langCode, cands);
    if |counter| > 0 then
      BestKeyCounted(s, article.langCode, cands);
      var best := MaxPair(counter);
      Decide(s.threadIdByKey[best.0], best.1, AllTokenCount(s, article, best.0, best.1), minSimilarity)
    else -1
  }

  /** BestId when something was counted, in terms of the best key, its
      count and the article filed under it. */
  lemma BestIdIs(s: ManagerState, article: ArticleValue, minSimilarity: real, cands: seq<string>,
                 key: string, count: int, id: int, all: int)
    requires |TallyKeys(s, article.langCode, cands)| > 0
    requires (key, count) == MaxPair(TallyKeys(s, article.langCode, cands))
    requires key in s.threadIdByKey && id == s.threadIdByKey[key]
    requires all == AllTokenCount(s, article, key, count)
    ensures BestId(s, article, minSimilarity, cands) == Decide(id, count, all, minSimilarity)
  {
  }

  /** What get_best_thread_id returns, and the threads map after it. */
  function BestSpec(s: ManagerState, article: ArticleValue, minSimilarity: real): (int, map<int, Thread>) {
    var cands := Candidates(article.headerTk, s.keysByToken);
    (BestId(s, article, minSimilarity, cands), Revived(s.threads, s.threadIdByKey, cands))
  }

  /** keys_by_token after add has filed key under each token. */
  function FileKey(keysByToken: map<string, seq<string>>, tokens: seq<string>, key: string): map<string, seq<string>> {
    if tokens == [] then keysByToken
    else
      var before := FileKey(keysByToken, tokens[..|tokens| - 1], key);
      var t := tokens[|tokens| - 1];
      before[t := Lookup(before, t) + [key]]
  }

  /** ThreadManager::add. */
  function AddSpec(s: ManagerState, article: ArticleValue, minSimilarity: real): (r: (bool, ManagerState))
    ensures r.0 <==> article.filenameOnly !in s.threadIdByKey
    ensures !r.0 ==> r.1 == s
  {
    if article.filenameOnly in s.threadIdByKey then (false, s)
    else (true, FileArticle(s, article, BestSpec(s, article, minSimilarity)))
  }

  /** The state after add has filed a new article, given what
      get_best_thread_id returned and the threads map it left. */
  function FileArticle(s: ManagerState, article: ArticleValue, best: (int, map<int, Thread>)): ManagerState {
    var key := article.filenameOnly;
    var threads := best.1;
    var id := if best.0 == -1 then s.lastThreadId else best.0;
    var threads' := if best.0 == -1 then threads[id := NewThread(key, article)]
                    else threads[id := ThreadAt(threads, id).Put(key, article)];
    var lastThreadId := if best.0 == -1 then s.lastThreadId + 1 else s.lastThreadId;
    var lastArticleTime := if article.publishedTime > s.lastArticleTime then article.publishedTime else s.lastArticleTime;
    ManagerState(threads', s.threadIdByKey[key := id], FileKey(s.keysByToken, article.headerTk, key), lastThreadId, lastArticleTime)
  }

  /** ThreadManager::remove: a filed key whose thread exists loses its
      filing, and its whole thread is erased. */
  function RemoveSpec(s: ManagerState, articleKey: string): (bool, ManagerState) {
    if articleKey in s.threadIdByKey && s.threadIdByKey[articleKey] in s.threads then
      (true, s.(threads := s.threads - {s.threadIdByKey[articleKey]}, threadIdByKey := s.threadIdByKey - {articleKey}))
    else (false, s)
  }

  /** Erasing an entry undoes an update of it. */
  lemma EraseUpdated<K, V>(m: map<K, V>, key: K, v: V)
    ensures m[key := v] - {key} == m - {key}
  {
  }

  /** The case in which update does not fall off its end: a filed key
      whose thread still exists, or an unfiled key. */
  predicate Updatable(s: ManagerState, articleKey: string) {
    articleKey in s.threadIdByKey ==> s.threadIdByKey[articleKey] in s.threads
  }

  /** ThreadManager::update: remove, then add. */
  function UpdateSpec(s: ManagerState, article: ArticleValue, minSimilarity: real): (bool, ManagerState)
    requires Updatable(s, article.filenameOnly)
  {
    if article.filenameOnly in s.threadIdByKey then AddSpec(RemoveSpec(s, article.filenameOnly).1, article, minSimilarity)
    else (false, s)
  }

  /** get_articles: the articles of all threads, by key. */
  function ArticlesOf(s: ManagerState): map<string, ArticleValue> {
    map k | k in s.threadIdByKey && s.threadIdByKey[k] in s.threads && k in s.threads[s.threadIdByKey[k]].articles
      :: s.threads[s.threadIdByKey[k]].articles[k]
  }

  // ---------------------------------------------------------------------
  // Lemmas about the specification

  lemma CandidatesStep(tokens: seq<string>, i: nat, keysByToken: map<string, seq<string>>)
    requires i < |tokens|
    ensures Candidates(tokens[..i + 1], keysByToken) == Candidates(tokens[..i], keysByToken) + Lookup(keysByToken, tokens[i])
  {
    assert tokens[..i + 1][..i] == tokens[..i];
  }

  /** A key is visited exactly when it is filed under one of the tokens. */
  lemma {:induction false} CandidatesMembers(tokens: seq<string>, keysByToken: map<string, seq<string>>)
    ensures forall k :: k in Candidates(tokens, keysByToken) <==>
      exists t :: t in tokens && t in keysByToken && k in keysByToken[t]
  {
    if tokens != [] {
      var init := tokens[..|tokens| - 1];
      CandidatesMembers(init, keysByToken);
      assert tokens == init + [tokens[|tokens| - 1]];
    }
  }

  /** One more visited key, for the inner loop of get_best_thread_id. */
  lemma VisitOne(s: ManagerState, langCode: string, p: seq<string>, k: string)
    ensures var c := p + [k];
      && TallyKeys(s, langCode, c) == (if Counted(s, langCode, k) then Bump(TallyKeys(s, langCode, p), k) else TallyKeys(s, langCode, p))
      && Revived(s.threads, s.threadIdByKey, c) ==
         (var r := Revived(s.threads, s.threadIdByKey, p);
          if k in s.threadIdByKey && s.threadIdByKey[k] !in r then r[s.threadIdByKey[k] := EMPTY_THREAD] else r)
  {
    var c := p + [k];
    assert c[..|c| - 1] == p;
  }

  /** The counter holds exactly the visited keys that are counted, each
      with the number of times it was visited. */
  lemma {:induction false} TallyKeysMeaning(s: ManagerState, langCode: string, cands: seq<string>)
    ensures forall k :: k in TallyKeys(s, langCode, cands) <==> k in cands && Counted(s, langCode, k)
    ensures forall k :: k in TallyKeys(s, langCode, cands) ==>
      TallyKeys(s, langCode, cands)[k] == Occurrences(cands, k) >= 1
  {
    if cands != [] {
      var init := cands[..|cands| - 1];
      TallyKeysMeaning(s, langCode, init);
      OccurrencesZero(init, cands[|cands| - 1]);
      assert cands == init + [cands[|cands| - 1]];
      forall k | k in TallyKeys(s, langCode, cands) && k != cands[|cands| - 1]
        ensures k in init
      {
      }
    }
  }

  /** Reading threads[id] keeps every thread and adds only empty ones, at
      ids some visited key is filed under; read again, every id gives the
      thread it gave before. */
  lemma {:induction false} RevivedMeaning(threads: map<int, Thread>, threadIdByKey: map<string, int>, cands: seq<string>)
    ensures var r := Revived(threads, threadIdByKey, cands);
      && (forall id :: id in threads ==> id in r && r[id] == threads[id])
      && (forall id :: id in r && id !in threads ==> r[id] == EMPTY_THREAD)
      && (forall id :: id in r && id !in threads ==> exists k :: k in cands && k in threadIdByKey && threadIdByKey[k] == id)
      && (forall k :: k in cands && k in threadIdByKey ==> threadIdByKey[k] in r)
  {
    if cands != [] {
      var init := cands[..|cands| - 1];
      RevivedMeaning(threads, threadIdByKey, init);
      assert cands == init + [cands[|cands| - 1]];
      var r := Revived(threads, threadIdByKey, cands);
      forall id | id in r && id !in threads
        ensures exists k :: k in cands && k in threadIdByKey && threadIdByKey[k] == id
      {
        if id in Revived(threads, threadIdByKey, init) {
          var k :| k in init && k in threadIdByKey && threadIdByKey[k] == id;
          assert k in cands;
        } else {
          assert cands[|cands| - 1] in cands;
        }
      }
    }
  }

  lemma RevivedHas(threads: map<int, Thread>, threadIdByKey: map<string, int>, cands: seq<string>, k: string)
    requires k in cands && k in threadIdByKey
    ensures threadIdByKey[k] in Revived(threads, threadIdByKey, cands)
  {
    RevivedMeaning(threads, threadIdByKey, cands);
  }

  lemma RevivedReads(threads: map<int, Thread>, threadIdByKey: map<string, int>, cands: seq<string>, id: int)
    ensures ThreadAt(Revived(threads, threadIdByKey, cands), id) == ThreadAt(threads, id)
  {
    RevivedMeaning(threads, threadIdByKey, cands);
  }

  /** When some key was counted, the best pair is a visited, counted key
      with its (positive) count. */
  lemma BestKeyCounted(s: ManagerState, langCode: string, cands: seq<string>)
    requires |TallyKeys(s, langCode, cands)| > 0
    ensures var counter := TallyKeys(s, langCode, cands); var best := MaxPair(counter);
      && best.0 in counter && counter[best.0] == best.1 >= 1
      && best.0 in cands && Counted(s, langCode, best.0)
  {
    var counter := TallyKeys(s, langCode, cands);
    TallyKeysMeaning(s, langCode, cands);
    MaxPairCorrect(counter);
    var k0 :| k0 in counter;
    assert counter[k0] >= 1;
  }

  /** get_best_thread_id: the key counted most often (the first in string
      order among equals) decides; its thread is returned when the two
      headers are similar enough, otherwise -1. No counted key gives -1. */
  lemma BestMeaning(s: ManagerState, article: ArticleValue, minSimilarity: real)
    requires Consistent(s)
    ensures var r := BestSpec(s, article, minSimilarity);
      var counter := TallyKeys(s, article.langCode, Candidates(article.headerTk, s.keysByToken));
      var best := MaxPair(counter);
      && (|counter| == 0 ==> r.0 == -1)
      && (|counter| > 0 ==>
           && best.0 in counter && Counted(s, article.langCode, best.0) && counter[best.0] == best.1
           && (forall k :: k in counter ==> counter[k] <= best.1)
           && (forall k :: k in counter && StrLess(k, best.0) ==> counter[k] < best.1)
           && var id := s.threadIdByKey[best.0];
              var all := AllTokenCount(s, article, best.0, best.1);
              && (r.0 != -1 <==> Similar(best.1, all, minSimilarity))
              && (r.0 != -1 ==> r.0 == id))
  {
    var cands := Candidates(article.headerTk, s.keysByToken);
    var counter := TallyKeys(s, article.langCode, cands);
    MaxPairCorrect(counter);
    if |counter| > 0 {
      BestKeyCounted(s, article.langCode, cands);
      var best := MaxPair(counter);
      var id := s.threadIdByKey[best.0];
      var all := AllTokenCount(s, article, best.0, best.1);
      BestIdIs(s, article, minSimilarity, cands, best.0, best.1, id, all);
      assert id >= 0;
      var r := Decide(id, best.1, all, minSimilarity);
      assert BestSpec(s, article, minSimilarity).0 == r;
      assert r != -1 <==> Similar(best.1, all, minSimilarity);
    }
  }

  /** The threads map after get_best_thread_id: the old threads, plus an
      empty thread for each filed id whose thread it found missing; the
      returned id, when not -1, has a thread. */
  ghost predicate BestOk(s: ManagerState, r: (int, map<int, Thread>)) {
    && (forall id :: id in s.threads ==> id in r.1 && r.1[id] == s.threads[id])
    && (forall id :: id in r.1 && id !in s.threads ==>
          r.1[id] == EMPTY_THREAD && exists k :: k in s.threadIdByKey && s.threadIdByKey[k] == id)
    && (r.0 != -1 ==> r.0 in r.1 && exists k :: k in s.threadIdByKey && s.threadIdByKey[k] == r.0)
  }

  lemma BestThreads(s: ManagerState, article: ArticleValue, minSimilarity: real)
    ensures BestOk(s, BestSpec(s, article, minSimilarity))
  {
    var cands := Candidates(article.headerTk, s.keysByToken);
    var counter := TallyKeys(s, article.langCode, cands);
    RevivedMeaning(s.threads, s.threadIdByKey, cands);
    var r := BestSpec(s, article, minSimilarity);
    forall id | id in r.1 && id !in s.threads
      ensures exists k :: k in s.threadIdByKey && s.threadIdByKey[k] == id
    {
      var k :| k in cands && k in s.threadIdByKey && s.threadIdByKey[k] == id;
    }
    if r.0 != -1 {
      assert |counter| > 0;
      BestKeyCounted(s, article.langCode, cands);
      var best := MaxPair(counter).0;
      assert best in cands && r.0 == s.threadIdByKey[best];
    }
  }

  /** keys_by_token after add: the key is filed under every header token,
      no token loses a key (the lists are never pruned) and no other token
      appears. */
  lemma {:induction false} FileKeyMeaning(keysByToken: map<string, seq<string>>, tokens: seq<string>, key: string)
    ensures var r := FileKey(keysByToken, tokens, key);
      && (forall t :: t in tokens ==> t in r && key in r[t])
      && (forall t :: t in keysByToken ==> t in r && |keysByToken[t]| <= |r[t]| && r[t][..|keysByToken[t]|] == keysByToken[t])
      && (forall t :: t in r ==> t in keysByToken || t in tokens)
  {
    if tokens != [] {
      var init := tokens[..|tokens| - 1];
      var t0 := tokens[|tokens| - 1];
      FileKeyMeaning(keysByToken, init, key);
      assert tokens == init + [t0];
      var before := FileKey(keysByToken, init, key);
      forall t | t in keysByToken
        ensures var r := FileKey(keysByToken, tokens, key);
          |keysByToken[t]| <= |r[t]| && r[t][..|keysByToken[t]|] == keysByToken[t]
      {
        if t == t0 {
          var old_ := keysByToken[t];
          assert (before[t] + [key])[..|old_|] == before[t][..|old_|];
        }
      }
    }
  }

  /** A successful add files the key under the best-matching thread or
      under a fresh id equal to the old last_thread_id, which then goes up
      by one; the fresh id was used by no thread and no key. The article
      sits in that thread, the other keys keep their ids, and
      last_article_time becomes the larger of its old value and the
      article's time. */
  lemma AddMeaning(s: ManagerState, article: ArticleValue, minSimilarity: real)
    requires Consistent(s) && article.filenameOnly !in s.threadIdByKey
    ensures var r := AddSpec(s, article, minSimilarity).1;
      var key := article.filenameOnly;
      var best := BestSpec(s, article, minSimilarity).0;
      && key in r.threadIdByKey
      && (best != -1 ==> r.threadIdByKey[key] == best && r.lastThreadId == s.lastThreadId)
      && (best == -1 ==> (r.threadIdByKey[key] == s.lastThreadId && r.lastThreadId == s.lastThreadId + 1
            && s.lastThreadId !in s.threads && forall k :: k in s.threadIdByKey ==> s.threadIdByKey[k] != s.lastThreadId))
      && r.threadIdByKey[key] in r.threads
      && key in r.threads[r.threadIdByKey[key]].articles && r.threads[r.threadIdByKey[key]].articles[key] == article
      && (forall k :: k in s.threadIdByKey ==> k in r.threadIdByKey && r.threadIdByKey[k] == s.threadIdByKey[k])
      && r.lastArticleTime == (if article.publishedTime > s.lastArticleTime then article.publishedTime else s.lastArticleTime)
      && r.lastArticleTime >= s.lastArticleTime
      && r.keysByToken == FileKey(s.keysByToken, article.headerTk, key)
  {
    BestThreads(s, article, minSimilarity);
    FileArticleMeaning(s, article, BestSpec(s, article, minSimilarity));
  }

  /** FileArticle for any result get_best_thread_id can give. */
  lemma FileArticleMeaning(s: ManagerState, article: ArticleValue, b: (int, map<int, Thread>))
    requires Consistent(s) && article.filenameOnly !in s.threadIdByKey && BestOk(s, b)
    ensures var r := FileArticle(s, article, b);
      var key := article.filenameOnly;
      var best := b.0;
      && key in r.threadIdByKey
      && (best != -1 ==> r.threadIdByKey[key] == best && r.lastThreadId == s.lastThreadId)
      && (best == -1 ==> (r.threadIdByKey[key] == s.lastThreadId && r.lastThreadId == s.lastThreadId + 1
            && s.lastThreadId !in s.threads && forall k :: k in s.threadIdByKey ==> s.threadIdByKey[k] != s.lastThreadId))
      && r.threadIdByKey[key] in r.threads
      && key in r.threads[r.threadIdByKey[key]].articles && r.threads[r.threadIdByKey[key]].articles[key] == article
      && (forall k :: k in s.threadIdByKey ==> k in r.threadIdByKey && r.threadIdByKey[k] == s.threadIdByKey[k])
      && r.lastArticleTime == (if article.publishedTime > s.lastArticleTime then article.publishedTime else s.lastArticleTime)
      && r.lastArticleTime >= s.lastArticleTime
      && r.keysByToken == FileKey(s.keysByToken, article.headerTk, key)
  {
  }

  /** add keeps the manager consistent. */
  lemma AddConsistent(s: ManagerState, article: ArticleValue, minSimilarity: real)
    requires Consistent(s)
    ensures Consistent(AddSpec(s, article, minSimilarity).1)
  {
    if article.filenameOnly !in s.threadIdByKey {
      BestThreads(s, article, minSimilarity);
      FileArticleConsistent(s, article, BestSpec(s, article, minSimilarity));
    }
  }

  lemma FileArticleConsistent(s: ManagerState, article: ArticleValue, best: (int, map<int, Thread>))
    requires Consistent(s) && article.filenameOnly !in s.threadIdByKey && BestOk(s, best)
    ensures Consistent(FileArticle(s, article, best))
  {
    FileArticleFiled(s, article, best);
    FileArticleTimes(s, article, best);
  }

  /** After filing, every article of every thread is filed under that thread. */
  lemma FileArticleFiled(s: ManagerState, article: ArticleValue, best: (int, map<int, Thread>))
    requires Consistent(s) && article.filenameOnly !in s.threadIdByKey && BestOk(s, best)
    ensures var r := FileArticle(s, article, best);
      forall i, k :: i in r.threads && k in r.threads[i].articles ==> k in r.threadIdByKey && r.threadIdByKey[k] == i
  {
    var key := article.filenameOnly;
    var r := FileArticle(s, article, best);
    var id := r.threadIdByKey[key];
    forall i, k | i in r.threads && k in r.threads[i].articles
      ensures k in r.threadIdByKey && r.threadIdByKey[k] == i
    {
      if i == id {
        if k != key {
          assert i in s.threads;
        }
      } else {
        assert i in best.1;
        if i in s.threads {
          assert r.threads[i] == s.threads[i];
          assert k != key;
        }
      }
    }
  }

  /** After filing, no article of any thread is later than last_article_time. */
  lemma FileArticleTimes(s: ManagerState, article: ArticleValue, best: (int, map<int, Thread>))
    requires Consistent(s) && BestOk(s, best)
    ensures var r := FileArticle(s, article, best);
      forall i, k :: i in r.threads && k in r.threads[i].articles ==> r.threads[i].articles[k].publishedTime <= r.lastArticleTime
  {
  }

  /** remove of an unknown key, or of a key whose thread is gone, reports
      false and changes nothing. Otherwise the key loses its filing and
      its whole thread is erased, even when other articles remain in it;
      those stay filed under an id with no thread. Nothing else changes,
      and last_article_time is never lowered. */
  lemma RemoveMeaning(s: ManagerState, articleKey: string)
    requires Consistent(s)
    ensures var r := RemoveSpec(s, articleKey);
      && (r.0 <==> articleKey in s.threadIdByKey && s.threadIdByKey[articleKey] in s.threads)
      && (!r.0 ==> r.1 == s)
      && (r.0 ==>
            var id := s.threadIdByKey[articleKey];
            && articleKey !in r.1.threadIdByKey && articleKey !in ArticlesOf(r.1)
            && id !in r.1.threads
            && (forall k :: k in s.threads[id].articles && k != articleKey ==>
                  k in r.1.threadIdByKey && r.1.threadIdByKey[k] !in r.1.threads)
            && (forall i :: i in s.threads && i != id ==> i in r.1.threads && r.1.threads[i] == s.threads[i])
            && (forall k :: k in s.threadIdByKey && k != articleKey ==> k in r.1.threadIdByKey && r.1.threadIdByKey[k] == s.threadIdByKey[k]))
      && r.1.lastArticleTime == s.lastArticleTime
      && r.1.lastThreadId == s.lastThreadId
      && r.1.keysByToken == s.keysByToken
      && Consistent(r.1)
  {
    var r := RemoveSpec(s, articleKey);
    if r.0 {
      var id := s.threadIdByKey[articleKey];
      forall k | k in s.threads[id].articles && k != articleKey
        ensures k in r.1.threadIdByKey && r.1.threadIdByKey[k] !in r.1.threads
      {
        assert s.threadIdByKey[k] == id;
      }
      RemoveConsistent(s, articleKey);
    }
  }

  /** remove keeps the manager's state consistent. */
  lemma RemoveConsistent(s: ManagerState, articleKey: string)
    requires Consistent(s)
    ensures Consistent(RemoveSpec(s, articleKey).1)
  {
    var r := RemoveSpec(s, articleKey);
    if r.0 {
      forall i, k | i in r.1.threads && k in r.1.threads[i].articles
        ensures k in r.1.threadIdByKey && r.1.threadIdByKey[k] == i
      {
        assert s.threadIdByKey[k] == i;
      }
    }
  }

  /** update of an unknown key reports false and changes nothing; for a
      known key it is remove followed by add of the new article, which then
      succeeds, so the key ends up filed again. */
  lemma UpdateMeaning(s: ManagerState, article: ArticleValue, minSimilarity: real)
    requires Consistent(s) && Updatable(s, article.filenameOnly)
    ensures var r := UpdateSpec(s, article, minSimilarity);
      var key := article.filenameOnly;
      && (key !in s.threadIdByKey ==> r == (false, s))
      && (key in s.threadIdByKey ==>
            && RemoveSpec(s, key).0
            && r == AddSpec(RemoveSpec(s, key).1, article, minSimilarity)
            && r.0 && key in r.1.threadIdByKey
            && r.1.lastArticleTime >= s.lastArticleTime)
      && Consistent(r.1)
  {
    var key := article.filenameOnly;
    if key in s.threadIdByKey {
      RemoveMeaning(s, key);
      var s1 := RemoveSpec(s, key).1;
      AddMeaning(s1, article, minSimilarity);
      AddConsistent(s1, article, minSimilarity);
    }
  }

  /** get_articles holds an article exactly when some thread holds it,
      under its own key; every such key is filed under that thread. */
  lemma ArticlesOfMeaning(s: ManagerState)
    requires Consistent(s)
    ensures forall k :: k in ArticlesOf(s) <==> exists id :: id in s.threads && k in s.threads[id].articles
    ensures forall k :: k in ArticlesOf(s) ==>
      k in s.threadIdByKey && s.threadIdByKey[k] in s.threads && Updatable(s, k)
      && ArticlesOf(s)[k] == s.threads[s.threadIdByKey[k]].articles[k]
  {
  }

  // ---------------------------------------------------------------------
  // ThreadManager

  class ThreadManager {
    const minSimilarity: real

    var threads: map<int, Thread>
    var threadIdByKey: map<string, int>
    var keysByToken: map<string, seq<string>>
    var lastThreadId: int
    var lastArticleTime: int

    function State(): ManagerState
      reads this
    {
      ManagerState(threads, threadIdByKey, keysByToken, lastThreadId, lastArticleTime)
    }

    ghost predicate Valid()
      reads this
    {
      Consistent(State())
    }

    /** ThreadManager(min_similar_token_count, min_similarity), the form
        the engine calls; the token count is not used. */
    constructor (minSimilarTokenCount: int, minSimilarity: real)
      ensures this.minSimilarity == minSimilarity
      ensures State() == ManagerState(map[], map[], map[], 0, 0)
      ensures Valid()
    {
      this.minSimilarity := minSimilarity;
      threads := map[];
      threadIdByKey := map[];
      keysByToken := map[];
      lastThreadId := 0;
      lastArticleTime := 0;
    }

    /** ThreadManager::add. */
    method Add(article: ArticleValue) returns (added: bool)
      modifies this
      ensures (added, State()) == AddSpec(old(State()), article, minSimilarity)
    {
      var articleKey := article.filenameOnly;
      if articleKey !in threadIdByKey {
        ghost var s := State();
        var threadId := GetBestThreadId(article);
        BestThreads(s, article, minSimilarity);
        if threadId == -1 {
          threadId := lastThreadId;
          threads := threads[threadId := NewThread(articleKey, article)];
          lastThreadId := lastThreadId + 1;
        } else {
          threads := threads[threadId := threads[threadId].Put(articleKey, article)];
        }
        threadIdByKey := threadIdByKey[articleKey := threadId];
        FileTokens(article.headerTk, articleKey);
        var publishedTime := article.publishedTime;
        if publishedTime > lastArticleTime {
          lastArticleTime := publishedTime;
        }
        added := true;
      } else {
        added := false;
      }
    }

    /** The token loop of add. */
    method FileTokens(tokens: seq<string>, articleKey: string)
      modifies this`keysByToken
      ensures keysByToken == FileKey(old(keysByToken), tokens, articleKey)
    {
      var i := 0;
      while i < |tokens|
        invariant 0 <= i <= |tokens|
        invariant keysByToken == FileKey(old(keysByToken), tokens[..i], articleKey)
      {
        assert tokens[..i + 1][..i] == tokens[..i];
        var token := tokens[i];
        if token !in keysByToken {
          keysByToken := keysByToken[token := []];
        }
        keysByToken := keysByToken[token := keysByToken[token] + [articleKey]];
        i := i + 1;
      }
      assert tokens[..i] == tokens;
    }

    /** ThreadManager::remove. */
    method Remove(articleKey: string) returns (removed: bool)
      modifies this
      ensures (removed, State()) == RemoveSpec(old(State()), articleKey)
    {
      if articleKey in threadIdByKey {
        var threadId := threadIdByKey[articleKey];
        if threadId in threads {
          var fromThread := threads[threadId].Remove(articleKey);
          EraseUpdated(threads, threadId, fromThread.1);
          threads := threads[threadId := fromThread.1];
          var fromKeys := RemoveMapElemIfExists(threadIdByKey, articleKey);
          threadIdByKey := fromKeys.1;
          if fromKeys.0 {
            var fromThreads := RemoveMapElemIfExists(threads, threadId);
            threads := fromThreads.1;
            removed := fromThreads.0;
          } else {
            assert false;
          }
        } else {
          removed := false;
        }
      } else {
        removed := false;
      }
    }

    /** ThreadManager::update; the source has no result for a filed key
        whose thread is gone, so that case is excluded. */
    method Update(article: ArticleValue) returns (updated: bool)
      requires Updatable(State(), article.filenameOnly)
      modifies this
      ensures (updated, State()) == UpdateSpec(old(State()), article, minSimilarity)
    {
      var articleKey := article.filenameOnly;
      if articleKey in threadIdByKey {
        var removed := Remove(articleKey);
        if removed {
          updated := Add(article);
        } else {
          assert false;
        }
      } else {
        updated := false;
      }
    }

    /** ThreadManager::get_all_last_published_time: in a consistent state,
        no stored article is later, and it is never negative. */
    function GetAllLastPublishedTime(): (r: int)
      reads this
      ensures Valid() ==> r >= 0
      ensures Valid() ==> forall k :: k in ArticlesOf(State()) ==> ArticlesOf(State())[k].publishedTime <= r
    {
      lastArticleTime
    }

    /** ThreadManager::is_article_available_by_key: every key whose article
        is stored is available, and so is a key whose thread remove has
        erased. */
    predicate IsArticleAvailableByKey(articleKey: string)
      reads this
      ensures articleKey in ArticlesOf(State()) ==> IsArticleAvailableByKey(articleKey)
      ensures articleKey in threadIdByKey && threadIdByKey[articleKey] !in threads ==> IsArticleAvailableByKey(articleKey)
    {
      articleKey in threadIdByKey
    }

    /** get_threads (get_index_threads in the header): in a consistent
        state every id is below last_thread_id and every article is filed
        under its thread's id. */
    function GetThreads(): (r: map<int, Thread>)
      reads this
      ensures Valid() ==> forall id :: id in r ==> 0 <= id < lastThreadId
      ensures Valid() ==> forall id, k :: id in r && k in r[id].articles ==> k in threadIdByKey && threadIdByKey[k] == id
    {
      threads
    }

    /** get_articles: in a consistent state, exactly the articles some
        thread holds, each under its own key. */
    function GetArticles(): (r: map<string, ArticleValue>)
      reads this
      ensures Valid() ==> forall k :: k in r <==> exists id :: id in threads && k in threads[id].articles
      ensures forall k :: k in r ==>
        k in threadIdByKey && threadIdByKey[k] in threads && k in threads[threadIdByKey[k]].articles
        && r[k] == threads[threadIdByKey[k]].articles[k]
    {
      ArticlesOf(State())
    }

    /** get_last_published_time(thread_id). */
    method GetLastPublishedTime(threadId: int) returns (lastPublishedTime: int)
      requires threadId in threads
      ensures lastPublishedTime == threads[threadId].LastPublishedTime()
    {
      lastPublishedTime := threads[threadId].GetLastPublishedTime();
    }

    /** get_thread_title(thread_id). */
    method GetThreadTitle(threadId: int) returns (title: string)
      requires threadId in threads
      ensures title == threads[threadId].Title()
    {
      title := threads[threadId].GetTitle();
    }

    /** get_thread_lang_code(thread_id): "other" for an empty thread,
        otherwise the language of one of its articles. */
    function GetThreadLangCode(threadId: int): (r: string)
      requires threadId in threads
      reads this
      ensures |threads[threadId].articles| == 0 ==> r == "other"
      ensures |threads[threadId].articles| > 0 ==>
        exists k :: k in threads[threadId].articles && r == threads[threadId].articles[k].langCode
    {
      LangCodeMeaning(threads[threadId]);
      threads[threadId].GetLangCode()
    }

    /** get_thread_category(thread_id). */
    method GetThreadCategory(threadId: int) returns (category: string)
      requires threadId in threads
      ensures category == threads[threadId].Category()
    {
      category := threads[threadId].GetCategory();
    }

    /** ThreadManager::get_best_thread_id. Reading threads[thread_id_now]
        puts an empty thread under a filed id whose thread was erased. */
    method GetBestThreadId(article: ArticleValue) returns (threadId: int)
      modifies this`threads
      ensures (threadId, threads) == BestSpec(old(State()), article, minSimilarity)
    {
      ghost var s := State();
      threadId := -1;
      var articleCounter: map<string, int> := map[];
      var tokens := article.headerTk;
      var langCode := article.langCode;
      var i := 0;
      while i < |tokens|
        invariant 0 <= i <= |tokens|
        invariant keysByToken == s.keysByToken && threadIdByKey == s.threadIdByKey
        invariant articleCounter == TallyKeys(s, langCode, Candidates(tokens[..i], s.keysByToken))
        invariant threads == Revived(s.threads, s.threadIdByKey, Candidates(tokens[..i], s.keysByToken))
      {
        var token := tokens[i];
        CandidatesStep(tokens, i, s.keysByToken);
        if token in keysByToken {
          articleCounter := CountKeys(keysByToken[token], langCode, articleCounter, s, Candidates(tokens[..i], s.keysByToken));
        } else {
          assert Candidates(tokens[..i], s.keysByToken) + [] == Candidates(tokens[..i], s.keysByToken);
        }
        i := i + 1;
      }
      assert tokens[..i] == tokens;
      threadId := PickThread(article, articleCounter, s, Candidates(tokens, s.keysByToken));
    }

    /** The end of get_best_thread_id: the best counted key decides. */
    method PickThread(article: ArticleValue, articleCounter: map<string, int>, ghost s: ManagerState, ghost cands: seq<string>)
      returns (threadId: int)
      requires threadIdByKey == s.threadIdByKey
      requires articleCounter == TallyKeys(s, article.langCode, cands)
      requires threads == Revived(s.threads, s.threadIdByKey, cands)
      ensures threadId == BestId(s, article, minSimilarity, cands)
    {
      threadId := -1;
      if |articleCounter| > 0 {
        BestKeyCounted(s, article.langCode, cands);
        var articleKey, similarTokenCount := GetPairByMaxValue(articleCounter);
        var threadIdBest := threadIdByKey[articleKey];
        RevivedReads(s.threads, s.threadIdByKey, cands, threadIdBest);
        RevivedHas(s.threads, s.threadIdByKey, cands, articleKey);
        var other := threads[threadIdBest].GetArticleByKey(articleKey);
        var firstTokenCount := |article.headerTk|;
        var secondTokenCount := |other.headerTk|;
        var allTokenCount := firstTokenCount + secondTokenCount - similarTokenCount;
        BestIdIs(s, article, minSimilarity, cands, articleKey, similarTokenCount, threadIdBest, allTokenCount);
        if Similar(similarTokenCount, allTokenCount, minSimilarity) {
          threadId := threadIdBest;
        }
      }
    }

    /** The inner loop of get_best_thread_id over the keys filed under one
        token. */
    method CountKeys(keys: seq<string>, langCode: string, counter: map<string, int>, ghost s: ManagerState, ghost before: seq<string>)
      returns (articleCounter: map<string, int>)
      requires threadIdByKey == s.threadIdByKey
      requires counter == TallyKeys(s, langCode, before)
      requires threads == Revived(s.threads, s.threadIdByKey, before)
      modifies this`threads
      ensures articleCounter == TallyKeys(s, langCode, before + keys)
      ensures threads == Revived(s.threads, s.threadIdByKey, before + keys)
    {
      articleCounter := counter;
      var j := 0;
      assert before + keys[..j] == before;
      while j < |keys|
        invariant 0 <= j <= |keys|
        invariant articleCounter == TallyKeys(s, langCode, before + keys[..j])
        invariant threads == Revived(s.threads, s.threadIdByKey, before + keys[..j])
      {
        assert before + keys[..j + 1] == (before + keys[..j]) + [keys[j]];
        articleCounter := VisitKey(keys[j], langCode, articleCounter, s, before + keys[..j]);
        j := j + 1;
      }
      assert keys[..j] == keys;
    }

    /** One pass of that inner loop: a filed key whose thread (revived
        empty when missing) has the language is counted once more. */
    method VisitKey(articleKey: string, langCode: string, counter: map<string, int>, ghost s: ManagerState, ghost visited: seq<string>)
      returns (articleCounter: map<string, int>)
      requires threadIdByKey == s.threadIdByKey
      requires counter == TallyKeys(s, langCode, visited)
      requires threads == Revived(s.threads, s.threadIdByKey, visited)
      modifies this`threads
      ensures articleCounter == TallyKeys(s, langCode, visited + [articleKey])
      ensures threads == Revived(s.threads, s.threadIdByKey, visited + [articleKey])
    {
      VisitOne(s, langCode, visited, articleKey);
      articleCounter := counter;
      if articleKey !in threadIdByKey {
        return;
      }
      var threadIdNow := threadIdByKey[articleKey];
      if threadIdNow !in threads {
        threads := threads[threadIdNow := EMPTY_THREAD];
      }
      RevivedReads(s.threads, s.threadIdByKey, visited + [articleKey], threadIdNow);
      if threads[threadIdNow].GetLangCode() != langCode {
        return;
      }
      if articleKey !in articleCounter {
        articleCounter := articleCounter[articleKey := 0];
      }
      articleCounter := articleCounter[articleKey := articleCounter[articleKey] + 1];
    }
  }
}
