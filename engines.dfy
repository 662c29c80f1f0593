/** The request handlers of include/engine.h over one ThreadManager:
    indexing a document, removing it, and ranking the threads; plus the
    sequential form of the loading and thread-listing passes. The index
    directory is a map from full path to saved content. */
module Engines {
  import opened Ordering
  import opened Utils
  import opened Articles
  import opened Threads
  import opened Languages
  import opened News
  import opened Categories

  // ---------------------------------------------------------------------
  // The listed threads and their order

  /** ta::ThreadArticles: a thread's title and article keys. */
  datatype ThreadArticles = ThreadArticles(title: string, articles: seq<string>)

  /** ra::RankedArticles: a ranked thread's title, category and keys. */
  datatype RankedArticles = RankedArticles(title: string, category: string, articles: seq<string>)

  /** ta::ThreadArticles::operator<: more articles sort first. */
  predicate ThreadArticlesLess(a: ThreadArticles, b: ThreadArticles) {
    |a.articles| > |b.articles|
  }

  /** ra::RankedArticles::operator<: more articles sort first. */
  predicate RankedArticlesLess(a: RankedArticles, b: RankedArticles) {
    |a.articles| > |b.articles|
  }

  function ThreadSize(t: ThreadArticles): int {
    |t.articles|
  }

  function RankedSize(r: RankedArticles): int {
    |r.articles|
  }

  // ---------------------------------------------------------------------
  // Specification of run_http_ranking and run_cli_threads

  /** The three tests of run_http_ranking: published within the period
      before now, of the asked language, and of the asked category unless
      "any" is asked for. */
  predicate Kept(t: Thread, period: int, langCode: string, category: string, timeNow: int) {
    && timeNow - t.LastPublishedTime() <= period
    && t.GetLangCode() == langCode
    && (category == "any" || category == t.Category())
  }

  /** The entry run_http_ranking makes for a kept thread. */
  function RankedOf(t: Thread): RankedArticles {
    RankedArticles(t.Title(), t.Category(), StrKeys(t.articles))
  }

  /** f of every thread among ids that keep accepts, in the order of ids. */
  function Collected<U>(threads: map<int, Thread>, ids: seq<int>, keep: Thread -> bool, f: Thread -> U): seq<U>
    requires forall j :: 0 <= j < |ids| ==> ids[j] in threads
  {
    if ids == [] then []
    else
      var before := Collected(threads, ids[..|ids| - 1], keep, f);
      var t := threads[ids[|ids| - 1]];
      if keep(t) then before + [f(t)] else before
  }

  /** f of every thread among ids, in the order of ids. */
  function Mapped<U>(threads: map<int, Thread>, ids: seq<int>, f: Thread -> U): seq<U>
    requires forall j :: 0 <= j < |ids| ==> ids[j] in threads
  {
    if ids == [] then [] else Mapped(threads, ids[..|ids| - 1], f) + [f(threads[ids[|ids| - 1]])]
  }

  lemma CollectedStep<U>(threads: map<int, Thread>, ids: seq<int>, i: nat, keep: Thread -> bool, f: Thread -> U)
    requires i < |ids| && forall j :: 0 <= j < |ids| ==> ids[j] in threads
    ensures Collected(threads, ids[..i + 1], keep, f) ==
      Collected(threads, ids[..i], keep, f) + (if keep(threads[ids[i]]) then [f(threads[ids[i]])] else [])
  {
    assert ids[..i + 1][..i] == ids[..i];
    var before := Collected(threads, ids[..i], keep, f);
    assert before + [] == before;
  }

  lemma MappedStep<U>(threads: map<int, Thread>, ids: seq<int>, i: nat, f: Thread -> U)
    requires i < |ids| && forall j :: 0 <= j < |ids| ==> ids[j] in threads
    ensures Mapped(threads, ids[..i + 1], f) == Mapped(threads, ids[..i], f) + [f(threads[ids[i]])]
  {
    assert ids[..i + 1][..i] == ids[..i];
  }

  /** An entry is made exactly for the accepted threads among ids. */
  lemma {:induction false} CollectedMembers<U>(threads: map<int, Thread>, ids: seq<int>, keep: Thread -> bool, f: Thread -> U)
    requires forall j :: 0 <= j < |ids| ==> ids[j] in threads
    ensures forall x :: x in Collected(threads, ids, keep, f) <==>
      exists j :: 0 <= j < |ids| && keep(threads[ids[j]]) && x == f(threads[ids[j]])
  {
    if ids != [] {
      var n := |ids| - 1;
      var init := ids[..n];
      CollectedMembers(threads, init, keep, f);
      var before := Collected(threads, init, keep, f);
      forall x ensures x in Collected(threads, ids, keep, f) <==>
        exists j :: 0 <= j < |ids| && keep(threads[ids[j]]) && x == f(threads[ids[j]])
      {
        if x in before {
          var j :| 0 <= j < |init| && keep(threads[init[j]]) && x == f(threads[init[j]]);
          assert init[j] == ids[j];
        }
        if exists j :: 0 <= j < |ids| && keep(threads[ids[j]]) && x == f(threads[ids[j]]) {
          var j :| 0 <= j < |ids| && keep(threads[ids[j]]) && x == f(threads[ids[j]]);
          if j < n {
            assert init[j] == ids[j];
          }
        }
      }
    }
  }

  /** One entry per thread among ids, in the same order. */
  lemma {:induction false} MappedEntries<U>(threads: map<int, Thread>, ids: seq<int>, f: Thread -> U)
    requires forall j :: 0 <= j < |ids| ==> ids[j] in threads
    ensures var r := Mapped(threads, ids, f);
      |r| == |ids| && forall j :: 0 <= j < |ids| ==> r[j] == f(threads[ids[j]])
  {
    if ids != [] {
      var n := |ids| - 1;
      var init := ids[..n];
      MappedEntries(threads, init, f);
      forall j | 0 <= j < n ensures init[j] == ids[j] {
      }
    }
  }

  /** The three tests as a function value. */
  function KeptBy(period: int, langCode: string, category: string, timeNow: int): Thread -> bool {
    t => Kept(t, period, langCode, category, timeNow)
  }

  /** The entries for the kept threads among ids, in that order. */
  function RankedFrom(threads: map<int, Thread>, ids: seq<int>, period: int, langCode: string, category: string, timeNow: int): seq<RankedArticles>
    requires forall j :: 0 <= j < |ids| ==> ids[j] in threads
  {
    Collected(threads, ids, KeptBy(period, langCode, category, timeNow), RankedOf)
  }

  /** What run_http_ranking returns under "threads". */
  function RankingSpec(threads: map<int, Thread>, period: int, langCode: string, category: string, timeNow: int): seq<RankedArticles> {
    SortDesc(RankedFrom(threads, IntKeys(threads), period, langCode, category, timeNow), RankedSize)
  }

  /** The entry run_cli_threads makes for a thread. */
  function Listed(t: Thread): ThreadArticles {
    ThreadArticles(t.Title(), StrKeys(t.articles))
  }

  /** The entries run_cli_threads makes for the threads among ids. */
  function ThreadListFrom(threads: map<int, Thread>, ids: seq<int>): seq<ThreadArticles>
    requires forall j :: 0 <= j < |ids| ==> ids[j] in threads
  {
    Mapped(threads, ids, Listed)
  }

  /** What run_cli_threads lists. */
  function ThreadListSpec(threads: map<int, Thread>): seq<ThreadArticles> {
    SortDesc(ThreadListFrom(threads, IntKeys(threads)), ThreadSize)
  }

  lemma RankedFromStep(threads: map<int, Thread>, ids: seq<int>, i: nat, period: int, langCode: string, category: string, timeNow: int)
    requires i < |ids| && forall j :: 0 <= j < |ids| ==> ids[j] in threads
    ensures var t := threads[ids[i]];
      RankedFrom(threads, ids[..i + 1], period, langCode, category, timeNow) ==
        RankedFrom(threads, ids[..i], period, langCode, category, timeNow) + (if Kept(t, period, langCode, category, timeNow) then [RankedOf(t)] else [])
  {
    CollectedStep(threads, ids, i, KeptBy(period, langCode, category, timeNow), RankedOf);
  }

  lemma ThreadListStep(threads: map<int, Thread>, ids: seq<int>, i: nat)
    requires i < |ids| && forall j :: 0 <= j < |ids| ==> ids[j] in threads
    ensures ThreadListFrom(threads, ids[..i + 1]) == ThreadListFrom(threads, ids[..i]) + [Listed(threads[ids[i]])]
  {
    MappedStep(threads, ids, i, Listed);
  }

  /** Reordering keeps the members. */
  lemma SameMembers<T>(a: seq<T>, b: seq<T>)
    requires multiset(a) == multiset(b)
    ensures forall x :: x in a <==> x in b
  {
    forall x ensures x in a <==> x in b {
      assert x in a <==> x in multiset(a);
      assert x in b <==> x in multiset(b);
    }
  }

  /** Over all thread ids: an entry is made exactly for the accepted threads. */
  lemma CollectedByKey<U>(threads: map<int, Thread>, keep: Thread -> bool, f: Thread -> U)
    ensures forall x :: x in Collected(threads, IntKeys(threads), keep, f) <==>
      exists id :: id in threads && keep(threads[id]) && x == f(threads[id])
  {
    var ids := IntKeys(threads);
    CollectedMembers(threads, ids, keep, f);
    forall x | exists id :: id in threads && keep(threads[id]) && x == f(threads[id])
      ensures x in Collected(threads, ids, keep, f)
    {
      var id :| id in threads && keep(threads[id]) && x == f(threads[id]);
      var j :| 0 <= j < |ids| && ids[j] == id;
    }
  }

  /** Over all thread ids: one entry per thread. */
  lemma MappedByKey<U>(threads: map<int, Thread>, f: Thread -> U)
    ensures var r := Mapped(threads, IntKeys(threads), f);
      && |r| == |threads|
      && forall x :: x in r <==> exists id :: id in threads && x == f(threads[id])
  {
    var ids := IntKeys(threads);
    var r := Mapped(threads, ids, f);
    MappedEntries(threads, ids, f);
    forall x ensures x in r <==> exists id :: id in threads && x == f(threads[id]) {
      if x in r {
        var j :| 0 <= j < |r| && r[j] == x;
        assert x == f(threads[ids[j]]);
      }
      if exists id :: id in threads && x == f(threads[id]) {
        var id :| id in threads && x == f(threads[id]);
        var j :| 0 <= j < |ids| && ids[j] == id;
        assert r[j] == x;
      }
    }
  }

  /** The kept threads, with the three tests spelled out. */
  lemma KeptMembers(threads: map<int, Thread>, period: int, langCode: string, category: string, timeNow: int)
    ensures forall x :: x in RankedFrom(threads, IntKeys(threads), period, langCode, category, timeNow) <==>
      exists id :: id in threads && Kept(threads[id], period, langCode, category, timeNow) && x == RankedOf(threads[id])
  {
    var keep := KeptBy(period, langCode, category, timeNow);
    CollectedByKey(threads, keep, RankedOf);
    forall id | id in threads ensures keep(threads[id]) == Kept(threads[id], period, langCode, category, timeNow) {
      KeptByMeans(period, langCode, category, timeNow, threads[id]);
    }
  }

  lemma KeptByMeans(period: int, langCode: string, category: string, timeNow: int, t: Thread)
    ensures KeptBy(period, langCode, category, timeNow)(t) == Kept(t, period, langCode, category, timeNow)
  {
  }

  /** run_http_ranking: every returned entry is that of a thread that
      passed the three tests (so its category is the asked one unless
      "any" was asked for), every such thread has its entry, and the list
      is ordered by operator<: no entry has more articles than one before
      it. */
  lemma RankingMeaning(threads: map<int, Thread>, period: int, langCode: string, category: string, timeNow: int)
    ensures var r := RankingSpec(threads, period, langCode, category, timeNow);
      && (forall x :: x in r <==> exists id :: id in threads && Kept(threads[id], period, langCode, category, timeNow) && x == RankedOf(threads[id]))
      && (forall x :: x in r ==> category == "any" || x.category == category)
      && (forall i, j :: 0 <= i < j < |r| ==> !RankedArticlesLess(r[j], r[i]))
      && multiset(r) == multiset(RankedFrom(threads, IntKeys(threads), period, langCode, category, timeNow))
  {
    var unsorted := RankedFrom(threads, IntKeys(threads), period, langCode, category, timeNow);
    var r := RankingSpec(threads, period, langCode, category, timeNow);
    SameMembers(r, unsorted);
    KeptMembers(threads, period, langCode, category, timeNow);
    assert NonIncreasing(r, RankedSize);
  }

  /** Every member of the listing loop's result is some thread's entry. */
  lemma ListedSound(threads: map<int, Thread>, r: seq<ThreadArticles>)
    requires forall x :: x in r ==> x in Mapped(threads, IntKeys(threads), Listed)
    ensures forall x :: x in r ==> exists id :: id in threads && x == Listed(threads[id])
  {
    MappedByKey(threads, Listed);
  }

  /** Every thread's entry is a member of the listing loop's result. */
  lemma ListedComplete(threads: map<int, Thread>, r: seq<ThreadArticles>)
    requires forall x :: x in Mapped(threads, IntKeys(threads), Listed) ==> x in r
    ensures forall id :: id in threads ==> Listed(threads[id]) in r
  {
    MappedByKey(threads, Listed);
  }

  /** run_cli_threads lists one entry per thread, holding its title and its
      keys, ordered by operator<. */
  lemma ThreadListMeaning(threads: map<int, Thread>)
    ensures var r := ThreadListSpec(threads);
      && |r| == |threads|
      && (forall x :: x in r ==> exists id :: id in threads && x == Listed(threads[id]))
      && (forall id :: id in threads ==> Listed(threads[id]) in r)
      && (forall i, j :: 0 <= i < j < |r| ==> !ThreadArticlesLess(r[j], r[i]))
  {
    var unsorted := Mapped(threads, IntKeys(threads), Listed);
    var r := ThreadListSpec(threads);
    assert r == SortDesc(unsorted, ThreadSize);
    MappedByKey(threads, Listed);
    SameMembers(r, unsorted);
    ListedSound(threads, r);
    ListedComplete(threads, r);
    assert NonIncreasing(r, ThreadSize);
  }

  // ---------------------------------------------------------------------
  // Specification of run_http_indexing and run_http_removing

  /** What the Article constructor sets besides the fields it reads from
      the document: the file name, language "other", thread -1 and
      category "other". */
  function NewArticle(parsed: ArticleValue, filename: string): (a: ArticleValue)
    ensures a.filenameOnly == filename && a.langCode == "other" && a.threadIndex == -1 && a.category == "other"
    ensures a.publishedTime == parsed.publishedTime && a.shortUrl == parsed.shortUrl && a.headerRaw == parsed.headerRaw
    ensures a.headerTk == parsed.headerTk && a.textTk == parsed.textTk
  {
    parsed.(filenameOnly := filename, langCode := "other", threadIndex := -1, category := "other")
  }

  /** is_news as a property of the header: no token disqualifies it. */
  ghost predicate NewsHeader(headerTokens: seq<string>, langCode: string) {
    forall i :: 0 <= i < |headerTokens| ==> !Trigger(headerTokens, langCode, i)
  }

  /** is_ttl_exceeded: the article is more than seconds newer than the
      newest indexed one, and something with a positive time is indexed. */
  predicate TtlExceeded(publishedTime: int, lastArticleTime: int, seconds: int) {
    publishedTime - lastArticleTime > seconds && lastArticleTime > 0
  }

  /** The article add receives: the detected language, and the category
      when one is assigned. */
  function Admit(a: ArticleValue, langCode: string, isNews: bool, category: Option<string>): (r: Option<ArticleValue>)
    ensures r.Some? <==> (langCode == "en" || langCode == "ru") && isNews
    ensures r.Some? ==> r.value.langCode == langCode && r.value.category == (if category.Some? then category.value else a.category)
    ensures r.Some? ==> r.value.(langCode := a.langCode, category := a.category) == a
  {
    if (langCode == "en" || langCode == "ru") && isNews then
      Some(if category.Some? then a.(langCode := langCode, category := category.value) else a.(langCode := langCode))
    else None
  }

  /** run_http_indexing for the article read from content: the status, the
      manager's state and the index directory afterwards. langCode, isNews
      and category are what detect, is_news and classify give for it. */
  function IndexSpec(s: ManagerState, files: map<string, string>, fullPath: string, article: ArticleValue, seconds: int,
                     langCode: string, isNews: bool, category: string, minSimilarity: real, content: string): (int, ManagerState, map<string, string>)
    requires Consistent(s)
  {
    var ttl := TtlExceeded(article.publishedTime, s.lastArticleTime, seconds);
    if article.filenameOnly in ArticlesOf(s) then
      ArticlesOfMeaning(s);
      IndexKnownSpec(s, files, fullPath, article, ttl, minSimilarity, content)
    else IndexNewSpec(s, files, fullPath, article, ttl, langCode, isNews, category, minSimilarity, content)
  }

  /** run_http_indexing of a key already indexed: update and save within
      the TTL, remove and delete past it. */
  function IndexKnownSpec(s: ManagerState, files: map<string, string>, fullPath: string, article: ArticleValue, ttl: bool,
                          minSimilarity: real, content: string): (int, ManagerState, map<string, string>)
    requires Updatable(s, article.filenameOnly)
  {
    if !ttl then (204, UpdateSpec(s, article, minSimilarity).1, files[fullPath := content])
    else (204, RemoveSpec(s, article.filenameOnly).1, files - {fullPath})
  }

  /** run_http_indexing of a new key: add and save an admitted article
      within the TTL, otherwise change nothing. */
  function IndexNewSpec(s: ManagerState, files: map<string, string>, fullPath: string, article: ArticleValue, ttl: bool,
                        langCode: string, isNews: bool, category: string, minSimilarity: real, content: string): (int, ManagerState, map<string, string>)
  {
    var admitted := Admit(article, langCode, isNews, Some(category));
    if !ttl && admitted.Some? then (201, AddSpec(s, admitted.value, minSimilarity).1, files[fullPath := content])
    else (204, s, files)
  }

  /** run_http_removing for a key: the status, state and directory
      afterwards. */
  function RemovingSpec(s: ManagerState, files: map<string, string>, fullPath: string, key: string): (int, ManagerState, map<string, string>) {
    if key in ArticlesOf(s) then (204, RemoveSpec(s, key).1, files - {fullPath})
    else (404, s, files)
  }

  /** run_http_indexing of an indexed key answers 204: within the TTL the
      article is updated (re-added, with language and category "other" as
      constructed) and saved; past it the key is removed and its file
      deleted. A new key is added and saved with 201 exactly when it is
      within the TTL, detected as en or ru and read as news; otherwise 204
      leaves state and directory alone. A key that is filed but whose
      thread was erased counts as new: it gets 201 and is saved, but add
      refuses it and the state stays as it was. The manager stays
      consistent and last_article_time never goes down. */
  lemma IndexMeaning(s: ManagerState, files: map<string, string>, fullPath: string, article: ArticleValue, seconds: int,
                     langCode: string, isNews: bool, category: string, minSimilarity: real, content: string)
    requires Consistent(s)
    ensures var r := IndexSpec(s, files, fullPath, article, seconds, langCode, isNews, category, minSimilarity, content);
      var key := article.filenameOnly;
      var ttl := TtlExceeded(article.publishedTime, s.lastArticleTime, seconds);
      && (r.0 == 201 || r.0 == 204)
      && (r.0 == 201 <==> key !in ArticlesOf(s) && !ttl && (langCode == "en" || langCode == "ru") && isNews)
      && (key in ArticlesOf(s) && !ttl ==> r.1 == AddSpec(RemoveSpec(s, key).1, article, minSimilarity).1 && key in r.1.threadIdByKey && r.2 == files[fullPath := content])
      && (key in ArticlesOf(s) && ttl ==> r.1 == RemoveSpec(s, key).1 && key !in r.1.threadIdByKey && r.2 == files - {fullPath})
      && (r.0 == 201 ==> (r.2 == files[fullPath := content]
            && r.1 == AddSpec(s, article.(langCode := langCode, category := category), minSimilarity).1
            && (key !in s.threadIdByKey ==> key in r.1.threadIdByKey)
            && (key in s.threadIdByKey ==> r.1 == s)))
      && (key !in ArticlesOf(s) && r.0 == 204 ==> r.1 == s && r.2 == files)
      && Consistent(r.1)
      && r.1.lastArticleTime >= s.lastArticleTime
  {
    var key := article.filenameOnly;
    ArticlesOfMeaning(s);
    if key in ArticlesOf(s) {
      UpdateMeaning(s, article, minSimilarity);
      RemoveMeaning(s, key);
    } else {
      var admitted := Admit(article, langCode, isNews, Some(category));
      if admitted.Some? {
        AddConsistent(s, admitted.value, minSimilarity);
        if key !in s.threadIdByKey {
          AddMeaning(s, admitted.value, minSimilarity);
        }
      }
    }
  }

  /** run_http_removing: an indexed key is removed, its file deleted and
      204 answered; any other key gives 404 and changes nothing. */
  lemma RemovingMeaning(s: ManagerState, files: map<string, string>, fullPath: string, key: string)
    requires Consistent(s)
    ensures var r := RemovingSpec(s, files, fullPath, key);
      && (r.0 == 204 <==> key in ArticlesOf(s))
      && (r.0 == 204 || r.0 == 404)
      && (r.0 == 204 ==> key !in r.1.threadIdByKey && key !in ArticlesOf(r.1) && fullPath !in r.2)
      && (r.0 == 404 ==> r.1 == s && r.2 == files)
      && Consistent(r.1)
  {
    ArticlesOfMeaning(s);
    RemoveMeaning(s, key);
  }

  // ---------------------------------------------------------------------
  // Engine

  class Engine {
    const languageDetector: LanguageDetector
    const categoryClassifier: CategoryClassifier
    const threadManager: ThreadManager
    const indexDir: string
    /** What the Article(content, filename) constructor reads from a
        document's text (published time, short url, header and the two
        token lists); article.h does not define that constructor. */
    const readArticle: string -> ArticleValue
    /** The index directory: the saved content under each full path. */
    var files: map<string, string>

    ghost predicate Valid()
      reads this, threadManager
    {
      threadManager.Valid()
    }

    /** An engine over components already set up; the configuration file
        that Engine(filename) reads is not modelled. */
    constructor (languageDetector: LanguageDetector, categoryClassifier: CategoryClassifier, threadManager: ThreadManager,
                 indexDir: string, files: map<string, string>, readArticle: string -> ArticleValue)
      ensures this.languageDetector == languageDetector && this.categoryClassifier == categoryClassifier
      ensures this.threadManager == threadManager && this.indexDir == indexDir
      ensures this.files == files && this.readArticle == readArticle
    {
      this.languageDetector := languageDetector;
      this.categoryClassifier := categoryClassifier;
      this.threadManager := threadManager;
      this.indexDir := indexDir;
      this.files := files;
      this.readArticle := readArticle;
    }

    /** What detect returns for a token list. */
    function DetectOf(tokens: seq<string>): string {
      DetectSpec(tokens, languageDetector.wordShare, languageDetector.enCommonShare)
    }

    /** The loops of run_http_indexing and run_http_removing over
        get_articles, stopping at the key. */
    method IsAlreadyIndexed(filename: string) returns (isAlreadyIndexed: bool)
      ensures isAlreadyIndexed <==> filename in ArticlesOf(threadManager.State())
    {
      var articles := threadManager.GetArticles();
      isAlreadyIndexed := FindKey(StrKeys(articles), filename);
    }

    /** A search of the keys in order that stops at the first match. */
    static method FindKey(keys: seq<string>, key: string) returns (found: bool)
      ensures found <==> key in keys
    {
      found := false;
      var i := 0;
      while i < |keys|
        invariant 0 <= i <= |keys|
        invariant !found ==> key !in keys[..i]
        invariant found ==> key in keys
      {
        if keys[i] == key {
          found := true;
          break;
        }
        assert keys[..i + 1] == keys[..i] + [keys[i]];
        i := i + 1;
      }
      if !found {
        assert keys[..i] == keys;
      }
    }

    /** What run_http_indexing of the document content under path does
        from state s and directory files. */
    ghost function IndexOutcome(s: ManagerState, files: map<string, string>, path: string, seconds: int, content: string): (int, ManagerState, map<string, string>)
      requires Consistent(s)
      reads categoryClassifier
    {
      var article := NewArticle(readArticle(content), GetFilenameOnly(path));
      var langCode := DetectOf(article.textTk);
      IndexSpec(s, files, GetFullPath(indexDir, GetFilenameOnly(path)), article, seconds,
                langCode, NewsHeader(article.headerTk, langCode), categoryClassifier.ClassifySpec(article.textTk, langCode),
                threadManager.minSimilarity, content)
    }

    /** What run_http_removing of path does from state s and directory
        files. */
    function RemovingOutcome(s: ManagerState, files: map<string, string>, path: string): (int, ManagerState, map<string, string>) {
      RemovingSpec(s, files, GetFullPath(indexDir, GetFilenameOnly(path)), GetFilenameOnly(path))
    }

    /** Engine::run_http_indexing; save_file and remove_file act on the
        directory map. */
    method RunHttpIndexing(path: string, seconds: int, content: string) returns (status: int)
      requires Valid()
      modifies this, threadManager
      ensures Valid()
      ensures (status, threadManager.State(), files) == IndexOutcome(old(threadManager.State()), old(files), path, seconds, content)
    {
      ghost var s := threadManager.State();
      var filename := GetFilenameOnly(path);
      var fullPath := GetFullPath(indexDir, filename);
      var article := NewArticle(readArticle(content), filename);
      var isAlreadyIndexed := IsAlreadyIndexed(filename);
      var lastArticleTime := threadManager.GetAllLastPublishedTime();
      var publishedTime := article.publishedTime;
      var diffTime := publishedTime - lastArticleTime;
      var isTtlExceeded := diffTime > seconds && lastArticleTime > 0;
      if isAlreadyIndexed {
        ArticlesOfMeaning(s);
        status := IndexKnown(article, fullPath, content, isTtlExceeded);
      } else {
        status := IndexNew(article, fullPath, content, isTtlExceeded);
      }
    }

    /** The branch of run_http_indexing for a key already indexed. */
    method IndexKnown(article: ArticleValue, fullPath: string, content: string, isTtlExceeded: bool) returns (status: int)
      requires Valid() && Updatable(threadManager.State(), article.filenameOnly)
      modifies this, threadManager
      ensures Valid()
      ensures (status, threadManager.State(), files) ==
        IndexKnownSpec(old(threadManager.State()), old(files), fullPath, article, isTtlExceeded, threadManager.minSimilarity, content)
    {
      ghost var s := threadManager.State();
      status := 204;
      if !isTtlExceeded {
        var updated := threadManager.Update(article);
        UpdateMeaning(s, article, threadManager.minSimilarity);
        files := files[fullPath := content];
      } else {
        var removed := threadManager.Remove(article.filenameOnly);
        RemoveMeaning(s, article.filenameOnly);
        files := files - {fullPath};
      }
    }

    /** The branch of run_http_indexing for a new key. */
    method IndexNew(article: ArticleValue, fullPath: string, content: string, isTtlExceeded: bool) returns (status: int)
      requires Valid()
      modifies this, threadManager
      ensures Valid()
      ensures var langCode := DetectOf(article.textTk);
        (status, threadManager.State(), files) ==
          IndexNewSpec(old(threadManager.State()), old(files), fullPath, article, isTtlExceeded,
                       langCode, NewsHeader(article.headerTk, langCode), categoryClassifier.ClassifySpec(article.textTk, langCode),
                       threadManager.minSimilarity, content)
    {
      status := 204;
      if !isTtlExceeded {
        var langCode := languageDetector.Detect(article.textTk);
        if langCode == "en" || langCode == "ru" {
          var isNews := IsNews(article.headerTk, langCode);
          if isNews {
            var admitted := article.(langCode := langCode);
            var category := categoryClassifier.Classify(admitted.textTk, langCode);
            admitted := admitted.(category := category);
            assert Admit(article, langCode, NewsHeader(article.headerTk, langCode), Some(category)) == Some(admitted);
            status := AddAdmitted(admitted, fullPath, content);
          }
        }
      }
    }

    /** The admitted article goes to add and its content to save_file. */
    method AddAdmitted(admitted: ArticleValue, fullPath: string, content: string) returns (status: int)
      requires Valid()
      modifies this, threadManager
      ensures Valid()
      ensures status == 201
      ensures threadManager.State() == AddSpec(old(threadManager.State()), admitted, threadManager.minSimilarity).1
      ensures files == old(files)[fullPath := content]
    {
      ghost var s := threadManager.State();
      var added := threadManager.Add(admitted);
      AddConsistent(s, admitted, threadManager.minSimilarity);
      files := files[fullPath := content];
      status := 201;
    }

    /** Engine::run_http_removing. */
    method RunHttpRemoving(path: string) returns (status: int)
      requires Valid()
      modifies this, threadManager
      ensures Valid()
      ensures (status, threadManager.State(), files) == RemovingOutcome(old(threadManager.State()), old(files), path)
    {
      ghost var s := threadManager.State();
      var filename := GetFilenameOnly(path);
      var fullPath := GetFullPath(indexDir, filename);
      var isAlreadyIndexed := IsAlreadyIndexed(filename);
      RemovingMeaning(s, files, fullPath, filename);
      if isAlreadyIndexed {
        var removed := threadManager.Remove(filename);
        files := files - {fullPath};
        status := 204;
      } else {
        status := 404;
      }
    }

    /** Engine::run_http_ranking, with the clock reading passed in; the
        JSON body is the list of entries. */
    method RunHttpRanking(period: int, langCode: string, category: string, timeNow: int) returns (status: int, ranked: seq<RankedArticles>)
      ensures status == 200
      ensures ranked == RankingSpec(threadManager.threads, period, langCode, category, timeNow)
    {
      status := 200;
      var threads := threadManager.GetThreads();
      var ids := IntKeys(threads);
      var found: seq<RankedArticles> := [];
      var i := 0;
      while i < |ids|
        invariant 0 <= i <= |ids|
        invariant found == RankedFrom(threads, ids[..i], period, langCode, category, timeNow)
      {
        RankedFromStep(threads, ids, i, period, langCode, category, timeNow);
        var kept, entry := RankThread(ids[i], period, langCode, category, timeNow);
        if kept {
          found := found + [entry];
        }
        i := i + 1;
      }
      assert ids[..i] == ids;
      ranked := SortDesc(found, RankedSize);
    }

    /** The body of the ranking loop for one thread. */
    method RankThread(threadIndex: int, period: int, langCode: string, category: string, timeNow: int) returns (kept: bool, entry: RankedArticles)
      requires threadIndex in threadManager.threads
      ensures kept == Kept(threadManager.threads[threadIndex], period, langCode, category, timeNow)
      ensures kept ==> entry == RankedOf(threadManager.threads[threadIndex])
    {
      kept := false;
      entry := RankedArticles("", "", []);
      var lastPublishedTime := threadManager.GetLastPublishedTime(threadIndex);
      var diffTime := timeNow - lastPublishedTime;
      if diffTime > period {
        return;
      }
      var langCodeNow := threadManager.GetThreadLangCode(threadIndex);
      if langCode != langCodeNow {
        return;
      }
      var categoryNow := threadManager.GetThreadCategory(threadIndex);
      if category != "any" && category != categoryNow {
        return;
      }
      var title := threadManager.GetThreadTitle(threadIndex);
      var articleKeys := threadManager.threads[threadIndex].GetArticleKeys();
      kept := true;
      entry := RankedArticles(title, categoryNow, articleKeys);
    }

    /** The manager's state after the articles read from the index have
        been passed, one after another, to add: the ones detected as en
        or ru and read as news, with their language and, when
        withCategory holds, their category set. */
    ghost function LoadSpec(s: ManagerState, documents: seq<ArticleValue>, withCategory: bool): ManagerState
      reads categoryClassifier
    {
      if documents == [] then s
      else LoadStep(LoadSpec(s, documents[..|documents| - 1], withCategory), documents[|documents| - 1], withCategory)
    }

    /** The state after one article read from the index has been offered
        to add. */
    ghost function LoadStep(before: ManagerState, a: ArticleValue, withCategory: bool): ManagerState
      reads categoryClassifier
    {
      var langCode := DetectOf(a.textTk);
      var category := if withCategory then Some(categoryClassifier.ClassifySpec(a.textTk, langCode)) else None;
      var admitted := Admit(a, langCode, NewsHeader(a.headerTk, langCode), category);
      if admitted.Some? then AddSpec(before, admitted.value, threadManager.minSimilarity).1 else before
    }

    /** Loading keeps the manager consistent, loses no filed key and never
        lowers last_article_time. */
    lemma {:induction false} LoadMeaning(s: ManagerState, documents: seq<ArticleValue>, withCategory: bool)
      requires Consistent(s)
      ensures var r := LoadSpec(s, documents, withCategory);
        && Consistent(r)
        && (forall k :: k in s.threadIdByKey ==> k in r.threadIdByKey)
        && r.lastArticleTime >= s.lastArticleTime
    {
      if documents != [] {
        var init := documents[..|documents| - 1];
        LoadMeaning(s, init, withCategory);
        var before := LoadSpec(s, init, withCategory);
        var a := documents[|documents| - 1];
        var langCode := DetectOf(a.textTk);
        var category := if withCategory then Some(categoryClassifier.ClassifySpec(a.textTk, langCode)) else None;
        var admitted := Admit(a, langCode, NewsHeader(a.headerTk, langCode), category);
        if admitted.Some? {
          AddConsistent(before, admitted.value, threadManager.minSimilarity);
          if admitted.value.filenameOnly !in before.threadIdByKey {
            AddMeaning(before, admitted.value, threadManager.minSimilarity);
          }
        }
      }
    }

    /** One article of the loading loops. */
    method LoadArticle(article: ArticleValue, withCategory: bool)
      modifies threadManager
      ensures threadManager.State() == LoadStep(old(threadManager.State()), article, withCategory)
    {
      var langCode := languageDetector.Detect(article.textTk);
      if langCode == "en" || langCode == "ru" {
        var isNews := IsNews(article.headerTk, langCode);
        if isNews {
          var loaded := article;
          if withCategory {
            var category := categoryClassifier.Classify(article.textTk, langCode);
            loaded := loaded.(category := category);
          }
          loaded := loaded.(langCode := langCode);
          var added := threadManager.Add(loaded);
        }
      }
    }

    /** The loops of run_http_loading and run_cli_threads over the
        articles read from a directory, taken one after another. */
    method LoadAll(documents: seq<ArticleValue>, withCategory: bool)
      requires Valid()
      modifies threadManager
      ensures Valid()
      ensures threadManager.State() == LoadSpec(old(threadManager.State()), documents, withCategory)
    {
      ghost var s := threadManager.State();
      var i := 0;
      while i < |documents|
        invariant 0 <= i <= |documents|
        invariant threadManager.State() == LoadSpec(s, documents[..i], withCategory)
      {
        LoadArticle(documents[i], withCategory);
        assert documents[..i + 1][..i] == documents[..i];
        i := i + 1;
      }
      assert documents[..i] == documents;
      LoadMeaning(s, documents, withCategory);
    }

    /** Engine::run_http_loading over the articles the index directory
        holds. */
    method RunHttpLoading(documents: seq<ArticleValue>) returns (r: int)
      requires Valid()
      modifies threadManager
      ensures Valid() && r == 1
      ensures threadManager.State() == LoadSpec(old(threadManager.State()), documents, true)
    {
      LoadAll(documents, true);
      r := 1;
    }

    /** Engine::run_cli_threads over the articles of the source directory;
        the JSON text is the sorted list. */
    method RunCliThreads(documents: seq<ArticleValue>) returns (articles: seq<ThreadArticles>)
      requires Valid()
      modifies threadManager
      ensures Valid()
      ensures threadManager.State() == LoadSpec(old(threadManager.State()), documents, false)
      ensures articles == ThreadListSpec(threadManager.threads)
    {
      LoadAll(documents, false);
      var listed := ListThreads();
      articles := SortDesc(listed, ThreadSize);
    }

    /** The listing loop of run_cli_threads, in thread id order. */
    method ListThreads() returns (listed: seq<ThreadArticles>)
      ensures listed == ThreadListFrom(threadManager.threads, IntKeys(threadManager.threads))
    {
      var threads := threadManager.GetThreads();
      var ids := IntKeys(threads);
      listed := [];
      var j := 0;
      while j < |ids|
        invariant 0 <= j <= |ids|
        invariant listed == ThreadListFrom(threads, ids[..j])
      {
        ThreadListStep(threads, ids, j);
        var title := threadManager.GetThreadTitle(ids[j]);
        var articleKeys := threads[ids[j]].GetArticleKeys();
        listed := listed + [ThreadArticles(title, articleKeys)];
        j := j + 1;
      }
      assert ids[..j] == ids;
    }
  }
}
