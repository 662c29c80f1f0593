/** The article record of include/article.h: the fields the pipeline reads
    from one HTML document, plus the language, thread and category the
    engine assigns to it later. */
module Articles {
  import opened NlpUtils
  import opened Html

  /** A copy of an article, as a std::map<std::string, Article> stores it. */
  datatype ArticleValue = ArticleValue(
    filenameOnly: string,
    publishedTime: int,
    shortUrl: string,
    headerRaw: string,
    headerTk: seq<string>,
    textTk: seq<string>,
    langCode: string,
    threadIndex: int,
    category: string)

  /** Article(): every string and vector empty. The source leaves
      published_time and thread_index uninitialized; they read as 0 here. */
  const DEFAULT_ARTICLE := ArticleValue("", 0, "", "", [], [], "", 0, "")

  class Article {
    var filenameOnly: string
    var publishedTime: int
    var shortUrl: string
    var headerRaw: string
    var headerTk: seq<string>
    var textTk: seq<string>
    var langCode: string
    var threadIndex: int
    /** The category the engine assigns: "other" from the file
        constructor until then, "" in the empty article. */
    var category: string

    /** The article as a copy of its fields. */
    function Value(): ArticleValue
      reads this
    {
      ArticleValue(filenameOnly, publishedTime, shortUrl, headerRaw, headerTk, textTk, langCode, threadIndex, category)
    }

    /** Article(). */
    constructor Empty()
      ensures Value() == DEFAULT_ARTICLE
    {
      filenameOnly, publishedTime, shortUrl, headerRaw := "", 0, "", "";
      headerTk, textTk := [], [];
      langCode, threadIndex, category := "", 0, "";
    }

    /** Article(path, filename_only), given the document the path holds and
        the date parser get_published_time uses. */
    constructor (htmlDocument: HtmlDocument, filenameOnly: string, extractDatetime: string -> int)
      ensures this.filenameOnly == filenameOnly
      ensures publishedTime == htmlDocument.GetPublishedTime(extractDatetime)
      ensures shortUrl == htmlDocument.GetShortUrl()
      ensures headerRaw == htmlDocument.GetHeader()
      ensures headerTk == PunctTokens(htmlDocument.GetHeader())
      ensures textTk == PunctTokens(Terminated(ParagraphContents(htmlDocument.FindByTag("p"))))
      ensures langCode == "other" && threadIndex == -1 && category == "other"
    {
      this.filenameOnly := filenameOnly;
      publishedTime := htmlDocument.GetPublishedTime(extractDatetime);
      shortUrl := htmlDocument.GetShortUrl();
      headerRaw := htmlDocument.GetHeader();
      var textRaw := htmlDocument.GetText();
      var headerTokens := TokenizeWithPunctuation(htmlDocument.GetHeader());
      var textTokens := TokenizeWithPunctuation(textRaw);
      headerTk, textTk := headerTokens, textTokens;
      langCode := "other";
      threadIndex := -1;
      category := "other";
    }

    /** set_thread_index: get_thread_index reads the value back and no
        other field changes. */
    method SetThreadIndex(threadIndex: int)
      modifies this
      ensures this.threadIndex == threadIndex
      ensures Value() == old(Value()).(threadIndex := threadIndex)
    {
      this.threadIndex := threadIndex;
    }

    /** set_lang_code: get_lang_code reads the value back and no other
        field changes. */
    method SetLangCode(langCode: string)
      modifies this
      ensures this.langCode == langCode
      ensures Value() == old(Value()).(langCode := langCode)
    {
      this.langCode := langCode;
    }

    /** set_category, which the engine calls. */
    method SetCategory(category: string)
      modifies this
      ensures this.category == category
      ensures Value() == old(Value()).(category := category)
    {
      this.category := category;
    }
  }
}
