# dc2-rebuilt news clustering core, modelled in Dafny

This is a model of the C++ news engine *dc2-rebuilt*, with proofs about it. The engine:

- reads HTML news articles;
- tokenizes their headers and text;
- detects their language;
- decides whether the header reads as news;
- assigns a category from keyword tables;
- files every admitted article into a *thread*, a cluster of articles about one story.

A thread is chosen by header-token overlap. An HTTP front end queues index, remove and rank requests. A worker answers each one with a status code, and for rank requests with the ranked threads.

The model follows the source file by file. Each module is one header:

| module | header | form |
|---|---|---|
| `Utils` | include/utils.h | functions; loops as methods proved against functions |
| `Ordering` | `std::map` key order and `std::sort` with the two `operator<` | strict total order on strings, sorted keys, a descending sort |
| `NlpUtils` | include/nlp_utils.h | `tokenize`, `tokenize_with_punctuation`, `get_token_type` as methods with loop invariants; `tolower` and `make_stemming` as functions |
| `News` | include/news_detector.h | `is_news` as one loop over the header tokens |
| `Languages` | include/lang_detector.h | class `LanguageDetector` |
| `Categories` | include/category_classifier.h | class `CategoryClassifier` |
| `Stopwords` | include/stopword_filter.h | class `StopwordFilter` |
| `Html` | include/html_parser.h | `HtmlNode` queries as recursive functions; classes `HtmlParser` (a cursor `nodeIndex`) and `HtmlDocument` |
| `Articles` | include/article.h | class `Article`; the datatype `ArticleValue` for the copies maps hold |
| `Threads` | include/thread_manager.h | datatype `Thread`; class `ThreadManager`, proved against the state machine `AddSpec` / `RemoveSpec` / `UpdateSpec` on `ManagerState` |
| `Engines` | include/engine.h | class `Engine`: indexing, removing, ranking, loading, thread listing |
| `Http` | include/http_manager.h | classes `RequestQueue`, `ResponseQueue`, `HttpManager`, and one sequential worker step |

**Invariant.** `Threads.Consistent` is the invariant of the clustering state:

- every thread id, stored or filed under a key, lies in [0, `lastThreadId`);
- every article stored in a thread is filed under that thread's id;
- both counters are non-negative;
- no stored article is later than `lastArticleTime`.

Add, remove, update, indexing, removing, loading and the worker step are each proved to keep it.

**Where the source disagrees with itself.** The model resolves each case as follows.

- **ThreadManager constructor.** include/engine.h:136 calls a two-argument constructor. include/thread_manager.h:147 defines one that takes only the similarity threshold. `Threads.ThreadManager.constructor` takes both and ignores the token-count argument.
- **Missing accessors.** include/engine.h calls accessors that include/thread_manager.h does not define:
  - `get_threads`, `get_articles`;
  - `get_thread_title`, `get_thread_lang_code`, `get_thread_category`;
  - `get_last_published_time(id)`.

  They are thin reads of `threads` and of the `Thread` queries.
- **Category field.** `Article` has no category field in include/article.h, yet include/engine.h:356 and include/thread_manager.h:118 use one. The model adds it. The file constructor sets it to "other", and the empty article `Article()` has "", the value of a default-constructed string.

## Model

| member | source | states |
|---|---|---|
| Utils.GetFullPath | include/utils.h:30-35 | The full path is the directory, one '/', then the file name. |
| Utils.GetFilenameOnly | include/utils.h:125-128 | The result is the longest suffix free of '/' and '\\'. The character before it, if any, is a separator. |
| Utils.FilenameOfFullPath | include/utils.h:125-128 | `get_filename_only` undoes `get_full_path` for a separator-free file name. |
| Utils.FindAll | include/utils.h:54-66 | Positions are strictly increasing and are exactly the start positions of the substring, overlapping matches included. |
| Utils.GetAllOccurences | include/utils.h:87-99 | Positions are strictly increasing and are exactly the positions holding the character. |
| Utils.GetSubstrInclusive | include/utils.h:68-71 | With a size_t end index, `get_substr(s, b, e)` is the inclusive slice s[b..e]; e = b - 1 gives the empty string. |
| Utils.GetSubstr | include/utils.h:68-71 | The result is a prefix of the text from the begin index. Its length is end - begin + 1 taken modulo 2^64 (size_t), cut off at the end of the text. |
| Utils.ReplaceWith | include/utils.h:73-76 | A replacement as long as the pattern keeps the length of the text. |
| Utils.ReplaceWithoutMatch | include/utils.h:73-76 | A text in which the pattern does not occur is returned unchanged. |
| Utils.ReplaceKeepsPrefix | include/utils.h:73-76 | The scan goes left to right: a stretch with no match starting in it is copied unchanged ahead of the rest. |
| Utils.ReplaceAtMatch | include/utils.h:73-76 | At a match the result is the replacement followed by the rest scanned after the whole match, so matches never overlap. |
| Utils.ReplaceLeavesNoMatch | include/utils.h:73-76 | With a non-empty replacement that shares no character with the pattern, no match is left anywhere in the result. |
| Utils.ReplaceCharWise | include/utils.h:73-76 | Replacing a one-character pattern with one character keeps the length and changes exactly the matching positions. |
| Utils.GetIndexByValue | include/utils.h:130-143 | The result is the first index holding the value, or -1 exactly when the value is absent. |
| Utils.MaxPairCorrect | include/utils.h:145-161 | The best count is at least every count. It is positive iff some count is positive, and its key is then present with that count. With no positive count the key is "". No earlier key reaches the best count. |
| Utils.GetPairByMaxValue | include/utils.h:145-161 | The loop with the running maximum returns the pair `MaxPair` describes: the first key in map order with the largest positive count, else ("", 0). |
| Utils.RemoveIfExists | include/utils.h:163-177 | The flag says whether the element was present. Only its first occurrence is removed; the multiset loses exactly one copy. An absent element leaves the vector unchanged. |
| Utils.RemoveMapElemIfExists | include/utils.h:179-193 | The flag says whether the key was present. Afterwards the key is absent and every other entry is unchanged. |
| Ordering.StrLessStrictTotal | include/thread_manager.h:39-49 | The lexicographic order of std::string keys, the order in which every std::map with string keys is walked, is irreflexive, transitive and total. |
| Ordering.StrKeys | include/thread_manager.h:39-49 | A map's keys in iteration order: each key once, strictly increasing. |
| Ordering.InsertDesc | include/engine.h:60-63 | Inserting into a list ordered by non-increasing size keeps that order and adds exactly the element. |
| Ordering.SortDesc | include/engine.h:439 | The sort with `operator<` ("more articles first") gives a permutation ordered by non-increasing article count. |
| NlpUtils.Tokenize | include/nlp_utils.h:15-39 | `tokenize` returns `Tokens(text, delimiter)`: the split pieces with the empty ones erased. |
| NlpUtils.SplitPieces | include/nlp_utils.h:17-28 | The find/substr loop yields the pieces between delimiters, the last piece included. |
| NlpUtils.EraseEmpty | include/nlp_utils.h:31-37 | The backward erase loop removes exactly the empty tokens and keeps the order. |
| NlpUtils.TokensCorrect | include/nlp_utils.h:15-39 | No token is empty or holds the delimiter. The tokens, concatenated, are the text without its delimiters. |
| NlpUtils.SplitJoin | include/nlp_utils.h:17-28 | Joining the pieces with the delimiter gives back the text. |
| NlpUtils.LinesJoin | include/category_classifier.h:101-119 | The lines hold no newline and, joined with newlines, give back the text (bar a final newline). |
| NlpUtils.TokenizeWithPunctuation | include/nlp_utils.h:41-63 | The position-collecting, sorting and insertion loops return `PunctTokens(text)`: newlines become spaces, every listed sign is wrapped in spaces, then the text is tokenized on spaces. |
| NlpUtils.SpacedIsolates | include/nlp_utils.h:54-60 | After the insertion, every listed sign has a space on each side. |
| NlpUtils.PunctTokensShape | include/nlp_utils.h:41-63 | Every token is non-empty and free of spaces and newlines. It is either a single listed sign or holds none. |
| NlpUtils.PunctTokensConcat | include/nlp_utils.h:41-63 | The tokens, concatenated, are the text with its spaces and newlines removed. |
| NlpUtils.GetTokenType | include/nlp_utils.h:67-116 | A single punctuation character is Punctuation. Otherwise the first of these that covers every lowered character wins: Latin a-z, Cyrillic а-я (ё excluded), digits. Anything else is Other. The empty token is Latin. |
| NlpUtils.ToLower | include/nlp_utils.h:140-147 | The length is kept and every character is lowered in place. |
| NlpUtils.ToLowerIdempotent | include/nlp_utils.h:140-147 | Lowering twice is lowering once. |
| NlpUtils.MakeStemming | include/nlp_utils.h:118-138 | For en and ru every word goes through the stemmer. Other languages keep their words. |
| News.IsNews | include/news_detector.h:28-147 | The result is true iff no token triggers. A trigger, outside quotes, is one of: a '!' or '?'; a word whose first-lowered form is a stopword; the first script-matching word when it is a first-word stopword. |
| News.ReadToken | include/news_detector.h:36-143 | One loop iteration stops exactly at a trigger. Otherwise it keeps the quote parity and the first-word flag. |
| News.QuoteToggles | include/news_detector.h:42-57 | Every quote mark, » included, flips the in-quote state. Other tokens keep it. |
| News.OtherLanguageTriggers | include/news_detector.h:96-119 | For languages other than en and ru only '!' and '?' outside quotes trigger. |
| News.StopwordTriggers | include/news_detector.h:88-108 | A stopword outside quotes triggers wherever it stands. |
| News.QuotedWordsIgnored | include/news_detector.h:79-82 | A word inside quotes never triggers. |
| Languages.TruncTowardZero | include/lang_detector.h:51 | The conversion of `all_count * word_share` to int truncates toward zero. |
| Languages.LanguageDetector.Detect | include/lang_detector.h:25-69 | `detect` returns `DetectSpec`, which is always en, ru or other, chosen as follows. If en_count > min_share, then en when is_language_en holds, else other. Otherwise, if en_count + ru_count > min_share, then ru exactly when is_language_ru holds. Otherwise other. |
| Languages.LanguageDetector.CountScripts | include/lang_detector.h:32-49 | Counts Latin tokens, Cyrillic tokens, and tokens that are neither a number nor punctuation. |
| Languages.LanguageDetector.IsLanguageEn | include/lang_detector.h:71-91 | True iff the share of tokens equal to a common English word exceeds en_common_share. With all_count zero this is the C++ division result. |
| Languages.LanguageDetector.IsLanguageRu | include/lang_detector.h:93-118 | False exactly when some token's first 'ъ' is interior with a non-vowel on each side. |
| Languages.LanguageDetector.constructor | include/lang_detector.h:15-23 | The two thresholds are those given; the word tables are the constants of the source. |
| Languages.ScriptCountsBounded | include/lang_detector.h:32-49 | en_count + ru_count <= all_count <= number of tokens. |
| Languages.AnswerNeedsScript | include/lang_detector.h:53-66 | A ru answer needs a Cyrillic token. With a non-negative share, an en answer needs a Latin token. |
| Languages.NoWordsIsOther | include/lang_detector.h:25-69 | Text of numbers and punctuation only is "other". |
| Languages.OnlyFirstHardSign | include/lang_detector.h:100-112 | Only the first 'ъ' of a token is examined: "ъсъс" passes although its second 'ъ' sits between consonants. |
| Categories.LineStep | include/category_classifier.h:101-119 | A one-token line sets the current category and adds no keyword. Any other line maps each of its stemmed tokens, in order, to the current category. |
| Categories.HeaderLine | include/category_classifier.h:107-110 | A one-token line switches the current category to that token. |
| Categories.PairsToMapKeys | include/category_classifier.h:112-117 | A word is a keyword iff some line produced it. |
| Categories.PairsToMapLastWins | include/category_classifier.h:112-117 | A keyword maps to the category of its last occurrence; later lines overwrite earlier ones. |
| Categories.PairsToMapValues | include/category_classifier.h:112-117 | Every keyword maps to a category the file produced. |
| Categories.FirstMatch | include/category_classifier.h:54-70 | The keyword search returns the first keyword in key order that is a prefix of the token and long enough; earlier keywords do not match. |
| Categories.CategoryOfMeaning | include/category_classifier.h:44-75 | A token counts toward some category iff its script suits the language and some keyword matches it. |
| Categories.CategoryOfLeastKeyword | include/category_classifier.h:54-75 | A counted token counts toward the category of the least matching keyword in key order. |
| Categories.TallyCount | include/category_classifier.h:72-75 | After the loop, a category's counter is its starting value plus the number of tokens counted toward it. |
| Categories.CategoryClassifier.constructor | include/category_classifier.h:22-29 | The keyword tables are the en and ru files' pairs. The known categories are those the two files produce. |
| Categories.CategoryClassifier.ReadKeywords | include/category_classifier.h:93-122 | The line loop returns the map of the file's pairs, and the known categories grow by the file's categories. |
| Categories.CategoryClassifier.ReadLine | include/category_classifier.h:103-118 | One line of read_keywords advances the current category, the table and the known categories, as `LineStep` describes. |
| Categories.CategoryClassifier.AddKeywords | include/category_classifier.h:112-117 | The inner loop stores every word of the line under the current category. |
| Categories.CategoryClassifier.ZeroCounter | include/category_classifier.h:35-38 | Every known category starts at zero. |
| Categories.CategoryClassifier.MatchKeyword | include/category_classifier.h:54-70 | The search over the language's keywords finds exactly `FirstMatch`, and its category. |
| Categories.CategoryClassifier.MatchKeywordIn | include/category_classifier.h:54-70 | The same for any key list drawn from the table. |
| Categories.CategoryClassifier.CountToken | include/category_classifier.h:44-75 | One token bumps the counter of its category, or leaves the counters alone. |
| Categories.CategoryClassifier.Classify | include/category_classifier.h:31-90 | `classify` returns `ClassifySpec`: the best pair of the tally if its count exceeds min_token_count, else "other". |
| Categories.CategoryClassifier.ClassifyMeaning | include/category_classifier.h:78-89 | The result is "other", or a known category counted more than the minimum and at least as often as every other. |
| Categories.CategoryClassifier.CounterIsCounts | include/category_classifier.h:35-75 | The final counter holds exactly the known categories, each with its number of counted tokens. |
| Categories.CategoryClassifier.ClassifyFindsFrequent | include/category_classifier.h:78-89 | If some category is counted above the minimum, the result is a category counted at least as often. |
| Stopwords.FilteredMembers | include/stopword_filter.h:22-70 | A token is kept iff one of two holds. Either it is a number. Or it passes the language's script test (en: Latin; ru: Latin or Cyrillic; others: any) and is not a stopword. |
| Stopwords.FilteredConcat | include/stopword_filter.h:22-70 | Filtering distributes over concatenation, so the output is an order-preserving subsequence. |
| Stopwords.FilteredIdempotent | include/stopword_filter.h:22-70 | Filtering twice is filtering once. |
| Stopwords.FilteredAllKept | include/stopword_filter.h:22-70 | Input whose tokens all pass comes out unchanged. |
| Stopwords.OtherLanguageUnfiltered | include/stopword_filter.h:33-47 | A language without a stopword list keeps everything. |
| Stopwords.StopwordFilter.constructor | include/stopword_filter.h:16-20 | The stopword lists are the lines of the en and ru files. |
| Stopwords.StopwordFilter.ReadStopwords | include/stopword_filter.h:73-85 | The stopwords are the file's lines. |
| Stopwords.StopwordFilter.FilterStopwords | include/stopword_filter.h:22-70 | The loop with its continues returns `Filtered` for the language's list. |
| Html.SingleNode | include/html_parser.h:19-27 | A single node has a name and attributes, no children and no content. |
| Html.ContentNode | include/html_parser.h:29-37 | A content node has a name, attributes and content, and no children. |
| Html.ParentNode | include/html_parser.h:39-47 | A node built from subnodes gets empty attributes, whatever attributes were passed. |
| Html.AttrValue | include/html_parser.h:67-86 | A missing attribute reads as "". |
| Html.HtmlNode.FindByTag | include/html_parser.h:49-65 | A node is found iff it lies strictly below this node and has the name. |
| Html.HtmlNode.FindByAttr | include/html_parser.h:67-86 | A node is found iff it lies strictly below this node, has the tag name, and its attribute reads as the value (a missing attribute as ""). |
| Html.HtmlNode.FindContent | include/html_parser.h:88-104 | Every content found is non-empty, and the node's own non-empty content comes first. |
| Html.FindByTagIsPreorder | include/html_parser.h:49-65 | `find_by_tag` returns the strict descendants with the name, in pre-order. |
| Html.FindByAttrIsPreorder | include/html_parser.h:67-86 | `find_by_attr` returns the strict descendants with the tag and attribute value, in pre-order. |
| Html.FindContentIsPreorder | include/html_parser.h:88-104 | `find_content` returns the non-empty contents of the node and its descendants, in pre-order. |
| Html.FindByTagInForest | include/html_parser.h:49-65 | Over a list of nodes, the recursive search is a selection of the pre-order forest. |
| Html.CharPositionsMeaning | include/html_parser.h:124-125 | The '<', '>' and '"' position lists are increasing and hold exactly the positions of the character. |
| Html.MaskAfterMeaning | include/html_parser.h:236-246 | The quote mask marks exactly the positions from an opening quote up to, but not including, its closing quote: the half-open span that `fill` covers. |
| Html.BoundsMeaning | include/html_parser.h:249-262 | The split points are -1, the unquoted spaces, then the end; spaces inside quotes do not split. |
| Html.HasValueMeaning | include/html_parser.h:265-279 | An attribute is kept iff it holds two quote marks; one with fewer is dropped. |
| Html.ValueBetweenQuotes | include/html_parser.h:265-279 | The value is the text between the first two quote marks. |
| Html.AttributesUnquoted | include/html_parser.h:231-282 | No stored value holds a quote mark. |
| Html.NameAttrName | include/html_parser.h:211-229 | The name is the tag text before its first space, or all of it. |
| Html.NameAttrAttributes | include/html_parser.h:211-229 | Attributes are parsed from the text after the first space, and there are none without a space. |
| Html.ScanForMeaning | include/html_parser.h:117-149 | Two flags per tag. `isLessSignClosing[i]` holds iff the character after the i-th '<' is '/'. `isMoreSignClosing[i]` holds iff the character before the i-th '>' is '/'. Every "<br/>" becomes a newline first. The text must meet `BracketsReadable`: at least as many '>' as '<', and none of the '>' read from at position 0. |
| Html.ParseTagOpen | include/html_parser.h:186-205 | An opening tag parses its level below. An empty level gives a content node holding the text between the tags; a non-empty one gives a parent node. |
| Html.PreparedHasNoBreak | include/html_parser.h:121-122 | The text the parser works on holds no "<br/>". |
| Html.ParseHtml | include/html_parser.h:151-156 | A text with at most one '<' after the "<br/>" replacement has no nodes, because the parse starts after the first tag. |
| Html.HtmlParser.constructor | include/html_parser.h:117-149 | The parser's scan and tag texts are those of the prepared text. |
| Html.HtmlParser.LessSignFlags | include/html_parser.h:131-137 | The flag loop sets each '<' flag from the character after it. |
| Html.HtmlParser.MoreSignFlags | include/html_parser.h:142-148 | The flag loop sets each '>' flag from the character before it. |
| Html.HtmlParser.Parse | include/html_parser.h:151-156 | `parse` returns the top level, parsed from the tag after the first. |
| Html.HtmlParser.ParseSubnodes | include/html_parser.h:159-209 | The cursor loop returns the level of `ParseFrom` and leaves the cursor where it ends. |
| Html.HtmlParser.ParseTagAt | include/html_parser.h:163-206 | One tag either closes the open one, leaving the cursor, or yields the nodes of `ParseTag`. |
| Html.HtmlParser.ParseClosingTag | include/html_parser.h:165-178 | A closing tag ends the level iff it names the open tag; any other is skipped. |
| Html.HtmlParser.ParseSingleTag | include/html_parser.h:179-185 | A self-closing tag yields one single node. |
| Html.HtmlParser.ParseOpenTag | include/html_parser.h:186-205 | An opening tag yields its content or parent node, as `ParseTagOpen` describes. |
| Html.HtmlParser.ReadTag | include/html_parser.h:188 | `get_name_attr` over the text of an opening tag gives that tag's name and attributes. |
| Html.HtmlParser.OpenTagNodes | include/html_parser.h:192-203 | Once the level below an opening tag is parsed, the nodes built are the ones `ParseTag` gives: a parent node over a non-empty level, or else a content node with the text between the '>' before the next tag and that tag's '<'. |
| Html.HtmlParser.GetNameAttr | include/html_parser.h:211-229 | Returns the name and attributes of the tag text. |
| Html.HtmlParser.GetAttributes | include/html_parser.h:231-282 | Returns the attributes of the text after the name. |
| Html.HtmlParser.FillQuoteMask | include/html_parser.h:236-246 | The fill loop marks the inside of every complete quote pair. |
| Html.HtmlParser.UnquotedSpaces | include/html_parser.h:249-258 | The space loop keeps exactly the unmasked spaces, in order. |
| Html.HtmlParser.ExtractAttributes | include/html_parser.h:265-279 | The piece loop stores each piece's name and value, later pieces overwriting earlier ones. |
| Html.HtmlParser.PieceAt | include/html_parser.h:267-268 | One piece is the text between two split points. |
| Html.HtmlParser.SplitAttr | include/html_parser.h:269-277 | The name is the text before '='. The value is stored only with two quote marks. |
| Html.TerminatedJoin | include/html_parser.h:358-372 | The text is empty iff there are no contents; otherwise it is the contents joined by newlines plus a final newline. |
| Html.HtmlDocument.GetText | include/html_parser.h:358-372 | The loop over the p nodes returns every content line with its newline. |
| Html.HtmlDocument.ContentLines | include/html_parser.h:360-369 | The outer loop appends the contents of each node in turn. |
| Html.HtmlDocument.AppendLines | include/html_parser.h:363-367 | The inner loop appends each content and a newline. |
| Html.HtmlDocument.QueriesMeaning | include/html_parser.h:374-402 | An invalid (empty) document finds nothing. A valid one searches the descendants of its first node. |
| Html.HtmlDocument.HeaderIsFirstH1 | include/html_parser.h:343-356 | The header is the content of the first h1, or "". |
| Html.HtmlDocument.ShortUrlMeaning | include/html_parser.h:319-341 | The short url is "" or the second non-empty '/'-piece of the og:url content, and it holds no '/'. An invalid document has none. |
| Html.HtmlDocument.TextMeaning | include/html_parser.h:358-372 | Every text line is a non-empty content of the p nodes; an invalid document has no text. |
| Html.HtmlDocument.constructor | include/html_parser.h:298-302 | The nodes are the top level `ParseHtml` gives for the text. |
| Html.HtmlDocument.FindByTag | include/html_parser.h:374-384 | A document without nodes finds nothing. Otherwise a node is found iff it lies below the first node and has the name. |
| Html.HtmlDocument.FindByAttr | include/html_parser.h:386-396 | A document without nodes finds nothing. Otherwise a node is found iff it lies below the first node, has the tag name, and its attribute reads as the value. |
| Html.HtmlDocument.GetHeader | include/html_parser.h:343-356 | A non-empty header is the content of an h1 below the first node. Without an h1, or without nodes, it is "". |
| Html.HtmlDocument.GetShortUrl | include/html_parser.h:319-341 | The short url holds no '/', and a document without nodes has none. |
| Html.HtmlDocument.GetPublishedTime | include/html_parser.h:304-317 | A document without nodes gives 0. A non-zero time is the converted content of a meta node below the first node whose property is article:published_time. |
| Articles.Article.Empty | include/article.h:20 | The strings and token lists are empty and the category is "". The published time and thread index, uninitialised in the source, are 0. |
| Articles.Article.constructor | include/article.h:22-37 | The fields read from the document: file name, time, short url and raw header. Header and text tokens are `tokenize_with_punctuation` of the raw header and raw text. Language "other", thread -1, category "other". |
| Articles.Article.SetThreadIndex | include/article.h:69-77 | The thread index becomes the value set; no other field changes. |
| Articles.Article.SetLangCode | include/article.h:79-87 | The language becomes the value set; no other field changes. |
| Articles.Article.SetCategory | include/engine.h:356 | The category becomes the value set; no other field changes. |
| Threads.Thread.Put | include/thread_manager.h:24-32 | add and update store the article under its key and touch no other key. |
| Threads.Thread.Remove | include/thread_manager.h:34-37 | Removal reports presence, leaves the key absent, and touches no other key. |
| Threads.Thread.GetArticleKeys | include/thread_manager.h:39-49 | The keys in map order, each once. |
| Threads.Thread.GetArticleByKey | include/thread_manager.h:51-61 | The stored article, or the default article for a missing key. |
| Threads.PushKeys | include/thread_manager.h:39-49 | The push-back loop yields exactly the keys it visits, in order. |
| Threads.LatestTimeOf | include/thread_manager.h:75-90 | The loop's running maximum from 0 over the keys is the one `LatestFrom` defines. |
| Threads.Thread.GetLastPublishedTime | include/thread_manager.h:75-90 | The running-maximum loop returns `LastPublishedTime`. |
| Threads.Thread.GetTitle | include/thread_manager.h:92-109 | The loop returns `Title`. |
| Threads.Thread.GetCategory | include/thread_manager.h:111-131 | The counting loop and the best pair return `Category`. |
| Threads.NewThread | include/thread_manager.h:18-22 | A new thread holds exactly the one article. |
| Threads.LatestMeaning | include/thread_manager.h:75-109 | The last time is the maximum over the members, or 0. The title is the header of the first key, in key order, reaching that strict maximum above 0, and "" otherwise. |
| Threads.LatestIsSomeArticle | include/thread_manager.h:92-109 | A positive last time and the title belong to one member. |
| Threads.CategoryMeaning | include/thread_manager.h:111-131 | A non-empty thread's category is a member's. No category is more frequent. Every category before it in order is strictly less frequent. An empty thread's category is "". |
| Threads.LangCodeMeaning | include/thread_manager.h:63-73 | The language is the first key's in key order, or "other" for an empty thread. |
| Threads.Decide | include/thread_manager.h:304-322 | The best key's thread is kept iff shared / (first + second - shared) exceeds min_similarity, the division guarded; otherwise -1. |
| Threads.AddSpec | include/thread_manager.h:159-203 | add fails iff the key is already indexed, and then changes nothing. |
| Threads.AddMeaning | include/thread_manager.h:159-203 | A successful add files the key under the best thread, or under a fresh id equal to the old last_thread_id, which then rises by one; the fresh id names no thread or key. The article is stored, other keys keep their threads, last_article_time becomes the max, and the header tokens index the key. |
| Threads.AddConsistent | include/thread_manager.h:159-203 | add keeps the state consistent. |
| Threads.RemoveMeaning | include/thread_manager.h:205-231 | Remove fails with no change unless the key is indexed under an existing thread. Otherwise it drops the key and erases the whole thread, orphaning its other keys. Other threads, the counters and the token index are unchanged, and the state stays consistent. |
| Threads.UpdateMeaning | include/thread_manager.h:233-251 | update of an unknown key fails unchanged; of a known key it is remove followed by add, keeping the key indexed. |
| Threads.ArticlesOfMeaning | include/thread_manager.h:263-266 | The article view holds exactly the articles of the threads, each under the thread its key names. |
| Threads.BestMeaning | include/thread_manager.h:269-325 | Only candidate keys still indexed whose thread has the article's language are tallied. The pick is the first key in order with the highest count. Its thread is returned iff it passes the similarity test; -1 otherwise and with no candidate. |
| Threads.TallyKeysMeaning | include/thread_manager.h:280-300 | The tally holds exactly the counted keys, each with its number of occurrences among the candidates. |
| Threads.RevivedMeaning | include/thread_manager.h:280-300 | Reading threads[id] re-creates an empty thread for each orphaned candidate's id and changes no existing thread. |
| Threads.FileKeyMeaning | include/thread_manager.h:180-188 | Every header token lists the key after its earlier keys; nothing is pruned. |
| Threads.CandidatesMembers | include/thread_manager.h:276-279 | The candidates are exactly the keys listed under the article's header tokens. |
| Threads.ThreadManager.constructor | include/thread_manager.h:147-157 | An empty state with both counters at 0, and the threshold. |
| Threads.ThreadManager.Add | include/thread_manager.h:159-203 | The result and new state are `AddSpec` of the old state. |
| Threads.ThreadManager.FileTokens | include/thread_manager.h:180-188 | The token loop appends the key under every header token. |
| Threads.ThreadManager.Remove | include/thread_manager.h:205-231 | The result and new state are `RemoveSpec` of the old state. |
| Threads.ThreadManager.Update | include/thread_manager.h:233-251 | The result and new state are `UpdateSpec` of the old state. |
| Threads.ThreadManager.GetLastPublishedTime | include/engine.h:412 | The thread's last published time. |
| Threads.ThreadManager.GetThreadTitle | include/engine.h:434 | The thread's title. |
| Threads.ThreadManager.GetThreadCategory | include/engine.h:427 | The thread's category. |
| Threads.ThreadManager.GetAllLastPublishedTime | include/thread_manager.h:253-256 | In a consistent state it is non-negative and no stored article has a later published time. |
| Threads.ThreadManager.IsArticleAvailableByKey | include/thread_manager.h:258-261 | Every key whose article is stored is available, and so is a key whose thread remove has erased. |
| Threads.ThreadManager.GetThreads | include/thread_manager.h:263-266 | In a consistent state every thread id is below last_thread_id, and every article is filed under its thread's id. |
| Threads.ThreadManager.GetArticles | include/engine.h:317 | Each entry is the article its thread stores under the key. In a consistent state the keys are exactly those some thread holds. |
| Threads.ThreadManager.GetThreadLangCode | include/engine.h:420 | "other" for an empty thread, otherwise the language of one of its articles. |
| Threads.ThreadManager.GetBestThreadId | include/thread_manager.h:269-325 | The id and the revived thread map are `BestSpec` of the old state. |
| Threads.ThreadManager.PickThread | include/thread_manager.h:304-322 | Returns the first best key's thread or -1 by the similarity test. |
| Threads.ThreadManager.CountKeys | include/thread_manager.h:280-300 | The inner loop extends the tally and the revived threads over the keys. |
| Threads.ThreadManager.VisitKey | include/thread_manager.h:282-299 | A filed key whose thread has the language is counted once more. Reading a missing thread revives it empty. Nothing else changes. |
| Engines.RankingMeaning | include/engine.h:403-441 | The entries are exactly the threads passing all three tests: within the period, the language, and the category unless "any". They are ordered by non-increasing article count and form a permutation of the collected list. |
| Engines.KeptMembers | include/engine.h:410-437 | The collection loop gathers exactly the kept threads' entries. |
| Engines.ThreadListMeaning | include/engine.h:267-273 | The listing has one entry per thread, in non-increasing article count. |
| Engines.NewArticle | include/article.h:22-37 | The parsed article gets its file name, language "other", thread -1 and category "other". |
| Engines.Admit | include/engine.h:348-357 | An article is admitted iff its language is en or ru and its header is news, with the detected language and the assigned category. |
| Engines.IndexMeaning | include/engine.h:308-371 | A known key returns 204: within the TTL it is updated and saved, past it removed and its file deleted. A new key returns 201 exactly when it is within the TTL, en or ru, and news, and is then added and saved. Every other new key returns 204 with nothing changed. The state stays consistent and last_article_time never drops. |
| Engines.RemovingMeaning | include/engine.h:373-401 | 204 with the key and its file removed iff the key is indexed; otherwise 404 with nothing changed. |
| Engines.Engine.IsAlreadyIndexed | include/engine.h:317-324 | The search loop finds the key iff it is in the article view. |
| Engines.Engine.constructor | include/engine.h:116-140 | The components, the index directory and the document reader are those given. |
| Engines.Engine.FindKey | include/engine.h:317-324 | The loop with its break finds a key iff it is listed. |
| Engines.Engine.RunHttpIndexing | include/engine.h:308-371 | Status, state and index directory are `IndexOutcome`. That is `IndexSpec` with the detected language, the is_news verdict and the classifier's category. |
| Engines.Engine.IndexKnown | include/engine.h:331-343 | A known key: update then save, or remove then delete. |
| Engines.Engine.IndexNew | include/engine.h:344-363 | A new key: detect, is_news, set the language, classify, add, then save. |
| Engines.Engine.AddAdmitted | include/engine.h:357-368 | The admitted article is added and saved with status 201. |
| Engines.Engine.RunHttpRemoving | include/engine.h:373-401 | Status, state and directory are `RemovingSpec` of the file name. |
| Engines.Engine.RunHttpRanking | include/engine.h:403-441 | Status 200 and the ranking `RankingSpec` of the current threads. |
| Engines.Engine.RankThread | include/engine.h:412-436 | One thread is kept iff it passes the three tests, with its title, category and keys. |
| Engines.Engine.LoadMeaning | include/engine.h:277-306 | Loading keeps the state consistent, keeps every indexed key and never lowers last_article_time. |
| Engines.Engine.LoadArticle | include/engine.h:284-302 | One document: detect, check en/ru and is_news, set language and category when asked, and add. |
| Engines.Engine.LoadAll | include/engine.h:277-306 | The document loop leaves `LoadSpec` of the old state. |
| Engines.Engine.RunHttpLoading | include/engine.h:277-306 | Loading with categories returns 1. |
| Engines.Engine.RunCliThreads | include/engine.h:241-275 | Loading without categories, then the thread listing. |
| Engines.Engine.ListThreads | include/engine.h:267-271 | The listing loop gives one entry per thread in id order. |
| Http.IndexRequest | include/http_manager.h:27-33 | An index request carries filename, content and seconds. |
| Http.RemoveRequest | include/http_manager.h:35-39 | A remove request carries the file name. |
| Http.RankRequest | include/http_manager.h:41-47 | A rank request carries period, lang_code and category. |
| Http.Coded | include/http_manager.h:62-66 | The coded response is ready with an empty body. |
| Http.WithBody | include/http_manager.h:68-73 | A response with a body is ready. |
| Http.Taken | include/http_manager.h:128-133 | get returns the stored response and erases it. A missing index gives the default response and an unchanged table. |
| Http.SetThenTake | include/http_manager.h:128-138 | After set, get returns the response set last. A second get reads the default. |
| Http.TakeTwice | include/http_manager.h:128-133 | A response is taken once; a second get reads the default. |
| Http.RequestQueue.constructor | include/http_manager.h:81-85 | An empty queue with index 0. |
| Http.RequestQueue.Push | include/http_manager.h:87-93 | Push stamps the request with the counter, returns the counter, appends the request and raises the counter by one. |
| Http.RequestQueue.Front | include/http_manager.h:95-98 | The front is the oldest request, and every later request has a larger index. |
| Http.RequestQueue.Pop | include/http_manager.h:100-106 | Pop drops the oldest request. On an empty queue it does nothing. |
| Http.RequestQueue.Size | include/http_manager.h:108-111 | The number of queued requests. |
| Http.ResponseQueue.IsGiven | include/http_manager.h:123-126 | True iff a response is stored under the index. |
| Http.ResponseQueue.constructor | include/http_manager.h:118-121 | An empty response table. |
| Http.ResponseQueue.Get | include/http_manager.h:128-133 | The response and table after the call are `Taken`. |
| Http.ResponseQueue.Set | include/http_manager.h:135-138 | The response is stored under the index, overwriting any earlier one. |
| Http.HttpManager.constructor | include/http_manager.h:156-166 | Empty queues, not ready. |
| Http.HttpManager.Index | include/http_manager.h:188-195 | Queues an index request under the next index and returns that index. |
| Http.HttpManager.Remove | include/http_manager.h:197-204 | Queues a remove request under the next index and returns that index. |
| Http.HttpManager.Rank | include/http_manager.h:206-213 | Queues a rank request under the next index and returns that index. |
| Http.HttpManager.GetResponse | include/http_manager.h:215-228 | Takes the response for the index. Until one is given it has code 0 and is not ready. |
| Http.HttpManager.Init | include/http_manager.h:231-235 | Loads the documents with categories and becomes ready. |
| Http.HttpManager.IndexAnswerMeaning | include/http_manager.h:256-263 | An index request is answered 201 or 204 with no body, and the state stays consistent. |
| Http.HttpManager.RemoveAnswerMeaning | include/http_manager.h:265-270 | A remove request is answered 204 iff the file name is indexed, else 404. |
| Http.HttpManager.OutcomeMeaning | include/http_manager.h:241-290 | Before init every request gets 503 and nothing changes. After it: index gets 201/204; remove gets 204/404; rank gets 200 with the threads and no state change. |
| Http.HttpManager.Step | include/http_manager.h:241-290 | One worker iteration on an empty queue changes nothing. Otherwise it pops exactly the oldest request, answers it by `Outcome`, and stores the response under the request's index. |
| Http.HttpManager.Serve | include/http_manager.h:246-290 | Serving the front request: pop, answer, and set the response. |
| Http.HttpManager.Answer | include/http_manager.h:250-286 | 503 when not ready, otherwise dispatch by request type. |
| Http.HttpManager.AnswerIndex | include/http_manager.h:256-263 | The index request runs the indexing with its arguments. |
| Http.HttpManager.AnswerRemove | include/http_manager.h:265-270 | The remove request runs the removing with its file name. |
| Http.HttpManager.AnswerRank | include/http_manager.h:272-279 | The rank request runs the ranking with status 200 and the threads as body. |

## Left out

**External effects.**
- File and directory I/O is left out: read_file, save_file, remove_file, get_filename_list, and the file reading of read_keywords and read_stopwords.
  - The index directory is a map from full path to content; saving and deleting update it.
  - Keyword and stopword file texts are parameters.
- The configuration constructor `Engine(filename)` (include/engine.h:116-140) is left out. It only reads files; `Engines.Engine.constructor` takes the parts it builds.
- The HTMLDocument file constructor is left out. The `Article(content, filename)` parse in include/engine.h:315 is the parameter `readArticle`, and the HTML text of a document is given directly.
- The clock is left out: get_time_now is the parameter `timeNow`. extract_datetime (mktime, time zones) is the parameter function `extractDatetime`.

**Library calls.**
- The olestem stemmer is the parameter `stem`.
- std::regex in replace_with is a literal substring replace.
- UTF-8 conversion and nlohmann JSON serialisation are left out; bodies are the ranked thread values.
- `iswpunct` and `towlower` are explicit character-range predicates. Lowering covers ASCII and the Cyrillic capitals U+0400-U+042F; other scripts are left alone.

**Concurrency.**
- Threads, mutexes, `poll`, the `init` thread and the infinite worker loop are left out. One worker iteration is `Http.HttpManager.Step`.
- The OpenMP `parallel for` and `critical` sections of run_http_loading and run_cli_* are sequential folds in document order, so the model fixes one of the orders a parallel run may take.
- `HTTPManager` copies the engine once, in its constructor (include/http_manager.h:159), and every worker started by `poll` shares that copy through the same `this` (include/http_manager.h:170-175). The model's single engine stands for that one copy. The threads and mutexes around it are what is left out.
- The CLI modes run_cli_languages, run_cli_news and run_cli_categories are left out: they only print.

**Arithmetic.**
- Floating point: min_similarity, word_share, en_common_share and min_char_share are reals, with no rounding.
- Integer widths: `int` and `time_t` are unbounded integers. `difftime` is exact subtraction, and its conversion to int does not overflow.
- `Languages.LanguageDetector.IsLanguageEn`: with all_count 0 the C++ division gives +inf or NaN; `EnShareExceeds` states that case outright instead of a general floating-point model.

**Member-specific limits.**
- `Ordering.SortDesc`: std::sort is not stable and its tie order is unspecified. The model gives one permutation, sorted by insertion; the contracts state only the order and the permutation, which every std::sort result meets.
- `Threads.ThreadManager.Update`: for a known key whose thread is missing, remove returns false and update then falls off the end of its bool function (include/thread_manager.h:241-246), which is undefined behaviour. The model requires `Updatable` (the key unknown, or its thread present) rather than inventing a result. Remove itself returns false in that case, as include/thread_manager.h:222-225 does, and needs no such condition.
- `Threads.ThreadManager.Update`: it re-adds the new article as given. The article's language and category are whatever the caller set; include/engine.h:336 passes the freshly parsed article, whose language is "other".
- `Html.HtmlParser.constructor`, `Html.HtmlDocument.constructor`: three kinds of text are excluded, each undefined behaviour in the source:
  - more '<' than '>': the flag loop reads `moreSign[i]` out of range (include/html_parser.h:144);
  - one of the first nodeCount '>' at position 0: `moreSign[i] - 1` wraps as size_t (include/html_parser.h:144);
  - an open tag with no sub-nodes that no later '<' follows: the content read uses `lessSign[nodeIndex]` with nodeIndex equal to nodeCount (include/html_parser.h:198).

  `BracketsReadable` excludes the first two; `ParseHtml` is None on the third, and the document constructor requires it to be Some.
- `Html.AttrValue`: `attributes[attrName]` in find_by_attr (include/html_parser.h:75) inserts an empty attribute into every visited node with the tag name. The model reads "" without inserting. No query in the core lists attributes, so no result changes.
- `Articles.Article.Empty`: `Article() {}` leaves published_time and thread_index uninitialised. The model sets them to 0.
- `Http.HttpManager.Step`: a request's arguments are always present, because the request constructors set them (`Http.WellFormed`). The default insertion of `std::map::operator[]` for a missing argument name is not modelled.
- `Categories.CategoryClassifier.Classify`: classify reads `keywords[lang_code]` and `min_token_count[lang_code]` with operator[], which inserts an empty entry for an unknown language. The model reads the same defaults without inserting, which changes no result.
- `Utils.RemoveIfExists`, `Utils.RemoveMapElemIfExists`, `NlpUtils.ToLower`: the source changes its by-reference argument. The model returns the new container instead.
- `Http.RequestQueue.Push`: the source also stamps the caller's request through the reference. The model stamps the queued copy and returns the index.
- `Engines.IndexMeaning`: for a key whose thread was erased by an earlier remove, the key is not in the article view. Such a key is indexed as new, and add then refuses it: status 201, the file saved, the clustering state unchanged. This follows the source.
- The Article getters are field reads and no members of their own.
