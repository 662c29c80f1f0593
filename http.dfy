/** The request and response tables of include/http_manager.h and one
    sequential step of the worker loop that serves them. The worker
    threads, the mutexes and the polling loops are not modelled: a step is
    one pass of the loop body, run alone. */
module Http {
  import opened Utils
  import opened Articles
  import opened Threads
  import opened Engines

  /** HTTPRequestType. */
  datatype RequestType = Index | Remove | Rank

  /** HTTPRequest: the queue index, the kind, and the string and integer
      arguments by name. */
  datatype HttpRequest = HttpRequest(index: int, rtype: RequestType, strVal: map<string, string>, intVal: map<string, int>)

  /** HTTPResponse::body: empty, or the ranked threads run_http_ranking
      serialises. */
  datatype ResponseBody = NoBody | Threads(threads: seq<RankedArticles>)

  /** HTTPResponse. */
  datatype HttpResponse = HttpResponse(isReady: bool, code: int, body: ResponseBody)

  /** HTTPRequest(): index -1, no arguments. The source leaves the type
      uninitialized; it reads as Index here. */
  const DEFAULT_REQUEST := HttpRequest(-1, Index, map[], map[])

  /** HTTPResponse(): not ready, code 0, empty body. */
  const DEFAULT_RESPONSE := HttpResponse(false, 0, NoBody)

  /** The arguments each kind of request carries: the names its
      constructor fills in and the worker reads. */
  predicate WellFormed(req: HttpRequest) {
    match req.rtype
    case Index => "filename" in req.strVal && "content" in req.strVal && "seconds" in req.intVal
    case Remove => "filename" in req.strVal
    case Rank => "lang_code" in req.strVal && "category" in req.strVal && "period" in req.intVal
  }

  /** HTTPRequest(filename, seconds, content). The source leaves index
      uninitialized until push stamps it; it reads as -1 here. */
  function IndexRequest(filename: string, seconds: int, content: string): (r: HttpRequest)
    ensures WellFormed(r) && r.rtype == Index && r.strVal.Keys == {"filename", "content"} && r.intVal.Keys == {"seconds"}
    ensures r.strVal["filename"] == filename && r.strVal["content"] == content && r.intVal["seconds"] == seconds
  {
    HttpRequest(-1, Index, map["filename" := filename, "content" := content], map["seconds" := seconds])
  }

  /** HTTPRequest(filename). */
  function RemoveRequest(filename: string): (r: HttpRequest)
    ensures WellFormed(r) && r.rtype == Remove && r.strVal.Keys == {"filename"} && r.intVal == map[]
    ensures r.strVal["filename"] == filename
  {
    HttpRequest(-1, Remove, map["filename" := filename], map[])
  }

  /** HTTPRequest(period, lang_code, category). */
  function RankRequest(period: int, langCode: string, category: string): (r: HttpRequest)
    ensures WellFormed(r) && r.rtype == Rank && r.strVal.Keys == {"lang_code", "category"} && r.intVal.Keys == {"period"}
    ensures r.strVal["lang_code"] == langCode && r.strVal["category"] == category && r.intVal["period"] == period
  {
    HttpRequest(-1, Rank, map["lang_code" := langCode, "category" := category], map["period" := period])
  }

  /** HTTPResponse(code): ready, with an empty body. */
  function Coded(code: int): (r: HttpResponse)
    ensures r.isReady && r.code == code && r.body == NoBody
  {
    HttpResponse(true, code, NoBody)
  }

  /** HTTPResponse(code, body): ready. */
  function WithBody(code: int, body: ResponseBody): (r: HttpResponse)
    ensures r.isReady && r.code == code && r.body == body
  {
    HttpResponse(true, code, body)
  }

  /** HTTPResponseQueue::get on a table: the stored response, or the
      default one when none is stored, and the table without the index.
      operator[] inserts a default entry for a missing index, and erase
      removes it again, so a missing index leaves the table as it was. */
  function Taken(responses: map<int, HttpResponse>, index: int): (r: (HttpResponse, map<int, HttpResponse>))
    ensures index !in r.1
    ensures forall i :: i != index ==> (i in r.1 <==> i in responses) && (i in r.1 ==> r.1[i] == responses[i])
    ensures index in responses ==> r.0 == responses[index]
    ensures index !in responses ==> r.0 == DEFAULT_RESPONSE && r.1 == responses
  {
    (if index in responses then responses[index] else DEFAULT_RESPONSE, responses - {index})
  }

  /** A response set under an index is the one get returns, and get then
      leaves no response under that index; a second set overwrites the
      first. */
  lemma SetThenTake(responses: map<int, HttpResponse>, index: int, first: HttpResponse, second: HttpResponse)
    ensures Taken(responses[index := second], index).0 == second
    ensures Taken(responses[index := first][index := second], index) == Taken(responses[index := second], index)
    ensures Taken(Taken(responses[index := second], index).1, index).0 == DEFAULT_RESPONSE
  {
    assert responses[index := first][index := second] == responses[index := second];
  }

  /** A table that holds response r under index yields r and no more:
      another get of the same index reads the default. */
  lemma TakeTwice(responses: map<int, HttpResponse>, index: int)
    ensures var once := Taken(responses, index);
      && Taken(once.1, index) == (DEFAULT_RESPONSE, once.1)
      && (index in responses <==> once.0 != DEFAULT_RESPONSE || responses != once.1)
  {
    var once := Taken(responses, index);
    if index in responses {
      assert index !in once.1;
    }
  }

  /** HTTPRequestQueue: a FIFO of requests and the index the next push
      stamps. */
  class RequestQueue {
    var index: int
    var requests: seq<HttpRequest>

    /** Every queued request got a distinct index below the counter, and
        the indices increase from front to back. */
    ghost predicate Valid()
      reads this
    {
      && index >= 0
      && (forall i :: 0 <= i < |requests| ==> 0 <= requests[i].index < index)
      && (forall i, j :: 0 <= i < j < |requests| ==> requests[i].index < requests[j].index)
    }

    constructor ()
      ensures Valid() && index == 0 && requests == []
    {
      index := 0;
      requests := [];
    }

    /** push: the request is stamped with the counter, queued at the back,
        and its index returned; the counter goes up by one. */
    method Push(request: HttpRequest) returns (reqIndex: int)
      requires Valid()
      modifies this
      ensures Valid()
      ensures reqIndex == old(index) && index == old(index) + 1
      ensures requests == old(requests) + [request.(index := reqIndex)]
    {
      var stamped := request.(index := index);
      requests := requests + [stamped];
      index := index + 1;
      reqIndex := stamped.index;
    }

    /** front: the oldest queued request, whose index is below every other
        queued one. The source reads an empty queue's front, which is
        undefined; that is a precondition here. */
    method Front() returns (request: HttpRequest)
      requires Valid() && |requests| > 0
      ensures request == requests[0]
      ensures forall i :: 0 < i < |requests| ==> request.index < requests[i].index
    {
      request := requests[0];
    }

    /** pop: drops the front request; on an empty queue, nothing. */
    method Pop()
      requires Valid()
      modifies this
      ensures Valid() && index == old(index)
      ensures |old(requests)| > 0 ==> requests == old(requests)[1..]
      ensures |old(requests)| == 0 ==> requests == old(requests)
    {
      if |requests| > 0 {
        requests := requests[1..];
      }
    }

    method Size() returns (n: nat)
      ensures n == |requests|
    {
      n := |requests|;
    }
  }

  /** HTTPResponseQueue: the responses by request index. */
  class ResponseQueue {
    var responses: map<int, HttpResponse>

    constructor ()
      ensures responses == map[]
    {
      responses := map[];
    }

    /** is_given. */
    method IsGiven(index: int) returns (given: bool)
      ensures given <==> index in responses
    {
      given := index in responses;
    }

    /** get: the stored response is returned and erased. */
    method Get(index: int) returns (response: HttpResponse)
      modifies this
      ensures (response, responses) == Taken(old(responses), index)
    {
      response := if index in responses then responses[index] else DEFAULT_RESPONSE;
      responses := responses - {index};
    }

    /** set: the response is stored under the index, replacing any other. */
    method Set(index: int, response: HttpResponse)
      modifies this
      ensures responses == old(responses)[index := response]
    {
      responses := responses[index := response];
    }
  }

  /** HTTPManager: the readiness flag, the engine and the two tables. */
  class HttpManager {
    var isReady: bool
    const threadNum: int
    const engine: Engine
    const requests: RequestQueue
    const responses: ResponseQueue

    /** The queue is well stamped, every queued request carries its
        arguments, and the engine is consistent. */
    ghost predicate Valid()
      reads this, requests, engine, engine.threadManager
    {
      && requests.Valid()
      && (forall i :: 0 <= i < |requests.requests| ==> WellFormed(requests.requests[i]))
      && engine.Valid()
    }

    /** HTTPManager(thread_num, engine): empty tables, not ready. */
    constructor (threadNum: int, engine: Engine)
      requires engine.Valid()
      ensures Valid() && fresh(requests) && fresh(responses)
      ensures this.threadNum == threadNum && this.engine == engine && !isReady
      ensures requests.index == 0 && requests.requests == [] && responses.responses == map[]
    {
      this.threadNum := threadNum;
      this.engine := engine;
      requests := new RequestQueue();
      responses := new ResponseQueue();
      isReady := false;
    }

    /** index: queue an indexing request and return its index. */
    method Index(filename: string, seconds: int, content: string) returns (reqIndex: int)
      requires Valid()
      modifies requests
      ensures Valid()
      ensures reqIndex == old(requests.index) && requests.index == reqIndex + 1
      ensures requests.requests == old(requests.requests) + [IndexRequest(filename, seconds, content).(index := reqIndex)]
    {
      reqIndex := requests.Push(IndexRequest(filename, seconds, content));
    }

    /** remove: queue a removing request and return its index. */
    method Remove(filename: string) returns (reqIndex: int)
      requires Valid()
      modifies requests
      ensures Valid()
      ensures reqIndex == old(requests.index) && requests.index == reqIndex + 1
      ensures requests.requests == old(requests.requests) + [RemoveRequest(filename).(index := reqIndex)]
    {
      reqIndex := requests.Push(RemoveRequest(filename));
    }

    /** rank: queue a ranking request and return its index. */
    method Rank(period: int, langCode: string, category: string) returns (reqIndex: int)
      requires Valid()
      modifies requests
      ensures Valid()
      ensures reqIndex == old(requests.index) && requests.index == reqIndex + 1
      ensures requests.requests == old(requests.requests) + [RankRequest(period, langCode, category).(index := reqIndex)]
    {
      reqIndex := requests.Push(RankRequest(period, langCode, category));
    }

    /** get_response: the given response, taken out of the table, or the
        default response (not ready, code 0) while none is given. */
    method GetResponse(index: int) returns (res: HttpResponse)
      modifies responses
      ensures (res, responses.responses) == Taken(old(responses.responses), index)
      ensures old(index !in responses.responses) ==> !res.isReady && res.code == 0
    {
      var given := responses.IsGiven(index);
      if given {
        res := responses.Get(index);
      } else {
        res := DEFAULT_RESPONSE;
      }
    }

    /** init: load the index, then accept requests. */
    method Init(documents: seq<ArticleValue>)
      requires Valid()
      modifies this, engine.threadManager
      ensures Valid() && isReady
      ensures engine.threadManager.State() == engine.LoadSpec(old(engine.threadManager.State()), documents, true)
    {
      var loaded := engine.RunHttpLoading(documents);
      isReady := true;
    }

    /** The response the worker gives to req from manager state s and
        directory files, and the state and directory it leaves. */
    ghost function Outcome(ready: bool, req: HttpRequest, s: ManagerState, files: map<string, string>, timeNow: int): (HttpResponse, ManagerState, map<string, string>)
      requires WellFormed(req) && Consistent(s)
      reads engine.categoryClassifier
    {
      if !ready then (Coded(503), s, files)
      else
        match req.rtype
        case Index => IndexAnswer(req, s, files)
        case Remove => RemoveAnswer(req, s, files)
        case Rank => RankAnswer(req, s, files, timeNow)
    }

    /** The answer to an indexing request: run_http_indexing's status. */
    ghost function IndexAnswer(req: HttpRequest, s: ManagerState, files: map<string, string>): (HttpResponse, ManagerState, map<string, string>)
      requires WellFormed(req) && req.rtype.Index? && Consistent(s)
      reads engine.categoryClassifier
    {
      var o := engine.IndexOutcome(s, files, req.strVal["filename"], req.intVal["seconds"], req.strVal["content"]);
      (Coded(o.0), o.1, o.2)
    }

    /** The answer to a removing request: run_http_removing's status. */
    function RemoveAnswer(req: HttpRequest, s: ManagerState, files: map<string, string>): (HttpResponse, ManagerState, map<string, string>)
      requires WellFormed(req) && req.rtype.Remove?
    {
      var o := engine.RemovingOutcome(s, files, req.strVal["filename"]);
      (Coded(o.0), o.1, o.2)
    }

    /** The answer to a ranking request: 200 with the ranked threads. */
    function RankAnswer(req: HttpRequest, s: ManagerState, files: map<string, string>, timeNow: int): (HttpResponse, ManagerState, map<string, string>)
      requires WellFormed(req) && req.rtype.Rank?
    {
      var ranked := RankingSpec(s.threads, req.intVal["period"], req.strVal["lang_code"], req.strVal["category"], timeNow);
      (WithBody(200, Threads(ranked)), s, files)
    }

    /** Indexing answers 201 or 204, ready, with no body, and keeps the
        manager consistent. */
    lemma IndexAnswerMeaning(req: HttpRequest, s: ManagerState, files: map<string, string>)
      requires WellFormed(req) && req.rtype.Index? && Consistent(s)
      ensures var o := IndexAnswer(req, s, files);
        o.0.isReady && (o.0.code == 201 || o.0.code == 204) && o.0.body == NoBody && Consistent(o.1)
    {
      var path := req.strVal["filename"];
      var content := req.strVal["content"];
      var article := NewArticle(engine.readArticle(content), GetFilenameOnly(path));
      var langCode := engine.DetectOf(article.textTk);
      IndexMeaning(s, files, GetFullPath(engine.indexDir, GetFilenameOnly(path)), article, req.intVal["seconds"],
                   langCode, NewsHeader(article.headerTk, langCode), engine.categoryClassifier.ClassifySpec(article.textTk, langCode),
                   engine.threadManager.minSimilarity, content);
    }

    /** Removing answers 204 exactly when the key is indexed and 404
        otherwise, and keeps the manager consistent. */
    lemma RemoveAnswerMeaning(req: HttpRequest, s: ManagerState, files: map<string, string>)
      requires WellFormed(req) && req.rtype.Remove? && Consistent(s)
      ensures var o := RemoveAnswer(req, s, files);
        && o.0.isReady && (o.0.code == 204 || o.0.code == 404) && o.0.body == NoBody && Consistent(o.1)
        && (o.0.code == 204 <==> GetFilenameOnly(req.strVal["filename"]) in ArticlesOf(s))
    {
      var path := req.strVal["filename"];
      RemovingMeaning(s, files, GetFullPath(engine.indexDir, GetFilenameOnly(path)), GetFilenameOnly(path));
    }

    /** The worker's answer: always ready; 503 with nothing changed before
        init; otherwise 201 or 204 for indexing, 204 or 404 for removing
        (204 exactly when the key is indexed), and 200 with the ranked
        threads, nothing changed, for ranking. The manager stays
        consistent. */
    lemma OutcomeMeaning(ready: bool, req: HttpRequest, s: ManagerState, files: map<string, string>, timeNow: int)
      requires WellFormed(req) && Consistent(s)
      ensures var o := Outcome(ready, req, s, files, timeNow);
        && o.0.isReady
        && Consistent(o.1)
        && (!ready ==> o == (Coded(503), s, files))
        && (ready && req.rtype.Index? ==> (o.0.code == 201 || o.0.code == 204) && o.0.body == NoBody)
        && (ready && req.rtype.Remove? ==>
              && (o.0.code == 204 || o.0.code == 404) && o.0.body == NoBody
              && (o.0.code == 204 <==> GetFilenameOnly(req.strVal["filename"]) in ArticlesOf(s)))
        && (ready && req.rtype.Rank? ==> o.0.code == 200 && o.1 == s && o.2 == files && o.0.body.Threads?)
    {
      if ready {
        match req.rtype
        case Index => IndexAnswerMeaning(req, s, files);
        case Remove => RemoveAnswerMeaning(req, s, files);
        case Rank =>
      }
    }

    /** One pass of the update loop: when a request is queued, take it
        from the front, answer it, and store the answer under its index;
        when none is, change nothing. */
    method Step(timeNow: int)
      requires Valid()
      modifies requests, responses, engine, engine.threadManager
      ensures Valid() && requests.index == old(requests.index)
      ensures old(|requests.requests|) == 0 ==>
        && requests.requests == old(requests.requests) && responses.responses == old(responses.responses)
        && engine.threadManager.State() == old(engine.threadManager.State()) && engine.files == old(engine.files)
      ensures old(|requests.requests|) > 0 ==>
        var req := old(requests.requests[0]);
        var o := Outcome(old(isReady), req, old(engine.threadManager.State()), old(engine.files), timeNow);
        && requests.requests == old(requests.requests[1..])
        && responses.responses == old(responses.responses)[req.index := o.0]
        && engine.threadManager.State() == o.1 && engine.files == o.2
    {
      var requestNum := requests.Size();
      if requestNum > 0 {
        Serve(timeNow);
      }
    }

    /** The body of the loop when a request is queued. */
    method Serve(timeNow: int)
      requires Valid() && |requests.requests| > 0
      modifies requests, responses, engine, engine.threadManager
      ensures Valid() && requests.index == old(requests.index)
      ensures var req := old(requests.requests[0]);
        var o := Outcome(old(isReady), req, old(engine.threadManager.State()), old(engine.files), timeNow);
        && requests.requests == old(requests.requests[1..])
        && responses.responses == old(responses.responses)[req.index := o.0]
        && engine.threadManager.State() == o.1 && engine.files == o.2
    {
      var req := requests.Front();
      requests.Pop();
      var res := Answer(req, timeNow);
      responses.Set(req.index, res);
    }

    /** The switch on the request type, or 503 before init. */
    method Answer(req: HttpRequest, timeNow: int) returns (res: HttpResponse)
      requires WellFormed(req) && engine.Valid()
      modifies engine, engine.threadManager
      ensures engine.Valid()
      ensures (res, engine.threadManager.State(), engine.files) == Outcome(isReady, req, old(engine.threadManager.State()), old(engine.files), timeNow)
    {
      if isReady {
        match req.rtype
        case Index => res := AnswerIndex(req);
        case Remove => res := AnswerRemove(req);
        case Rank => res := AnswerRank(req, timeNow);
      } else {
        res := Coded(503);
      }
    }

    method AnswerIndex(req: HttpRequest) returns (res: HttpResponse)
      requires WellFormed(req) && req.rtype.Index? && engine.Valid()
      modifies engine, engine.threadManager
      ensures engine.Valid()
      ensures (res, engine.threadManager.State(), engine.files) == IndexAnswer(req, old(engine.threadManager.State()), old(engine.files))
    {
      var status := engine.RunHttpIndexing(req.strVal["filename"], req.intVal["seconds"], req.strVal["content"]);
      res := Coded(status);
    }

    method AnswerRemove(req: HttpRequest) returns (res: HttpResponse)
      requires WellFormed(req) && req.rtype.Remove? && engine.Valid()
      modifies engine, engine.threadManager
      ensures engine.Valid()
      ensures (res, engine.threadManager.State(), engine.files) == RemoveAnswer(req, old(engine.threadManager.State()), old(engine.files))
    {
      var status := engine.RunHttpRemoving(req.strVal["filename"]);
      res := Coded(status);
    }

    method AnswerRank(req: HttpRequest, timeNow: int) returns (res: HttpResponse)
      requires WellFormed(req) && req.rtype.Rank?
      ensures (res, engine.threadManager.State(), engine.files) == RankAnswer(req, engine.threadManager.State(), engine.files, timeNow)
    {
      var status, ranked := engine.RunHttpRanking(req.intVal["period"], req.strVal["lang_code"], req.strVal["category"], timeNow);
      res := WithBody(status, Threads(ranked));
    }
  }
}
