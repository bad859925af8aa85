/** The `POST /chat` handler: the query guard, retrieval of the top chunks,
    the context string with 1-based citation markers, the prompt, and the
    response with its list of sources.

    The embedding of the query and the FAISS search are one collaborator,
    `retrieve`, from the stripped query to the hit indices (or the message of
    the exception raised); the chat completion is another, `complete`, from
    the prompt messages to the reply text. Both are parameters. */
module Chat {
  import opened Text
  import opened Results
  import opened Ingest

  const MissingQueryMessage: string := "Missing 'query' field."

  const SystemPrompt: string :=
    "You are an employee benefits assistant. Answer precisely using only the provided context. If unknown, say 'I don't know.'"

  /** A parsed JSON request body. `JNull` also stands for a body that is not
      JSON at all, which `get_json(silent=True)` turns into `None` as well. */
  datatype Json =
    | JNull
    | JBool(b: bool)
    | JNumber(n: real)
    | JString(s: string)
    | JArray(items: seq<Json>)
    | JObject(fields: map<string, Json>)

  /** Python truthiness of the parsed value, which decides `... or {}`. */
  predicate Truthy(j: Json) {
    match j
    case JNull => false
    case JBool(b) => b
    case JNumber(n) => n != 0.0
    case JString(s) => |s| > 0
    case JArray(items) => |items| > 0
    case JObject(fields) => |fields| > 0
  }

  /** What the handler gets out of the body before its `try` block: the
      stripped query, a missing or blank query, or an exception that escapes
      the handler (`.get` on a body that is not an object, `.strip` on a
      query that is not a string). */
  datatype QueryRead = Query(q: string) | MissingQuery | ReadCrash

  function ReadQuery(body: Json): (r: QueryRead)
    ensures !Truthy(body) ==> r == MissingQuery
    ensures r.ReadCrash? <==>
              Truthy(body) && (!body.JObject? || ("query" in body.fields && !body.fields["query"].JString?))
    ensures r.Query? ==> |r.q| > 0 && !IsSpace(r.q[0]) && !IsSpace(r.q[|r.q| - 1])
  {
    var req := if Truthy(body) then body else JObject(map[]);
    if !req.JObject? then ReadCrash
    else
      var raw := if "query" in req.fields then req.fields["query"] else JString("");
      if !raw.JString? then ReadCrash
      else if |Strip(raw.s)| == 0 then MissingQuery
      else Query(Strip(raw.s))
  }

  /** The response: 200 with the answer and sources, 400 with the guard's
      message, 500 with the message of an exception caught by the handler, or
      the framework's own 500 page for an exception that escaped it. */
  datatype Response =
    | Answered(answer: string, sources: seq<string>)
    | BadRequest(error: string)
    | ServerError(error: string)
    | Unhandled

  function Status(r: Response): nat {
    match r
    case Answered(_, _) => 200
    case BadRequest(_) => 400
    case ServerError(_) => 500
    case Unhandled => 500
  }

  datatype Message = Message(role: string, content: string)

  /** The two messages sent to the chat model. */
  function Prompt(context: string, question: string): (m: seq<Message>)
    ensures |m| == 2 && m[0] == Message("system", SystemPrompt) && m[1].role == "user"
    ensures var c := m[1].content;
            |c| == 8 + |context| + 11 + |question|
            && c[..8] == "Context:" && c[8 .. 8 + |context|] == context
            && c[8 + |context| .. 8 + |context| + 11] == " Question: "
            && c[|c| - |question|..] == question
  {
    [ Message("system", SystemPrompt),
      Message("user", "Context:" + context + " Question: " + question) ]
  }

  const IndexErrorMessage: string := "list index out of range"

  /** Python's `xs[idx]` is defined for `-len(xs) <= idx < len(xs)`; any other
      index raises IndexError. */
  predicate IndexResolves(n: nat, idx: int) {
    -(n as int) <= idx < n
  }

  /** The position Python's `xs[idx]` reads: negative indices count from the end. */
  function Resolve(n: nat, idx: int): (k: nat)
    requires IndexResolves(n, idx)
    ensures k < n
  {
    if idx < 0 then n + idx else idx
  }

  predicate AllResolve(n: nat, hits: seq<int>) {
    forall k :: 0 <= k < |hits| ==> IndexResolves(n, hits[k])
  }

  /** `[xs[idx] for idx in hits]`: the element each hit selects, in hit order,
      or the IndexError of the first hit that selects nothing. */
  function Gather<T>(xs: seq<T>, hits: seq<int>): (r: Result<seq<T>>)
    decreases |hits|
    ensures r.Success? <==> AllResolve(|xs|, hits)
    ensures r.Success? ==> |r.value| == |hits|
    ensures r.Success? ==> forall k :: 0 <= k < |hits| ==> r.value[k] == xs[Resolve(|xs|, hits[k])]
    ensures r.Failure? ==> r.error == IndexErrorMessage
  {
    if |hits| == 0 then Success([])
    else if !IndexResolves(|xs|, hits[0]) then Failure(IndexErrorMessage)
    else
      assert forall k :: 0 < k < |hits| ==> hits[k] == hits[1..][k - 1];
      match Gather(xs, hits[1..])
      case Failure(m) => Failure(m)
      case Success(rest) => Success([xs[Resolve(|xs|, hits[0])]] + rest)
  }

  /** `f"[{rank}] {text}"`. */
  function Citation(rank: nat, text: string): (c: string)
    ensures |c| == |NatToDecimal(rank)| + 3 + |text|
    ensures c[0] == '[' && c[|c| - |text|..] == text
  {
    "[" + NatToDecimal(rank) + "] " + text
  }

  /** The citations of the top chunks, ranked from 1 in hit order. */
  function CitedParts(top: seq<string>): (parts: seq<string>)
    ensures |parts| == |top|
  {
    seq(|top|, i requires 0 <= i < |top| => Citation(i + 1, top[i]))
  }

  /** The context string: the citations joined by single spaces. It is empty
      exactly when there are no hits. */
  function AssembleContext(top: seq<string>): (context: string)
    ensures |top| == 0 <==> context == ""
  {
    Join(" ", CitedParts(top))
  }

  /** A citation reads back as '[', the decimal digits of its rank, "] " and
      then the chunk text. */
  lemma CitationReadsBack(rank: nat, text: string)
    ensures var d := NatToDecimal(rank);
            var c := Citation(rank, text);
            |c| == |d| + 3 + |text|
            && c[0] == '['
            && AllDigits(c[1 .. 1 + |d|]) && DecimalValue(c[1 .. 1 + |d|]) == rank
            && c[1 + |d| .. 3 + |d|] == "] "
            && c[3 + |d| ..] == text
  {
    var d := NatToDecimal(rank);
    var c := Citation(rank, text);
    assert c == "[" + d + "] " + text;
    assert c[1 .. 1 + |d|] == d;
    DecimalRoundTrip(rank);
  }

  lemma SingletonSlice<T>(s: seq<T>, a: nat, x: T)
    requires a + 1 <= |s| && s[a .. a + 1] == [x]
    ensures s[a] == x
  {
    assert s[a] == s[a .. a + 1][0];
  }

  /** The context cites the top chunks in rank order: the i-th chunk appears,
      preceded by the marker of rank i + 1, at `PartOffset(" ", CitedParts(top), i)`,
      followed by a single space unless it is the last one, which ends the
      context. */
  lemma ContextCitesInRankOrder(top: seq<string>, i: nat)
    requires i < |top|
    ensures var context := AssembleContext(top);
            var off := PartOffset(" ", CitedParts(top), i);
            var cite := Citation(i + 1, top[i]);
            off + |cite| <= |context|
            && context[off .. off + |cite|] == cite
            && (i + 1 < |top| ==> off + |cite| < |context| && context[off + |cite|] == ' ')
            && (i + 1 == |top| ==> off + |cite| == |context|)
  {
    var parts := CitedParts(top);
    var off := PartOffset(" ", parts, i);
    var cite := Citation(i + 1, top[i]);
    assert AssembleContext(top) == Join(" ", parts);
    assert parts[i] == cite;
    JoinPlacesPart(" ", parts, i);
    if i + 1 < |top| {
      JoinSeparatesParts(" ", parts, i);
      SingletonSlice(Join(" ", parts), off + |cite|, ' ');
    }
  }

  /** The `chat` handler. The request is rejected with 400 exactly when the
      query is missing or blank; an exception before the `try` block escapes
      the handler. On a 200 response the sources are the files of the hit
      chunks, hit by hit, and the answer is the stripped completion of the
      prompt built from those chunks. */
  function HandleChat(
    corpus: Corpus,
    body: Json,
    retrieve: string -> Result<seq<int>>,
    complete: seq<Message> -> Result<string>
  ): (r: Response)
    requires corpus.Aligned()
    ensures r.BadRequest? <==> ReadQuery(body).MissingQuery?
    ensures r.BadRequest? ==> Status(r) == 400 && r.error == MissingQueryMessage
    ensures r.Unhandled? <==> ReadQuery(body).ReadCrash?
    ensures r.Answered? ==>
              && ReadQuery(body).Query?
              && retrieve(ReadQuery(body).q).Success?
              && var hits := retrieve(ReadQuery(body).q).value;
                 && AllResolve(|corpus.chunks|, hits)
                 && |r.sources| == |hits|
                 && (forall k :: 0 <= k < |hits| ==>
                       r.sources[k] == corpus.docNames[Resolve(|corpus.chunks|, hits[k])])
                 && complete(Prompt(AssembleContext(Gather(corpus.chunks, hits).value), ReadQuery(body).q)).Success?
                 && r.answer == Strip(complete(Prompt(AssembleContext(Gather(corpus.chunks, hits).value), ReadQuery(body).q)).value)
  {
    match ReadQuery(body)
    case ReadCrash => Unhandled
    case MissingQuery => BadRequest(MissingQueryMessage)
    case Query(q) =>
      match retrieve(q)
      case Failure(m) => ServerError(m)
      case Success(hits) =>
        match Gather(corpus.chunks, hits)
        case Failure(m) => ServerError(m)
        case Success(top) =>
          match complete(Prompt(AssembleContext(top), q))
          case Failure(m) => ServerError(m)
          case Success(content) => Answered(Strip(content), Gather(corpus.docNames, hits).value)
  }

  /** Every exception inside the `try` block becomes a 500 carrying the
      exception's message: a failed embedding or search, a hit index that
      selects no chunk, a failed completion. When none occurs the request is
      answered. */
  lemma ChatFailuresAreServerErrors(
    corpus: Corpus,
    q: string,
    body: Json,
    retrieve: string -> Result<seq<int>>,
    complete: seq<Message> -> Result<string>
  )
    requires corpus.Aligned()
    requires ReadQuery(body) == Query(q)
    ensures var r := HandleChat(corpus, body, retrieve, complete);
            && (retrieve(q).Failure? ==> r == ServerError(retrieve(q).error))
            && (retrieve(q).Success? && !AllResolve(|corpus.chunks|, retrieve(q).value) ==>
                  r == ServerError(IndexErrorMessage))
            && (retrieve(q).Success? && AllResolve(|corpus.chunks|, retrieve(q).value) ==>
                  var prompt := Prompt(AssembleContext(Gather(corpus.chunks, retrieve(q).value).value), q);
                  (complete(prompt).Failure? ==> r == ServerError(complete(prompt).error))
                  && (complete(prompt).Success? ==> r.Answered?))
            && (r.ServerError? ==> Status(r) == 500)
  {
  }

  /** A -1 hit that resolves selects the last element. */
  lemma GatherPadding<T>(xs: seq<T>, hits: seq<int>, k: nat)
    requires AllResolve(|xs|, hits)
    requires k < |hits| && hits[k] == -1
    ensures |xs| > 0 && Resolve(|xs|, hits[k]) == |xs| - 1
    ensures Gather(xs, hits).value[k] == xs[|xs| - 1]
  {
    assert IndexResolves(|xs|, hits[k]);
  }

  /** The index pads its answer with -1 when it holds fewer vectors than were
      asked for; Python reads index -1 as the last element, so such a hit
      cites the last chunk and names the last chunk's file. */
  lemma PaddingHitCitesLastChunk(
    corpus: Corpus,
    body: Json,
    retrieve: string -> Result<seq<int>>,
    complete: seq<Message> -> Result<string>,
    k: nat
  )
    requires corpus.Aligned()
    requires HandleChat(corpus, body, retrieve, complete).Answered?
    requires k < |retrieve(ReadQuery(body).q).value|
    requires retrieve(ReadQuery(body).q).value[k] == -1
    ensures |corpus.chunks| > 0
    ensures Gather(corpus.chunks, retrieve(ReadQuery(body).q).value).value[k] == corpus.chunks[|corpus.chunks| - 1]
    ensures HandleChat(corpus, body, retrieve, complete).sources[k] == corpus.docNames[|corpus.docNames| - 1]
  {
    GatherPadding(corpus.chunks, retrieve(ReadQuery(body).q).value, k);
  }

  /** The query guard on an object body: the request is rejected exactly when
      the "query" field is absent or a string of whitespace only; a string
      query with other characters is passed on stripped, with no whitespace
      at either end. */
  lemma QueryGuard(fields: map<string, Json>)
    ensures "query" !in fields ==> ReadQuery(JObject(fields)) == MissingQuery
    ensures "query" in fields && fields["query"].JString? ==>
              (ReadQuery(JObject(fields)) == MissingQuery <==> AllSpace(fields["query"].s))
    ensures "query" in fields && fields["query"].JString? && !AllSpace(fields["query"].s) ==>
              var q := ReadQuery(JObject(fields)).q;
              |q| > 0 && !IsSpace(q[0]) && !IsSpace(q[|q| - 1])
    ensures "query" in fields && fields["query"].JString? && !AllSpace(fields["query"].s) ==>
              ReadQuery(JObject(fields)) == Query(Strip(fields["query"].s))
  {
  }

  /** An empty or absent body is rejected with status 400 and the exact
      message, whatever the collaborators would have done. */
  lemma EmptyBodyRejected(
    corpus: Corpus,
    retrieve: string -> Result<seq<int>>,
    complete: seq<Message> -> Result<string>
  )
    requires corpus.Aligned()
    ensures HandleChat(corpus, JObject(map[]), retrieve, complete) == BadRequest(MissingQueryMessage)
    ensures HandleChat(corpus, JNull, retrieve, complete) == BadRequest(MissingQueryMessage)
  {
  }

  /** On an answered request over the corpus built from `docs`, the sources
      list has one entry per hit, in hit order; entry k is the file of the
      chunk cited as [k + 1] in the context (both read at the same corpus
      position), and every entry names a listed file. */
  lemma SourcesNameCitedDocuments(
    docs: seq<Document>,
    body: Json,
    retrieve: string -> Result<seq<int>>,
    complete: seq<Message> -> Result<string>
  )
    requires HandleChat(LoadAndChunk(docs), body, retrieve, complete).Answered?
    ensures var corpus := LoadAndChunk(docs);
            var hits := retrieve(ReadQuery(body).q).value;
            var top := Gather(corpus.chunks, hits).value;
            var sources := HandleChat(corpus, body, retrieve, complete).sources;
            |sources| == |top| == |hits|
            && (forall k :: 0 <= k < |hits| ==>
                  var at := Resolve(|corpus.chunks|, hits[k]);
                  top[k] == corpus.chunks[at]
                  && sources[k] == corpus.docNames[at]
                  && IsDocumentName(docs, sources[k]))
  {
    var corpus := LoadAndChunk(docs);
    CorpusNamesAreDocumentNames(docs);
    var hits := retrieve(ReadQuery(body).q).value;
    var sources := HandleChat(corpus, body, retrieve, complete).sources;
    forall k | 0 <= k < |hits|
      ensures IsDocumentName(docs, sources[k])
    {
      assert sources[k] == corpus.docNames[Resolve(|corpus.chunks|, hits[k])];
    }
  }
}
