/**
  The web layer: the in-memory `conversations` store keyed by session id and
  the endpoints that read and change it, with their request validation.

  Each endpoint is a pure transition. It takes the store, the session cookie's
  `session_id` (if the cookie holds one) and the request, and returns the new
  store, the new cookie value and the response. `uuid4()` and
  `datetime.now()` are inputs (`freshId`, `Clock`), and so is what the
  chatbot's agent stream and similarity search produce for this request.
  `up` says whether the chatbot was created at start-up (`chatbot` is not
  `None`).
 */
module App {
  import opened Options
  import opened Text
  import Assembler
  import Retrieval

  datatype Role = User | Assistant

  /** One history entry: `{'role', 'message', 'timestamp'}`. */
  datatype Turn = Turn(role: Role, message: string, timestamp: string)

  /** The `conversations` dictionary. */
  type Conversations = map<string, seq<Turn>>

  /** A JSON value under a request field: a string, or any other JSON value (number, null, list, object). */
  datatype Value = JsonString(s: string) | OtherJson

  /** The request body as `request.get_json()` sees it: an object, or anything that makes `.get` fail. */
  datatype Payload = JsonObject(fields: map<string, Value>) | NotJsonObject

  /** The three `datetime.now()` readings a chat request takes, in order. */
  datatype Clock = Clock(userTurn: string, assistantTurn: string, reply: string)

  datatype Body =
    | Page
    | ErrorBody(error: string)
    | ChatBody(response: string, timestamp: string)
    | HistoryBody(history: seq<Turn>)
    | StatusBody(status: string, message: string)
    | SourcesBody(sources: seq<Retrieval.SourceEntry>)
    | HealthBody(status: string, timestamp: string, chatbotStatus: string)

  datatype Response = Response(code: int, body: Body)

  /** The store and the session cookie after a request, and the response sent. */
  datatype Outcome = Outcome(conversations: Conversations, cookie: Option<string>, response: Response)

  const MaxMessageLength := 1000

  const ChatUnavailable := "Chatbot service is currently unavailable. Please try again later."
  const EmptyMessage := "Message cannot be empty"
  const MessageTooLong := "Message is too long. Please keep it under 1000 characters."
  const ChatFailed := "An error occurred while processing your request. Please try again."
  const SourcesUnavailable := "Chatbot service is currently unavailable"
  const EmptyQuery := "Query cannot be empty"
  const SourcesFailed := "Failed to retrieve sources"
  const ClearedStatus := "success"
  const ClearedMessage := "Conversation history cleared"
  const Healthy := "healthy"
  const Unhealthy := "unhealthy"
  const Initialized := "initialized"
  const NotInitialized := "not_initialized"

  /**
    `data.get(key, '').strip()`: the stripped string under `key`, `""` when
    the key is absent, and `None` when the expression raises (the body is not
    a JSON object, or the value is not a string).
   */
  function StrippedField(p: Payload, key: string): (r: Option<string>)
    ensures r.Some? ==> IsTrimmed(r.value)
    ensures p.NotJsonObject? ==> r == None
    ensures p.JsonObject? && key !in p.fields ==> r == Some("")
    ensures p.JsonObject? && key in p.fields && p.fields[key].OtherJson? ==> r == None
    ensures p.JsonObject? && key in p.fields && p.fields[key].JsonString? ==>
              r == Some(Strip(p.fields[key].s))
  {
    match p
    case NotJsonObject => None
    case JsonObject(fields) =>
      if key !in fields then Some("")
      else match fields[key]
        case JsonString(s) => Some(Strip(s))
        case OtherJson => None
  }

  /** The session id as `if session_id` sees it: a cookie value that is present and non-empty. */
  function SessionKey(cookie: Option<string>): (r: Option<string>)
    ensures r.Some? <==> cookie.Some? && cookie.value != ""
    ensures r.Some? ==> r.value == cookie.value
  {
    if cookie.Some? && cookie.value != "" then cookie else None
  }

  /** A session's stored turns, or none. */
  function Turns(convs: Conversations, id: string): seq<Turn> {
    if id in convs then convs[id] else []
  }

  /** `index`: a visitor without a session id gets a fresh one and an empty history. */
  function Index(convs: Conversations, cookie: Option<string>, freshId: string): (r: Outcome)
    ensures r.response == Response(200, Page)
    ensures cookie.Some? ==> r.conversations == convs && r.cookie == cookie
    ensures cookie.None? ==> r.cookie == Some(freshId)
                             && freshId in r.conversations && r.conversations[freshId] == []
                             && r.conversations.Keys == convs.Keys + {freshId}
                             && forall k :: k in convs && k != freshId ==> r.conversations[k] == convs[k]
  {
    if cookie.None? then Outcome(convs[freshId := []], Some(freshId), Response(200, Page))
    else Outcome(convs, cookie, Response(200, Page))
  }

  /** Whether a chat request goes ahead with its stripped text, or is refused with a status and message. */
  datatype Admission = Admitted(text: string) | Refused(code: int, error: string)

  /**
    The checks `chat` makes before touching the store, in the order it makes
    them: no chatbot (503), a body the handler cannot read (500), an empty
    message after stripping (400), a message over 1000 characters (400).
   */
  function AdmitMessage(up: bool, payload: Payload): (a: Admission)
    ensures a.Refused? ==> a.code != 200
    ensures !up ==> a == Refused(503, ChatUnavailable)
    ensures up && StrippedField(payload, "message").None? ==> a == Refused(500, ChatFailed)
    ensures up && StrippedField(payload, "message") == Some("") ==> a == Refused(400, EmptyMessage)
    ensures up && StrippedField(payload, "message").Some? && |StrippedField(payload, "message").value| > MaxMessageLength ==>
              a == Refused(400, MessageTooLong)
    ensures a.Admitted? <==>
              up && StrippedField(payload, "message").Some? && 0 < |StrippedField(payload, "message").value| <= MaxMessageLength
    ensures a.Admitted? ==> a.text == StrippedField(payload, "message").value
  {
    if !up then Refused(503, ChatUnavailable)
    else match StrippedField(payload, "message")
      case None => Refused(500, ChatFailed)
      case Some(m) =>
        if |m| == 0 then Refused(400, EmptyMessage)
        else if |m| > MaxMessageLength then Refused(400, MessageTooLong)
        else Admitted(m)
  }

  /** Appends `turns` to session `id`'s history, creating it if needed; no other session changes. */
  function Record(convs: Conversations, id: string, turns: seq<Turn>): (r: Conversations)
    ensures r.Keys == convs.Keys + {id}
    ensures r[id] == Turns(convs, id) + turns
    ensures forall k :: k in convs && k != id ==> r[k] == convs[k]
  {
    convs[id := Turns(convs, id) + turns]
  }

  /** Recording under `id` extends that session's turns and leaves every other session's turns as they were. */
  lemma RecordTouchesOneSession(convs: Conversations, id: string, turns: seq<Turn>, other: string)
    requires other != id
    ensures Turns(Record(convs, id, turns), id) == Turns(convs, id) + turns
    ensures Turns(Record(convs, id, turns), other) == Turns(convs, other)
  {
    var r := Record(convs, id, turns);
    assert other in r <==> other in convs;
  }

  /** The two turns an accepted chat stores: the user's message, then the reply. */
  function Exchange(message: string, reply: string, clock: Clock): seq<Turn> {
    [Turn(User, message, clock.userTurn), Turn(Assistant, reply, clock.assistantTurn)]
  }

  /**
    `chat`. A refused request changes neither the store nor the cookie. An
    accepted one keeps the session id (or takes the fresh one), and records
    the user's stripped message and the engine's reply to it under that id.
   */
  function Chat(up: bool, convs: Conversations, cookie: Option<string>, payload: Payload,
                freshId: string, stream: Assembler.Stream, clock: Clock): (r: Outcome)
    ensures r.response.code == 200 <==> AdmitMessage(up, payload).Admitted?
    ensures AdmitMessage(up, payload).Refused? ==>
              var a := AdmitMessage(up, payload);
              r == Outcome(convs, cookie, Response(a.code, ErrorBody(a.error)))
    ensures AdmitMessage(up, payload).Admitted? ==>
              var m := AdmitMessage(up, payload).text;
              var id := cookie.GetOr(freshId);
              var reply := Assembler.Reply(m, stream);
              && r.cookie == Some(id)
              && r.response.body == ChatBody(reply, clock.reply)
              && r.conversations == Record(convs, id, Exchange(m, reply, clock))
  {
    match AdmitMessage(up, payload)
    case Refused(code, error) => Outcome(convs, cookie, Response(code, ErrorBody(error)))
    case Admitted(m) =>
      var id := cookie.GetOr(freshId);
      var reply := Assembler.Reply(m, stream);
      Outcome(Record(convs, id, Exchange(m, reply, clock)), Some(id), Response(200, ChatBody(reply, clock.reply)))
  }

  /** `get_history`: the session's stored turns, or none for a missing, empty or unknown session id. */
  function History(convs: Conversations, cookie: Option<string>): (r: Response)
    ensures r.code == 200 && r.body.HistoryBody?
    ensures SessionKey(cookie).None? ==> r.body.history == []
    ensures SessionKey(cookie).Some? ==> r.body.history == Turns(convs, cookie.value)
  {
    match SessionKey(cookie)
    case None => Response(200, HistoryBody([]))
    case Some(id) => Response(200, HistoryBody(Turns(convs, id)))
  }

  /** `clear_history`: empties a known session's history; always reports success. */
  function Clear(convs: Conversations, cookie: Option<string>): (r: Outcome)
    ensures r.response == Response(200, StatusBody(ClearedStatus, ClearedMessage))
    ensures r.cookie == cookie
    ensures r.conversations.Keys == convs.Keys
    ensures forall k :: k in convs && SessionKey(cookie) != Some(k) ==> r.conversations[k] == convs[k]
    ensures SessionKey(cookie).Some? && cookie.value in convs ==> r.conversations[cookie.value] == []
  {
    var response := Response(200, StatusBody(ClearedStatus, ClearedMessage));
    match SessionKey(cookie)
    case Some(id) => if id in convs then Outcome(convs[id := []], cookie, response) else Outcome(convs, cookie, response)
    case None => Outcome(convs, cookie, response)
  }

  /**
    `get_sources`: no chatbot (503), an unreadable body (500), an empty
    query after stripping (400), otherwise the previews of what the search
    for the query returned. A running chatbot always has its vector store.
   */
  function Sources(up: bool, payload: Payload, search: Retrieval.Search): (r: Response)
    ensures !up ==> r == Response(503, ErrorBody(SourcesUnavailable))
    ensures up && StrippedField(payload, "query").None? ==> r == Response(500, ErrorBody(SourcesFailed))
    ensures up && StrippedField(payload, "query") == Some("") ==> r == Response(400, ErrorBody(EmptyQuery))
    ensures r.code == 200 <==> up && StrippedField(payload, "query").Some? && StrippedField(payload, "query").value != ""
    ensures r.code == 200 ==> r.body.SourcesBody?
    ensures r.code == 200 && search.Found? ==> |r.body.sources| == |search.docs|
    ensures r.code == 200 && search.SearchFailed? ==> r.body.sources == []
  {
    if !up then Response(503, ErrorBody(SourcesUnavailable))
    else match StrippedField(payload, "query")
      case None => Response(500, ErrorBody(SourcesFailed))
      case Some(q) =>
        if q == "" then Response(400, ErrorBody(EmptyQuery))
        else Response(200, SourcesBody(Retrieval.RelevantSources(true, search)))
  }

  /** `health`: the service reports healthy exactly when the chatbot exists. */
  function Health(up: bool, now: string): (r: Response)
    ensures r.code == 200 && r.body.HealthBody? && r.body.timestamp == now
    ensures r.body.status == Healthy <==> up
    ensures r.body.status == Unhealthy <==> !up
    ensures r.body.chatbotStatus == Initialized <==> up
  {
    if up then Response(200, HealthBody(Healthy, now, Initialized))
    else Response(200, HealthBody(Unhealthy, now, NotInitialized))
  }

  /** The request body `{"message": text}`. */
  function MessageRequest(text: string): Payload {
    JsonObject(map["message" := JsonString(text)])
  }

  /** The message field of `{"message": m}` for a trimmed `m` is `m` itself. */
  lemma TrimmedMessageField(m: string)
    requires IsTrimmed(m)
    ensures StrippedField(MessageRequest(m), "message") == Some(m)
  {
  }

  /** A request carrying an already-trimmed message is admitted with exactly that message, when it is within the limit. */
  lemma TrimmedMessageIsAdmitted(m: string)
    requires IsTrimmed(m) && 0 < |m| <= MaxMessageLength
    ensures AdmitMessage(true, MessageRequest(m)) == Admitted(m)
  {
    TrimmedMessageField(m);
  }

  /**
    A message padded with whitespace is admitted as its stripped form when
    that is 1 to 1000 characters long: the padding does not count towards the
    limit, and what goes on is the message without it.
   */
  lemma PaddedMessageIsAdmitted(m: string)
    requires 0 < |Strip(m)| <= MaxMessageLength
    ensures AdmitMessage(true, MessageRequest(m)) == Admitted(Strip(m))
    ensures exists i :: 0 <= i <= |m| - |Strip(m)| && Strip(m) == m[i..i + |Strip(m)|]
                        && AllWhitespace(m[..i]) && AllWhitespace(m[i + |Strip(m)|..])
  {
    assert StrippedField(MessageRequest(m), "message") == Some(Strip(m));
    StripIsInfix(m);
  }

  /** A message that is empty or all whitespace is refused as empty, with the store and cookie untouched. */
  lemma BlankMessageIsRefused(convs: Conversations, cookie: Option<string>, freshId: string,
                              stream: Assembler.Stream, clock: Clock, m: string)
    requires AllWhitespace(m)
    ensures Chat(true, convs, cookie, MessageRequest(m), freshId, stream, clock)
         == Outcome(convs, cookie, Response(400, ErrorBody(EmptyMessage)))
  {
    StripEmpty(m);
    assert StrippedField(MessageRequest(m), "message") == Some("");
  }

  /** The length limit is inclusive: a message of exactly 1000 characters once stripped is accepted. */
  lemma LongestMessageIsAccepted(convs: Conversations, cookie: Option<string>, freshId: string,
                                 stream: Assembler.Stream, clock: Clock, m: string)
    requires |Strip(m)| == MaxMessageLength
    ensures Chat(true, convs, cookie, MessageRequest(m), freshId, stream, clock).response.code == 200
  {
    PaddedMessageIsAdmitted(m);
  }

  /** One character more than the limit, once stripped, is refused, with the store and cookie untouched. */
  lemma OverlongMessageIsRefused(convs: Conversations, cookie: Option<string>, freshId: string,
                                 stream: Assembler.Stream, clock: Clock, m: string)
    requires |Strip(m)| == MaxMessageLength + 1
    ensures Chat(true, convs, cookie, MessageRequest(m), freshId, stream, clock)
         == Outcome(convs, cookie, Response(400, ErrorBody(MessageTooLong)))
  {
    OverlongMessageField(m);
  }

  /** The admission check refuses a message whose stripped form is one character over the limit. */
  lemma OverlongMessageField(m: string)
    requires |Strip(m)| == MaxMessageLength + 1
    ensures AdmitMessage(true, MessageRequest(m)) == Refused(400, MessageTooLong)
  {
    assert StrippedField(MessageRequest(m), "message") == Some(Strip(m));
  }

  /**
    What a chat stores is what history then shows: the session's earlier
    history followed by the user's stripped message and the reply.

    The session id must be non-empty. `chat` takes whatever the cookie holds,
    an empty string included, while `get_history` treats an empty id as no
    session at all; `EmptySessionIdIsHidden` states what happens then.
   */
  lemma ChatThenHistory(convs: Conversations, cookie: Option<string>, m: string,
                        freshId: string, stream: Assembler.Stream, clock: Clock)
    requires SessionKey(cookie).Some? || (cookie.None? && freshId != "")
    requires 0 < |Strip(m)| <= MaxMessageLength
    ensures var r := Chat(true, convs, cookie, MessageRequest(m), freshId, stream, clock);
            History(r.conversations, r.cookie).body.history
            == History(convs, Some(cookie.GetOr(freshId))).body.history
               + Exchange(Strip(m), Assembler.Reply(Strip(m), stream), clock)
  {
    PaddedMessageIsAdmitted(m);
  }

  /**
    A cookie whose session id is the empty string (the app only ever issues
    `uuid4()` ids, so such a cookie is forged or tampered with): `chat`
    accepts the message and stores the exchange under `""`, but `get_history`
    reads `""` as no session, so the exchange is never shown.
   */
  lemma EmptySessionIdIsHidden(convs: Conversations, m: string, freshId: string,
                               stream: Assembler.Stream, clock: Clock)
    requires 0 < |Strip(m)| <= MaxMessageLength
    ensures var r := Chat(true, convs, Some(""), MessageRequest(m), freshId, stream, clock);
            && r.response.code == 200
            && r.cookie == Some("")
            && Turns(r.conversations, "") == Turns(convs, "") + Exchange(Strip(m), Assembler.Reply(Strip(m), stream), clock)
            && History(r.conversations, r.cookie).body.history == []
  {
    PaddedMessageIsAdmitted(m);
  }

  /** A chat in one session leaves every other session's history as it was. */
  lemma ChatKeepsOtherHistories(convs: Conversations, cookie: Option<string>, payload: Payload,
                                freshId: string, stream: Assembler.Stream, clock: Clock, other: string)
    requires other != cookie.GetOr(freshId)
    ensures var r := Chat(true, convs, cookie, payload, freshId, stream, clock);
            History(r.conversations, Some(other)) == History(convs, Some(other))
  {
    match AdmitMessage(true, payload)
    case Refused(_, _) =>
    case Admitted(m) =>
      var id := cookie.GetOr(freshId);
      RecordTouchesOneSession(convs, id, Exchange(m, Assembler.Reply(m, stream), clock), other);
  }

  /** Clearing a session and then chatting leaves exactly the new exchange in its history. */
  lemma ClearThenChat(convs: Conversations, id: string, m: string, freshId: string,
                      stream: Assembler.Stream, clock: Clock)
    requires id != "" && id in convs
    requires 0 < |Strip(m)| <= MaxMessageLength
    ensures var cleared := Clear(convs, Some(id)).conversations;
            var r := Chat(true, cleared, Some(id), MessageRequest(m), freshId, stream, clock);
            History(r.conversations, r.cookie).body.history == Exchange(Strip(m), Assembler.Reply(Strip(m), stream), clock)
  {
    PaddedMessageIsAdmitted(m);
  }

  /** Clearing twice is clearing once, and a cleared session's history is empty. */
  lemma ClearIsIdempotent(convs: Conversations, cookie: Option<string>)
    ensures var once := Clear(convs, cookie).conversations;
            Clear(once, cookie).conversations == once
    ensures SessionKey(cookie).Some? ==> History(Clear(convs, cookie).conversations, cookie).body.history == []
  {
  }

  /** A new visitor's history is empty, and visiting again keeps the session. */
  lemma NewVisitorHasEmptyHistory(convs: Conversations, freshId: string)
    ensures var r := Index(convs, None, freshId);
            History(r.conversations, r.cookie).body.history == []
            && Index(r.conversations, r.cookie, freshId) == r
  {
  }

  /** An accepted sources request shows one preview per document the search returned, in order. */
  lemma SourcesPreviewEachDoc(payload: Payload, docs: seq<Retrieval.Doc>)
    requires StrippedField(payload, "query").Some? && StrippedField(payload, "query").value != ""
    ensures var r := Sources(true, payload, Retrieval.Found(docs));
            && r.code == 200
            && |r.body.sources| == |docs|
            && forall i :: 0 <= i < |docs| ==>
                 r.body.sources[i] == Retrieval.SourceEntry(Retrieval.SourceName(docs[i]), Retrieval.Preview(docs[i].pageContent))
  {
  }
}

