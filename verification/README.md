# Medical chatbot RAG system — the text-shaping core and the conversation store

This Dafny project models the logic of the medical question-answering service that is the system's own:

- **`_extract_text_content`**, the content normaliser (module `Normalizer`). It flattens a message's content into one trimmed text, or nothing. The content may be a string, a dict, a list or anything else.
- **The event loop of `get_response`**, the response assembler (module `Assembler`). It walks the events the agent streams for one question and keeps the text of the last AI-authored message that has any. It falls back to fixed replies for a blank question, a timeout, an error, or no answer at all.
- **The `retrieve_medical_context` tool and `get_relevant_sources`** (module `Retrieval`). They turn the documents a similarity search returns into the agent's context string, or into 200-character previews for the user interface.
- **The Flask endpoints `index`, `chat`, `get_history`, `clear_history`, `get_sources` and `health`** (module `App`). These run over the in-memory `conversations` map from session id to turns, together with their request validation.

Two small modules hold shared vocabulary:

- `Options`: `Option`, Python's `None`-or-value.
- `Text`: Python's `str.strip()` and `sep.join(parts)`.
  - Whitespace is the exact set of code points `str.isspace()` accepts.
  - Strings are sequences of Unicode scalar values. Python's `str` is a sequence of code points and can also hold lone surrogates; the model's strings cannot (see "Left out").

The model is functional: immutable datatypes and pure functions.

- Every endpoint is a transition. It takes the `conversations` map, the session cookie's `session_id` and the request. It returns the new map, the new cookie and the response.
- Some inputs come from outside the system. They are parameters:
  - the fresh id `uuid4()` would produce;
  - the `datetime.now()` readings;
  - the events the agent streams, and how the stream ends;
  - the outcome of the vector store's similarity search.

`Assembler.GetResponse` is the loop of `get_response` written as a loop. It is proved equal to the functional `Assembler.Reply`.

## Model

| member | source | states |
|---|---|---|
| Text.Strip | chatbot_engine.py:164 | `str.strip()`: the result has no whitespace at either end, and an already trimmed string is left unchanged |
| Text.TrimStartDropsWhitespace | chatbot_engine.py:164 | what the left half of `strip()` removes is whitespace only |
| Text.TrimEndDropsWhitespace | chatbot_engine.py:164 | what the right half of `strip()` removes is whitespace only |
| Text.StripEmpty | chatbot_engine.py:164-165 | `strip()` leaves nothing exactly when the string is all whitespace |
| Text.StripIsInfix | chatbot_engine.py:164 | what `strip()` removes is whitespace, taken only from the two ends: the result is a contiguous infix of the input |
| Text.JoinEnds | chatbot_engine.py:186 | `"\n\n".join(parts)` starts with the first part and ends with the last |
| Text.JoinConcat | chatbot_engine.py:186 | joining two non-empty lists equals joining their joins with one separator between |
| Text.JoinTrimmed | chatbot_engine.py:186 | joining non-empty trimmed parts gives a non-empty trimmed text, whatever the separator |
| Normalizer.IndexOf | chatbot_engine.py:175-176 | a found position holds the looked-up key (`key in d`, then `d[key]`) |
| Normalizer.IndexOfIsFirst | chatbot_engine.py:175-176 | the lookup finds the first entry with the key, and finds nothing exactly when no entry has it |
| Normalizer.FirstKeyIndex | chatbot_engine.py:174-177 | the position chosen among the fallback keys lies inside the dict |
| Normalizer.FirstKeyIndexIsFirstPresent | chatbot_engine.py:174-177 | the chosen position belongs to the first key of the priority list that is present, and there is none exactly when no key is present |
| Normalizer.Normalize | chatbot_engine.py:155-189 | the output invariant: the result is nothing, or a non-empty text with no leading or trailing whitespace |
| Normalizer.NormalizeDict | chatbot_engine.py:167-177 | a dict gives nothing or a non-empty trimmed text |
| Normalizer.NormalizeList | chatbot_engine.py:179-187 | a list gives nothing or a non-empty trimmed text |
| Normalizer.Texts | chatbot_engine.py:180-184 | the kept element texts are at most as many as the elements, and each is non-empty and trimmed |
| Normalizer.Kept | chatbot_engine.py:183-184 | `if block_text: parts.append(block_text)` keeps exactly a present, non-empty text, once |
| Normalizer.NormalizeString | chatbot_engine.py:163-165 | a string gives its stripped form, and gives nothing exactly when it is all whitespace |
| Normalizer.TextBlockYieldsTextField | chatbot_engine.py:169-171 | a dict whose `"type"` is `"text"` gives its stripped `"text"` field, and nothing when that field is missing |
| Normalizer.TextBlockIgnoresOtherKeys | chatbot_engine.py:169-171 | two text blocks with the same `"text"` field give the same result, whatever their other keys |
| Normalizer.FirstFallbackKeyDecides | chatbot_engine.py:174-176 | in any other dict, the first present key among `content`, `text`, `value` decides by recursion, even when its value has no text |
| Normalizer.NoFallbackKeyYieldsNothing | chatbot_engine.py:177 | a dict that is not a text block and has none of the fallback keys gives nothing |
| Normalizer.TextsSnoc | chatbot_engine.py:181-184 | one more list element adds exactly its own kept text at the end |
| Normalizer.TextsConcat | chatbot_engine.py:180-184 | the kept texts of a concatenation are the kept texts of its halves, in order |
| Normalizer.TextsEmpty | chatbot_engine.py:180-185 | no text is kept exactly when no element has a text |
| Normalizer.NoTextSnoc | chatbot_engine.py:181-185 | a list with one more element has no element text exactly when the shorter list and the new element have none |
| Normalizer.ListWithoutTextIsNothing | chatbot_engine.py:179-187 | a list gives nothing exactly when every element gives nothing |
| Normalizer.FinalStripIsIdentity | chatbot_engine.py:186 | the final `.strip()` on the joined texts never changes them |
| Normalizer.NormalizeListIsJoin | chatbot_engine.py:179-187 | a list gives the join of its element texts with `"\n\n"`, or nothing when there are none |
| Normalizer.NormalizeListConcat | chatbot_engine.py:179-187 | the text of a concatenated list is the texts of its halves, joined by the separator when both have one |
| Normalizer.NormalizeSingleton | chatbot_engine.py:179-187 | a one-element list gives the same result as its element |
| Normalizer.NormalizeSnoc | chatbot_engine.py:179-187 | appending an element appends its text, with the separator, to the list's text |
| Normalizer.NormalizeThreeBlocks | chatbot_engine.py:179-187 | a three-element list merges its element texts left to right, so `[a, no text, b]` gives `a + "\n\n" + b` |
| Normalizer.NormalizeIdempotent | chatbot_engine.py:155-189 | the text of any content, normalised again as a string, is itself |
| Assembler.Contribution | chatbot_engine.py:211-241 | an event sets a candidate only when its last message is AI-authored (`ai`/`assistant` or an AI message class) and its content has text, and the candidate is that text |
| Assembler.Contributions | chatbot_engine.py:203-241 | one candidate per event, in stream order |
| Assembler.LastPresentIsLast | chatbot_engine.py:239-241 | the fold keeps the last present candidate, and keeps none exactly when none is present |
| Assembler.LastContributionIsText | chatbot_engine.py:239-241 | every answer the fold can keep is a non-empty trimmed text |
| Assembler.LastContributionIsLast | chatbot_engine.py:203-241 | the answer is the candidate of the last event that sets one; there is none exactly when no event sets one |
| Assembler.ContributionsSnoc | chatbot_engine.py:203-241 | one more event adds its own candidate at the end |
| Assembler.SilentEventKeepsAnswer | chatbot_engine.py:211-213 | an event with no messages, with a message that is not AI-authored, or with no text leaves the answer as it was |
| Assembler.LaterAnswerWins | chatbot_engine.py:239-241 | a later AI answer with text replaces every earlier one |
| Assembler.ScanAll | chatbot_engine.py:203-241 | the candidate the loop holds is always a non-empty trimmed text |
| Assembler.ScanFindsLastAnswer | chatbot_engine.py:203-241 | the loop raises exactly when some event's last message cannot be normalised; otherwise it ends on the last event's candidate |
| Assembler.ScanRaisedStays | chatbot_engine.py:203-241 | once an exception has left the loop, later events cannot change the outcome |
| Assembler.Reply | chatbot_engine.py:191-260 | the reply is never empty; it is one of the four fixed notices or a trimmed AI text; a question that strips to nothing gets the invalid-question notice without consulting the stream |
| Assembler.ReplyOutcome | chatbot_engine.py:244-260 | for a non-blank question, the reply by how the stream ended: the error notice for an unreadable event, the timeout or error notice, or else the fold's answer with the fixed apology as default |
| Assembler.ReplyIsLastAIText | chatbot_engine.py:191-260 | blank question: invalid-question notice. Unreadable event: generic error. Timeout: timeout notice. Other failure: error notice. Otherwise the text of the last qualifying AI message, or the fixed apology when there is none |
| Assembler.GetResponse | chatbot_engine.py:191-253 | the loop as written computes exactly the reply the functional model describes |
| Assembler.ConsiderEvent | chatbot_engine.py:211-241 | one pass of the loop body raises exactly when the model's step does, and otherwise leaves the candidate the step describes |
| Assembler.ScanAllPrefix | chatbot_engine.py:203-241 | the loop state after one more event is one step on from the state before |
| Retrieval.Describe | chatbot_engine.py:100-101 | a formatted passage begins with `Source: `, the document's source name and `\nContent: `, and ends with the document's whole page content; nothing else is in it |
| Retrieval.DescribeAll | chatbot_engine.py:99-102 | one formatted passage per document, in retrieval order |
| Retrieval.RetrieveContext | chatbot_engine.py:84-108 | No store: `Knowledge base is not available.` and no documents. A failed search: `Error accessing knowledge base: ` plus the message. No documents: the not-found message. The documents come back only when the search found some |
| Retrieval.ContextListsDocsInOrder | chatbot_engine.py:99-105 | the context starts with the first passage; one document gives its passage alone; one more document adds exactly the separator and its passage at the end; the artifact is the documents |
| Retrieval.ContextOutcomesAreDistinct | chatbot_engine.py:89-108 | a successful context starts with `Source: `, the three fixed outcomes do not, and they differ from one another |
| Retrieval.Preview | chatbot_engine.py:270 | content of at most 200 characters is unchanged; longer content keeps its first 200 characters, followed by `...`, for exactly 203 |
| Retrieval.PreviewIsIdempotent | chatbot_engine.py:270 | previewing a preview changes nothing |
| Retrieval.Previews | chatbot_engine.py:266-272 | one row per document, in order, each with the document's source (`Unknown` when missing) and the preview of its content |
| Retrieval.RelevantSources | chatbot_engine.py:262-275 | a failed search (or a missing store) gives no rows; otherwise rows as many as documents, in order, with the source names and the truncation bounds |
| Retrieval.SourcesMatchContext | chatbot_engine.py:84-108 | for the same search, the preview rows and the agent's context cover the same documents in the same order under the same source names |
| App.StrippedField | app.py:55-56 | `data.get(key, '').strip()`: a missing key reads as empty; a body that is not an object, or a value that is not a string, fails; a string field gives exactly its `strip()` |
| App.SessionKey | app.py:110-112 | `if session_id` accepts exactly a cookie value that is present and non-empty |
| App.Index | app.py:34-43 | a visitor without a session id gets the fresh id and an empty history, and no other session changes; a visitor with one changes nothing |
| App.AdmitMessage | app.py:49-67 | refusals in the source's order (503 no chatbot, 500 unreadable body, 400 empty, 400 over 1000 characters), and admission exactly for a stripped message of 1 to 1000 characters |
| App.Record | app.py:73-93 | appending to a session creates it if needed, keeps its earlier turns in front, and leaves every other session alone |
| App.RecordTouchesOneSession | app.py:73-93 | after appending under one id, that session's turns are extended and every other id's turns read as before |
| App.Chat | app.py:46-104 | a refused request changes neither store nor cookie; an accepted one keeps (or takes the fresh) session id, answers with the engine's reply, and records the stripped message and that reply under it |
| App.History | app.py:107-117 | a missing, empty or unknown session id gives an empty history; a known one gives its stored turns unchanged |
| App.Clear | app.py:120-132 | always reports success; a known session's history becomes empty; no other session changes and an unknown id is a no-op |
| App.Sources | app.py:135-161 | 503 without a chatbot, 500 for an unreadable body, 400 for an empty query; otherwise one preview per document, and none when the search failed |
| App.Health | app.py:164-171 | `healthy`/`initialized` exactly when the chatbot exists |
| App.TrimmedMessageField | app.py:55-56 | an already-trimmed message reads back as itself |
| App.TrimmedMessageIsAdmitted | app.py:58-67 | a trimmed message of 1 to 1000 characters is admitted unchanged |
| App.PaddedMessageIsAdmitted | app.py:55-67 | a message whose stripped form has 1 to 1000 characters is admitted as that stripped form, whatever whitespace pads it; the padding counts neither as content nor towards the limit |
| App.BlankMessageIsRefused | app.py:58-61 | an empty or all-whitespace message gives 400 `Message cannot be empty` and changes nothing |
| App.LongestMessageIsAccepted | app.py:64-67 | the length limit is inclusive and applies after stripping: a message of exactly 1000 characters once stripped is accepted |
| App.OverlongMessageField | app.py:55-67 | the admission check refuses a message of 1001 characters once stripped as too long |
| App.OverlongMessageIsRefused | app.py:64-67 | a message of 1001 characters once stripped gives 400 with the too-long message and changes nothing |
| App.ChatThenHistory | app.py:55-117 | with a non-empty session id, after a chat the session's history is its earlier history followed by the user's stripped message and the reply |
| App.EmptySessionIdIsHidden | app.py:70-114 | a cookie holding the empty session id (never issued by the app, so forged): the chat is accepted and stored under `""`, but history reads `""` as no session and shows nothing |
| App.ChatKeepsOtherHistories | app.py:79-93 | a chat, accepted or not, leaves every other session's history as it was |
| App.ClearThenChat | app.py:123-126 | after clearing, a chat starts a fresh history holding exactly the new exchange, with the message stripped |
| App.ClearIsIdempotent | app.py:123-126 | clearing twice is clearing once, and a cleared session's history is empty |
| App.NewVisitorHasEmptyHistory | app.py:38-40 | a new visitor's history is empty, and visiting again keeps the session and changes nothing |
| App.SourcesPreviewEachDoc | app.py:143-155 | an accepted sources request shows one preview per found document, in order |

## Left out

- Constructing the embeddings, the vector store, the language model and the agent (chatbot_engine.py:17-74, 75-152). These are calls into external services. The model takes their results as inputs instead:
  - the streamed events, with how the stream ended;
  - the outcome of the similarity search.
- The similarity search's ranking, and its `k` (chatbot_engine.py:94, 265). The documents the search returns are an input. The model does not bound their number.
- `TimeoutError` and other exceptions raised by the agent stream (chatbot_engine.py:255-260). They are the `End` of a `Stream`: `TimedOut` or `Failed`.
  - In the source, an exception can interrupt the stream part-way. The reply is then the same as if the stream had ended there.
  - So the model processes the events that arrived and then applies the ending.
- Exceptions inside the retrieval code (chatbot_engine.py:106-108, 273-275). They appear as a search outcome `SearchFailed(message)`, where `message` stands for `str(e)`.
- Python duck typing on messages (`hasattr`, `isinstance`, `__class__.__name__`, chatbot_engine.py:217-239). Each last message is reduced to a canonical `Msg`: its `type`/`role` discriminator, whether its class name contains `aimessage`, and its content.
- The `.strip()` exception the normaliser can raise on a `"text"` field that is not a string (chatbot_engine.py:170).
  - `Normalizer.Normalize` requires `WellFormed`, which rules that case out.
  - The assembler does not require it: an event whose content is not `WellFormed` makes `get_response` return its generic error reply, as the source's `except Exception` does.
- Normalizer.Normalize: does not model Python's recursion limit. The source recurses once per level of nesting (chatbot_engine.py:176, 182). Content nested past that limit makes it raise `RecursionError`, which `get_response` turns into its generic error reply (chatbot_engine.py:258-260). The model has no depth bound and returns the text.
- Lone surrogates (U+D800 to U+DFFF). A Python `str` can hold them, for example one decoded from the JSON escape `"\ud800"` in a chat message (app.py:55-64). A Dafny string cannot, so requests and contents that contain them are outside the model. `str.isspace()` is false for a surrogate, so the model's `strip()` and length rules would treat one like any other non-whitespace character.
- Dicts are association lists, and lookups take the first entry with a key. This matches a Python dict, whose keys are unique.
- Logging, the agent's system prompt (chatbot_engine.py:111-140) and the `get_chatbot` singleton accessor (chatbot_engine.py:278-286).
- Flask itself, which the model does not include:
  - routing, templates, JSON serialisation and the cookie signing of `session`;
  - the 404/405/500 error handlers (app.py:174-204);
  - `MAX_CONTENT_LENGTH`.
  The index page is the body `Page`. Any `request.get_json()` failure is the payload `NotJsonObject`, which gives the 500 reply.
- `uuid4()` and `datetime.now()`: they are the parameters `freshId` and `Clock` (the three readings a chat takes) or `now`.
- Concurrent requests against the shared `conversations` map. The source does not synchronise them, and the model treats requests one at a time.
- run.py: environment parsing and server start-up.
- Retrieval.RelevantSources: the contract states the truncation bounds and the source names per row; the exact row contents are stated by `Retrieval.Previews` and `App.SourcesPreviewEachDoc`.
