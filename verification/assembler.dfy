/**
  The response assembler of the chatbot engine (`get_response`): it walks the
  events the agent streams for one question and keeps the text of the last
  AI-authored message that has any.
 */
module Assembler {
  import opened Options
  import opened Text
  import opened Normalizer

  /**
    A message in canonical form: its `type`/`role` discriminator if it has
    one, whether its class name contains `aimessage`, and its raw content.
   */
  datatype Msg = Msg(kind: Option<string>, aiClass: bool, content: Content)

  /** One streamed state of the agent: the messages so far. */
  datatype Event = Event(messages: seq<Msg>)

  /** How the agent's stream ended after the events it produced. */
  datatype End = Finished | TimedOut | Failed

  /** The events the agent produced for one question, then how the stream ended. */
  datatype Stream = Stream(events: seq<Event>, end: End)

  const InvalidQuestion := "Please provide a valid question."
  const NoResponse := "I apologize, but I couldn't generate a response. Please try rephrasing your question or ask something else."
  const TimeoutReply := "The request timed out. Please try again with a shorter question."
  const ErrorReply := "I apologize, but I encountered an error processing your request. Please try again or rephrase your question."

  /** AI-authored: discriminator `ai` or `assistant`, or else an AI message class. */
  predicate IsAI(m: Msg) {
    m.kind == Some("ai") || m.kind == Some("assistant") || m.aiClass
  }

  function LastMessage(e: Event): Msg
    requires |e.messages| > 0
  {
    e.messages[|e.messages| - 1]
  }

  /** Normalising the event's last message does not raise (events without messages are skipped). */
  predicate Readable(e: Event) {
    |e.messages| == 0 || WellFormed(LastMessage(e).content)
  }

  predicate AllReadable(events: seq<Event>) {
    forall i :: 0 <= i < |events| ==> Readable(events[i])
  }

  /** The candidate answer an event sets: the text of its last message when that is AI-authored and has text. */
  function Contribution(e: Event): (t: Option<string>)
    requires Readable(e)
    ensures t.Some? ==> |e.messages| > 0 && IsAI(LastMessage(e)) && Normalize(LastMessage(e).content) == t
    ensures t.None? ==> |e.messages| == 0 || !IsAI(LastMessage(e)) || Normalize(LastMessage(e).content).None?
  {
    if |e.messages| == 0 then None
    else
      var m := LastMessage(e);
      var text := Normalize(m.content);
      if IsAI(m) && text.Some? && |text.value| > 0 then text else None
  }

  /** The candidate each event sets, in stream order. */
  function Contributions(events: seq<Event>): (cs: seq<Option<string>>)
    requires AllReadable(events)
    ensures |cs| == |events|
    ensures forall k :: 0 <= k < |events| ==> cs[k] == Contribution(events[k])
  {
    seq(|events|, k requires 0 <= k < |events| && Readable(events[k]) => Contribution(events[k]))
  }

  /** Reference fold: the last present value of a sequence, searching from its end. */
  function LastPresent(cs: seq<Option<string>>): Option<string> {
    if |cs| == 0 then None
    else if cs[|cs| - 1].Some? then cs[|cs| - 1]
    else LastPresent(cs[..|cs| - 1])
  }

  /** The answer the stream leaves behind: the candidate of the last event that sets one. */
  function LastContribution(events: seq<Event>): (t: Option<string>)
    requires AllReadable(events)
  {
    LastPresent(Contributions(events))
  }

  /**
    `LastPresent` finds the last present value: when position `k` is present and
    no later one is, the result is the value at `k`; it is absent exactly when
    every position is.
   */
  lemma {:induction false} LastPresentIsLast(cs: seq<Option<string>>)
    ensures forall k :: 0 <= k < |cs| && cs[k].Some? && (forall j :: k < j < |cs| ==> cs[j].None?)
                     ==> LastPresent(cs) == cs[k]
    ensures LastPresent(cs).None? <==> forall k :: 0 <= k < |cs| ==> cs[k].None?
    ensures LastPresent(cs).Some? ==> exists k :: 0 <= k < |cs| && cs[k] == LastPresent(cs)
    decreases |cs|
  {
    if |cs| > 0 {
      var init := cs[..|cs| - 1];
      assert forall j :: 0 <= j < |init| ==> init[j] == cs[j];
      LastPresentIsLast(init);
      if LastPresent(cs).Some? && cs[|cs| - 1].None? {
        var k :| 0 <= k < |init| && init[k] == LastPresent(init);
        assert cs[k] == LastPresent(cs);
      }
    }
  }

  /** Every answer the fold can produce is a non-empty trimmed text. */
  lemma LastContributionIsText(events: seq<Event>)
    requires AllReadable(events)
    ensures LastContribution(events).Some? ==>
              |LastContribution(events).value| > 0 && IsTrimmed(LastContribution(events).value)
  {
    LastPresentIsLast(Contributions(events));
  }

  /**
    The fold finds the last contributing event: when event `k` contributes and
    no later one does, the result is `k`'s text; when none contributes, nothing.
   */
  lemma LastContributionIsLast(events: seq<Event>)
    requires AllReadable(events)
    ensures forall k :: 0 <= k < |events| && Contribution(events[k]).Some?
                        && (forall j :: k < j < |events| ==> Contribution(events[j]).None?)
                     ==> LastContribution(events) == Contribution(events[k])
    ensures LastContribution(events).None? <==> forall k :: 0 <= k < |events| ==> Contribution(events[k]).None?
  {
    LastPresentIsLast(Contributions(events));
  }

  /** One more event adds its own candidate at the end. */
  lemma ContributionsSnoc(events: seq<Event>, e: Event)
    requires AllReadable(events) && Readable(e)
    ensures AllReadable(events + [e])
    ensures Contributions(events + [e]) == Contributions(events) + [Contribution(e)]
  {
    var zs := events + [e];
    assert forall k :: 0 <= k < |events| ==> zs[k] == events[k];
    assert zs[|events|] == e;
  }

  /** An event that sets no candidate (no messages, not AI, or no text) leaves the answer as it was. */
  lemma SilentEventKeepsAnswer(events: seq<Event>, e: Event)
    requires AllReadable(events) && Readable(e)
    requires |e.messages| == 0 || !IsAI(LastMessage(e)) || Normalize(LastMessage(e).content).None?
    ensures AllReadable(events + [e])
    ensures LastContribution(events + [e]) == LastContribution(events)
  {
    ContributionsSnoc(events, e);
    var cs := Contributions(events);
    assert (cs + [Contribution(e)])[..|cs|] == cs;
  }

  /** A later AI answer overrides every earlier one. */
  lemma LaterAnswerWins(events: seq<Event>, e: Event)
    requires AllReadable(events) && Readable(e)
    requires |e.messages| > 0 && IsAI(LastMessage(e)) && Normalize(LastMessage(e).content).Some?
    ensures AllReadable(events + [e])
    ensures LastContribution(events + [e]) == Normalize(LastMessage(e).content)
  {
    ContributionsSnoc(events, e);
  }

  /** The state of the loop in `get_response`: the candidate so far, or the exception that ended it. */
  datatype Scan = Scanning(candidate: Option<string>) | Raised

  /**
    One pass of the loop body: skip an event without messages, raise when the
    last message's content cannot be normalised, otherwise let an AI message
    with text replace the candidate.
   */
  function Step(s: Scan, e: Event): Scan {
    match s
    case Raised => Raised
    case Scanning(_) =>
      if |e.messages| == 0 then s
      else if !WellFormed(LastMessage(e).content) then Raised
      else if Contribution(e).Some? then Scanning(Contribution(e))
      else s
  }

  /** The loop state after consuming `events` in order. */
  function ScanAll(events: seq<Event>): (s: Scan)
    ensures s.Scanning? && s.candidate.Some? ==> |s.candidate.value| > 0 && IsTrimmed(s.candidate.value)
  {
    if |events| == 0 then Scanning(None)
    else Step(ScanAll(events[..|events| - 1]), events[|events| - 1])
  }

  /** `get_response` as a function of the question and the stream the agent produced for it. */
  function Reply(question: string, stream: Stream): (r: string)
    ensures |r| > 0
    ensures r in {InvalidQuestion, ErrorReply, TimeoutReply, NoResponse} || IsTrimmed(r)
    ensures Strip(question) == [] ==> r == InvalidQuestion
  {
    if Strip(question) == [] then InvalidQuestion
    else match ScanAll(stream.events)
      case Raised => ErrorReply
      case Scanning(candidate) =>
        match stream.end
        case TimedOut => TimeoutReply
        case Failed => ErrorReply
        case Finished => if candidate.Some? then candidate.value else NoResponse
  }

  /**
    The loop raises exactly when some event's last message cannot be
    normalised; otherwise it ends holding the candidate of the last event that
    sets one.
   */
  lemma {:induction false} ScanFindsLastAnswer(events: seq<Event>)
    ensures ScanAll(events) == Raised <==> !AllReadable(events)
    ensures AllReadable(events) ==> ScanAll(events) == Scanning(LastContribution(events))
    decreases |events|
  {
    if |events| > 0 {
      var init, e := events[..|events| - 1], events[|events| - 1];
      assert events == init + [e];
      ScanFindsLastAnswer(init);
      assert forall k :: 0 <= k < |init| ==> init[k] == events[k];
      if AllReadable(init) && Readable(e) {
        ContributionsSnoc(init, e);
        var cs := Contributions(init);
        assert (cs + [Contribution(e)])[..|cs|] == cs;
      }
    }
  }

  /**
    What the user is told: the invalid-question notice for a blank question;
    the generic error when some event cannot be read; the timeout or error
    notice when the stream raised; otherwise the text of the last AI message
    that has one, or the fixed apology when there is none.
   */
  lemma ReplyIsLastAIText(question: string, stream: Stream)
    ensures AllWhitespace(question) ==> Reply(question, stream) == InvalidQuestion
    ensures !AllWhitespace(question) && !AllReadable(stream.events) ==> Reply(question, stream) == ErrorReply
    ensures !AllWhitespace(question) && AllReadable(stream.events) ==>
              (stream.end == TimedOut ==> Reply(question, stream) == TimeoutReply)
              && (stream.end == Failed ==> Reply(question, stream) == ErrorReply)
    ensures !AllWhitespace(question) && AllReadable(stream.events) && stream.end == Finished ==>
              (forall k :: 0 <= k < |stream.events| && Contribution(stream.events[k]).Some?
                           && (forall j :: k < j < |stream.events| ==> Contribution(stream.events[j]).None?)
                        ==> Reply(question, stream) == Contribution(stream.events[k]).value)
              && ((forall k :: 0 <= k < |stream.events| ==> Contribution(stream.events[k]).None?)
                  ==> Reply(question, stream) == NoResponse)
  {
    StripEmpty(question);
    ReplyOutcome(question, stream);
    if !AllWhitespace(question) && AllReadable(stream.events) && stream.end == Finished {
      LastContributionIsLast(stream.events);
    }
  }

  /** The reply case by case, with the fold's answer standing for the loop. */
  lemma ReplyOutcome(question: string, stream: Stream)
    ensures !AllWhitespace(question) && !AllReadable(stream.events) ==> Reply(question, stream) == ErrorReply
    ensures !AllWhitespace(question) && AllReadable(stream.events) ==>
              Reply(question, stream) == match stream.end
                                         case TimedOut => TimeoutReply
                                         case Failed => ErrorReply
                                         case Finished => LastContribution(stream.events).GetOr(NoResponse)
  {
    StripEmpty(question);
    ScanFindsLastAnswer(stream.events);
  }

  /**
    `get_response` as written: the blank-question guard, then one pass over the
    stream keeping the latest candidate, then the end-of-stream outcome.
   */
  method GetResponse(question: string, stream: Stream) returns (r: string)
    ensures r == Reply(question, stream)
  {
    if Strip(question) == [] {
      return InvalidQuestion;
    }
    var events := stream.events;
    var final: Option<string> := None;
    var i := 0;
    assert events[..0] == [];
    while i < |events|
      invariant 0 <= i <= |events|
      invariant ScanAll(events[..i]) == Scanning(final)
    {
      ScanAllPrefix(events, i);
      var raised, next := ConsiderEvent(events[i], final);
      if raised {
        ScanRaisedStays(events, i + 1);
        assert events[..|events|] == events;
        return ErrorReply;
      }
      final := next;
      i := i + 1;
    }
    assert events[..i] == events;
    match stream.end {
      case TimedOut => r := TimeoutReply;
      case Failed => r := ErrorReply;
      case Finished =>
        if final.Some? {
          r := final.value;
        } else {
          r := NoResponse;
        }
    }
  }

  /**
    The loop body of `get_response` for one event: whether normalising its last
    message raises, and otherwise the candidate after it.
   */
  method ConsiderEvent(e: Event, final: Option<string>) returns (raised: bool, next: Option<string>)
    ensures raised <==> Step(Scanning(final), e) == Raised
    ensures !raised ==> Step(Scanning(final), e) == Scanning(next)
  {
    raised, next := false, final;
    if |e.messages| > 0 {
      var m := e.messages[|e.messages| - 1];
      if !WellFormed(m.content) {
        return true, final;
      }
      var text := Normalize(m.content);
      var isAI := false;
      if m.kind == Some("ai") || m.kind == Some("assistant") {
        isAI := true;
      } else if m.aiClass {
        isAI := true;
      }
      if isAI && text.Some? && |text.value| > 0 {
        next := text;
      }
    }
  }

  /** The loop state after `i + 1` events is one step on from the state after `i`. */
  lemma ScanAllPrefix(events: seq<Event>, i: nat)
    requires i < |events|
    ensures ScanAll(events[..i + 1]) == Step(ScanAll(events[..i]), events[i])
  {
    assert events[..i + 1][..i] == events[..i];
  }

  /** Once the loop has raised, no later event changes that. */
  lemma {:induction false} ScanRaisedStays(events: seq<Event>, n: nat)
    requires n <= |events| && ScanAll(events[..n]) == Raised
    ensures ScanAll(events) == Raised
    decreases |events| - n
  {
    if n < |events| {
      assert events[..n + 1][..n] == events[..n];
      ScanRaisedStays(events, n + 1);
    } else {
      assert events[..n] == events;
    }
  }
}
