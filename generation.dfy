/**
 * The generation page (app/page.tsx): submitting a topic opens an event feed,
 * plain messages are collected as progress steps, and the `DONE::` message
 * carries the finished post.
 */
module Generation {
  import opened Wrappers
  import opened JsString
  import opened Blog

  const EMPTY_TOPIC_ERROR: string := "Please enter a topic."
  const STREAM_ERROR: string := "Streaming error. Try again."
  /** The prefix that marks the one terminal message of a feed. */
  const DONE_PREFIX: string := "DONE::"

  /**
   * The JSON text of a terminal message, or `None` for a progress message:
   * `message.replace("DONE::", "")` once `message.startsWith("DONE::")` holds.
   * Because the first occurrence is the prefix itself, the payload is the
   * message with its first six characters removed.
   */
  function TerminalPayload(message: string): (r: Option<string>)
    ensures r.Some? <==> StartsWith(message, DONE_PREFIX)
    ensures r.Some? ==> |message| >= 6 && r.value == message[6..]
  {
    if StartsWith(message, DONE_PREFIX) then
      assert OccursAt(message, DONE_PREFIX, 0);
      Some(ReplaceFirst(message, DONE_PREFIX, ""))
    else None
  }

  /** How a step card is drawn: the spinner, the tick, or the hollow circle. */
  datatype StepStatus = Running | Complete | Pending

  /** The status of card `i` among `n` progress entries (`isRunning`, then `isComplete`, else the third look). */
  function StatusAt(i: nat, n: nat): (r: StepStatus)
    ensures r == Running <==> i + 1 == n
    ensures r == Complete <==> i + 1 < n
    ensures r == Pending <==> i >= n
  {
    if i == n - 1 then Running else if i < n - 1 then Complete else Pending
  }

  /** The statuses of all cards, in the order the progress entries arrived. */
  function Statuses(progress: seq<string>): (r: seq<StepStatus>)
    ensures |r| == |progress|
    ensures forall i :: 0 <= i < |r| ==> (r[i] == Running <==> i == |progress| - 1)
    ensures forall i :: 0 <= i < |r| ==> (r[i] == Complete <==> i < |progress| - 1)
    ensures Pending !in r
  {
    seq(|progress|, i requires 0 <= i < |progress| => StatusAt(i, |progress|))
  }

  /** When there is at least one entry, exactly one card, the last, is running. */
  lemma OneRunning(progress: seq<string>)
    requires progress != []
    ensures |set i | 0 <= i < |progress| && Statuses(progress)[i] == Running| == 1
  {
    var r := Statuses(progress);
    var running := set i | 0 <= i < |progress| && r[i] == Running;
    assert running == {|progress| - 1};
  }

  /**
   * The state of the generation page together with the event feed it has
   * opened. `feedOpen` says whether the current feed is still open;
   * `feedsOpened` and `closeCalls` count the feeds ever opened and the calls
   * to `close` made on them.
   */
  class GenerationPage {
    var topic: string
    var progress: seq<string>
    var isStreaming: bool
    var error: Option<string>
    var finishedId: Option<string>
    var feedOpen: bool
    var feedsOpened: nat
    var closeCalls: nat
    /** `JSON.parse` of a terminal payload: `None` where it throws. */
    const parse: string -> Option<BlogPost>

    /** The page streams exactly while its feed is open, and every feed but the open one was closed exactly once. */
    ghost predicate Valid()
      reads this
    {
      isStreaming == feedOpen && closeCalls + (if feedOpen then 1 else 0) == feedsOpened
    }

    /** The page as first rendered: an empty topic, no progress, nothing streaming. */
    constructor (parse: string -> Option<BlogPost>)
      ensures Valid()
      ensures this.parse == parse
      ensures topic == [] && progress == [] && !isStreaming && error == None && finishedId == None
      ensures !feedOpen && feedsOpened == 0 && closeCalls == 0
    {
      this.parse := parse;
      topic := [];
      progress := [];
      isStreaming := false;
      error := None;
      finishedId := None;
      feedOpen := false;
      feedsOpened := 0;
      closeCalls := 0;
    }

    /** Typing into the topic box (`setTopic(e.target.value)`). */
    method Edit(value: string)
      modifies this`topic
      ensures topic == value
    {
      topic := value;
    }

    /**
     * `handleSubmit`. The submit button is disabled while streaming, so a
     * submission never finds a feed open. A blank topic is refused with an
     * error; any other topic clears the previous session and opens a feed.
     */
    method Submit() returns (started: bool)
      requires Valid() && !isStreaming
      modifies this
      ensures Valid()
      ensures started <==> Trim(old(topic)) != []
      ensures progress == [] && finishedId == None && topic == old(topic)
      ensures !started ==>
        error == Some(EMPTY_TOPIC_ERROR) && !isStreaming && !feedOpen
        && feedsOpened == old(feedsOpened) && closeCalls == old(closeCalls)
      ensures started ==>
        error == None && isStreaming && feedOpen
        && feedsOpened == old(feedsOpened) + 1 && closeCalls == old(closeCalls)
    {
      var trimmed := Trim(topic);
      error := None;
      progress := [];
      finishedId := None;
      if trimmed == [] {
        error := Some(EMPTY_TOPIC_ERROR);
        return false;
      }
      isStreaming := true;
      feedOpen := true;
      feedsOpened := feedsOpened + 1;
      return true;
    }

    /**
     * `onmessage`. A progress message is appended to `progress`. A terminal
     * message is parsed; when parsing succeeds the post's id is recorded, the
     * feed is closed, streaming stops and the topic is cleared. When parsing
     * throws, the callback stops before changing anything: `completed` is false
     * and the feed stays open.
     */
    method OnMessage(message: string) returns (completed: bool)
      requires Valid() && feedOpen
      modifies this
      ensures Valid()
      ensures old(progress) <= progress
      ensures error == old(error) && feedsOpened == old(feedsOpened)
      ensures TerminalPayload(message).None? ==>
        completed && progress == old(progress) + [message]
        && topic == old(topic) && isStreaming && feedOpen
        && finishedId == old(finishedId) && closeCalls == old(closeCalls)
      ensures TerminalPayload(message).Some? && parse(message[6..]).None? ==>
        !completed && progress == old(progress)
        && topic == old(topic) && isStreaming && feedOpen
        && finishedId == old(finishedId) && closeCalls == old(closeCalls)
      ensures TerminalPayload(message).Some? && parse(message[6..]).Some? ==>
        completed && progress == old(progress)
        && topic == [] && !isStreaming && !feedOpen
        && finishedId == Some(parse(message[6..]).value.id) && closeCalls == old(closeCalls) + 1
    {
      match TerminalPayload(message)
      case Some(json) =>
        var decoded := parse(json);
        if decoded.None? {
          return false;
        }
        finishedId := Some(decoded.value.id);
        feedOpen := false;
        closeCalls := closeCalls + 1;
        isStreaming := false;
        topic := [];
        return true;
      case None =>
        progress := progress + [message];
        return true;
    }

    /** `onerror`: the fixed error is shown, the feed is closed and streaming stops. */
    method OnError()
      requires Valid() && feedOpen
      modifies this
      ensures Valid()
      ensures error == Some(STREAM_ERROR) && !isStreaming && !feedOpen
      ensures closeCalls == old(closeCalls) + 1 && feedsOpened == old(feedsOpened)
      ensures progress == old(progress) && finishedId == old(finishedId) && topic == old(topic)
    {
      error := Some(STREAM_ERROR);
      feedOpen := false;
      closeCalls := closeCalls + 1;
      isStreaming := false;
    }
  }
}
