/**
 The `message` event handler that reacts to a top-level message with the
 emoji a language model suggests. The model's reply (or the failure to get
 one) arrives as a parameter, and the outcome of each `reactions.add` call is
 decided by a parameter.
 */
module EmojiReact {
  import opened Wrappers
  import opened ReplyParse

  /** The fields of a `message` event the handler reads; `threadTs` is
      present exactly when the event carries a `thread_ts` key. */
  datatype Event = Event(channel: string, ts: string, threadTs: Option<string>)

  /** One `reactions.add` request: the emoji `name` on message `timestamp`. */
  datatype Reaction = Reaction(channel: string, timestamp: string, name: string)

  /** What a `reactions.add` call did; a failure is logged and nothing more. */
  datatype Outcome = Added | Failed(error: string)

  /** A reaction the handler tried, with what became of it. */
  datatype Attempt = Attempt(reaction: Reaction, outcome: Outcome)

  /** Only messages outside a thread are reacted to. */
  predicate IsTopLevel(event: Event) {
    event.threadTs.None?
  }

  /**
   Handles one `message` event. `completion` is the model's reply, or `None`
   when asking for it failed (the call raised, or the reply had no content);
   that failure is logged and no reaction is tried. A thread reply gets
   nothing. Otherwise one reaction per parsed name is tried, in order, on the
   event's own channel and timestamp. `reactionsAdd(k, r)` is the outcome of
   the `k`-th call; whatever it is, the loop goes on.
   */
  method HandleMessage(event: Event, completion: Option<string>, reactionsAdd: (nat, Reaction) -> Outcome)
    returns (attempts: seq<Attempt>)
    ensures !IsTopLevel(event) || completion.None? ==> attempts == []
    ensures IsTopLevel(event) && completion.Some? ==> |attempts| == |ParseReply(completion.value)|
    ensures IsTopLevel(event) && completion.Some? ==>
      forall k | 0 <= k < |attempts| ::
        attempts[k].reaction == Reaction(event.channel, event.ts, ParseReply(completion.value)[k])
    ensures forall k | 0 <= k < |attempts| :: attempts[k].outcome == reactionsAdd(k, attempts[k].reaction)
  {
    attempts := [];
    if !IsTopLevel(event) || completion.None? {
      return;
    }
    var names := SplitScan(Clean(completion.value));
    attempts := ReactAll(event.channel, event.ts, names, reactionsAdd);
  }

  /** How a run of the handler as written ends: normally, after the attempts,
      or with an exception escaping it. */
  datatype Handled = Returned(attempts: seq<Attempt>) | Raised(error: string)

  /**
   The handler as written: when asking for the reply fails, the error is
   logged but the `for` loop still reads `emojis`, which was never bound, so
   the handler raises `UnboundLocalError` instead of returning. On every
   other input it does what `HandleMessage` does.
   */
  method HandleMessageAsWritten(event: Event, completion: Option<string>, reactionsAdd: (nat, Reaction) -> Outcome)
    returns (h: Handled)
    ensures h.Raised? <==> IsTopLevel(event) && completion.None?
    ensures h.Returned? && IsTopLevel(event) ==>
      |h.attempts| == |ParseReply(completion.value)|
      && forall k | 0 <= k < |h.attempts| ::
           h.attempts[k].reaction == Reaction(event.channel, event.ts, ParseReply(completion.value)[k])
    ensures h.Returned? && !IsTopLevel(event) ==> h.attempts == []
    ensures h.Returned? ==>
      forall k | 0 <= k < |h.attempts| :: h.attempts[k].outcome == reactionsAdd(k, h.attempts[k].reaction)
  {
    if IsTopLevel(event) && completion.None? {
      return Raised("UnboundLocalError");
    }
    var attempts := HandleMessage(event, completion, reactionsAdd);
    h := Returned(attempts);
  }

  /** Tries every name on message `ts` of `channel`, one call each, in list
      order; a failed call does not end the loop. */
  method ReactAll(channel: string, ts: string, names: seq<string>, reactionsAdd: (nat, Reaction) -> Outcome)
    returns (attempts: seq<Attempt>)
    ensures |attempts| == |names|
    ensures forall k | 0 <= k < |names| :: attempts[k].reaction == Reaction(channel, ts, names[k])
    ensures forall k | 0 <= k < |names| :: attempts[k].outcome == reactionsAdd(k, attempts[k].reaction)
  {
    attempts := [];
    var i := 0;
    while i < |names|
      invariant i <= |names|
      invariant |attempts| == i
      invariant forall k | 0 <= k < i :: attempts[k].reaction == Reaction(channel, ts, names[k])
      invariant forall k | 0 <= k < i :: attempts[k].outcome == reactionsAdd(k, attempts[k].reaction)
    {
      var reaction := Reaction(channel, ts, names[i]);
      attempts := attempts + [Attempt(reaction, reactionsAdd(i, reaction))];
      i := i + 1;
    }
  }
}
