/** The new-chat screen: a transcript of messages, an onboarding box, a typing buffer
    that reveals the bot's reply one character per timer firing, and a write-through
    copy of the transcript in browser storage under the key "chatMessages".

    The screen is first described as a pure state machine (`ChatState` and one
    transition function per event), and the properties of the screen are proved as
    lemmas about those functions. The class `ChatSession` then keeps the same state in
    fields that its methods overwrite, as the component's state setters do. Each
    method that handles an event or starts the animation is proved to perform exactly
    its transition function; `SetMessages` keeps storage equal to the transcript, and
    `SaveChat` changes nothing. */
module NewChat {
  import opened JsString
  import opened Http

  datatype Option<T> = None | Some(value: T)

  datatype Sender = Bot | User

  datatype Message = Message(sender: Sender, text: string)

  type Transcript = seq<Message>

  /** The storage key that the transcript is persisted under. */
  const ChatMessagesKey: string := "chatMessages"

  /** A running `setInterval` of the typing animation, with the two variables its
      callback closes over: the full reply and the index of the next character. */
  datatype Typist = Typist(reply: string, index: nat)

  /** Everything the screen's behaviour depends on: the component state, the running
      interval (if any) and the storage entries of the browser. */
  datatype ChatState = ChatState(
    messages: Transcript,
    typingMessage: Option<string>,
    boxVisible: bool,
    interval: Option<Typist>,
    storage: map<string, Transcript>)

  /** The stored transcript is the one in memory. */
  predicate Persisted(st: ChatState)
  {
    ChatMessagesKey in st.storage && st.storage[ChatMessagesKey] == st.messages
  }

  /** The invariant every reachable state keeps: the transcript is persisted, the
      buffer is in use exactly while an interval runs, and then it holds the part of
      the reply revealed so far, which is never the whole reply. */
  predicate Consistent(st: ChatState)
  {
    && Persisted(st)
    && (st.interval.Some? <==> st.typingMessage.Some?)
    && (st.interval.Some? ==>
          var t := st.interval.value;
          t.index < |t.reply| && st.typingMessage.value == t.reply[..t.index])
  }

  /** Mounting the screen: the onboarding box is shown, a stored transcript is
      restored (none gives the empty transcript), and the persistence effect writes
      the transcript back. Other storage entries are left alone. */
  function Mounted(storage: map<string, Transcript>): (st: ChatState)
    ensures Consistent(st) && st.boxVisible && st.typingMessage.None? && st.interval.None?
    ensures ChatMessagesKey in storage ==> st.messages == storage[ChatMessagesKey]
    ensures ChatMessagesKey !in storage ==> st.messages == []
    ensures st.storage.Keys == storage.Keys + {ChatMessagesKey}
    ensures forall k :: k in storage && k != ChatMessagesKey ==> st.storage[k] == storage[k]
  {
    var restored := if ChatMessagesKey in storage then storage[ChatMessagesKey] else [];
    ChatState(restored, None, true, None, storage[ChatMessagesKey := restored])
  }

  /** `setMessages` with one message appended, followed by the persistence effect
      that writes the new transcript to storage. */
  function Appended(st: ChatState, m: Message): (st': ChatState)
    ensures st'.messages == st.messages + [m] && Persisted(st')
    ensures st'.typingMessage == st.typingMessage && st'.interval == st.interval
    ensures st'.boxVisible == st.boxVisible
    ensures st'.storage.Keys == st.storage.Keys + {ChatMessagesKey}
    ensures forall k :: k in st.storage && k != ChatMessagesKey ==> st'.storage[k] == st.storage[k]
  {
    var messages := st.messages + [m];
    st.(messages := messages, storage := st.storage[ChatMessagesKey := messages])
  }

  /** `handleBoxClose`: hide the onboarding box. */
  function BoxClosed(st: ChatState): (st': ChatState)
    ensures !st'.boxVisible
    ensures Consistent(st) ==> Consistent(st')
  {
    st.(boxVisible := false)
  }

  /** Closing the box hides it, touches nothing else, and closing it again changes nothing. */
  lemma BoxCloseIdempotent(st: ChatState)
    ensures !BoxClosed(st).boxVisible
    ensures BoxClosed(st).(boxVisible := st.boxVisible) == st
    ensures BoxClosed(BoxClosed(st)) == BoxClosed(st)
  {
  }

  /** The prompt a submission sends: the trimmed content of the form's "message"
      field. A missing field, or one holding only whitespace, sends nothing. */
  function Prompt(field: Option<string>): (p: Option<string>)
    ensures p.Some? <==> field.Some? && exists i :: 0 <= i < |field.value| && !IsWhitespace(field.value[i])
    ensures p.Some? ==> p.value == Trim(field.value) && p.value != []
  {
    if field.Some? && Trim(field.value) != [] then Some(Trim(field.value)) else None
  }

  /** `_onSubmit`: a rejected submission changes nothing; an accepted one appends one
      user message holding the trimmed text and hides the onboarding box. */
  function Submitted(st: ChatState, field: Option<string>): (st': ChatState)
    ensures Prompt(field).None? ==> st' == st
    ensures Prompt(field).Some? ==>
              && st'.messages == st.messages + [Message(User, Prompt(field).value)]
              && !st'.boxVisible
              && st'.typingMessage == st.typingMessage && st'.interval == st.interval
    ensures Consistent(st) ==> Consistent(st')
  {
    match Prompt(field)
    case None => st
    case Some(text) => BoxClosed(Appended(st, Message(User, text)))
  }

  /** A typing animation may start only when none is running (overlapping animations
      race on the buffer) and the reply is not empty (an empty reply never stops). */
  predicate CanStartTyping(st: ChatState, reply: string)
  {
    st.typingMessage.None? && st.interval.None? && reply != []
  }

  /** `simulateTyping`: the buffer becomes empty and an interval starts at index 0. */
  function StartedTyping(st: ChatState, reply: string): (st': ChatState)
    requires CanStartTyping(st, reply)
    ensures st'.messages == st.messages && st'.boxVisible == st.boxVisible
    ensures st'.typingMessage == Some([]) && st'.interval == Some(Typist(reply, 0))
    ensures Consistent(st) ==> Consistent(st')
  {
    st.(typingMessage := Some(""), interval := Some(Typist(reply, 0)))
  }

  /** The continuation of `_onSubmit` once the generation request settles: a reply
      starts the typing animation; a failed or thrown request changes nothing, so the
      user message of the submission stays where it is. */
  function Responded(st: ChatState, response: Response<string>): (st': ChatState)
    requires response.Ok? ==> CanStartTyping(st, response.body)
    ensures !response.Ok? ==> st' == st
    ensures st'.messages == st.messages && st'.boxVisible == st.boxVisible
    ensures response.Ok? ==> st'.typingMessage == Some([]) && st'.interval == Some(Typist(response.body, 0))
    ensures Consistent(st) ==> Consistent(st')
  {
    if response.Ok? then StartedTyping(st, response.body) else st
  }

  /** The interval, if one runs, has a character left to reveal. */
  predicate TickDefined(st: ChatState)
  {
    st.interval.Some? ==> st.interval.value.index < |st.interval.value.reply|
  }

  /** The firing that reveals the last character of the reply. */
  predicate LastTick(st: ChatState)
  {
    st.interval.Some? && st.interval.value.index + 1 == |st.interval.value.reply|
  }

  /** One firing of the typing interval as it is evidently meant to work: the
      character at the current index is added to the buffer (a null buffer stays
      null) and the index advances; at the end of the reply the interval is cleared,
      one bot message with the whole reply is appended and the buffer is reset to
      null. Without a running interval nothing fires. The firing as the callback is
      written is `TickedAsWritten`. */
  function Ticked(st: ChatState): (st': ChatState)
    requires TickDefined(st)
    ensures st.interval.None? ==> st' == st
    ensures st.typingMessage.None? ==> st'.typingMessage.None?
    ensures st'.messages == if LastTick(st) then st.messages + [Message(Bot, st.interval.value.reply)] else st.messages
    ensures LastTick(st) ==> st'.typingMessage.None? && st'.interval.None?
    ensures st'.boxVisible == st.boxVisible
    ensures Consistent(st) ==> Consistent(st')
  {
    match st.interval
    case None => st
    case Some(Typist(reply, index)) =>
      var typing := if st.typingMessage.Some? then Some(st.typingMessage.value + [reply[index]]) else None;
      var st1 := st.(typingMessage := typing, interval := Some(Typist(reply, index + 1)));
      if index + 1 == |reply| then
        Appended(st1, Message(Bot, reply)).(typingMessage := None, interval := None)
      else
        st1
  }

  /** `k` firings of the typing interval in a row. */
  function Ticks(st: ChatState, k: nat): (st': ChatState)
    requires Consistent(st)
    ensures Consistent(st')
    ensures st'.boxVisible == st.boxVisible
  {
    if k == 0 then st else Ticked(Ticks(st, k - 1))
  }

  /** A firing before the last reveals exactly one more character and leaves the
      transcript alone. */
  lemma TickReveals(st: ChatState)
    requires Consistent(st) && st.interval.Some?
    requires st.interval.value.index + 1 < |st.interval.value.reply|
    ensures var t := st.interval.value;
            Ticked(st) == st.(typingMessage := Some(t.reply[..t.index + 1]),
                              interval := Some(Typist(t.reply, t.index + 1)))
  {
    var t := st.interval.value;
    assert t.reply[..t.index] + [t.reply[t.index]] == t.reply[..t.index + 1];
  }

  /** `k` firings that stop short of the end of the reply reveal `k` more characters
      and leave the transcript alone. */
  lemma {:induction false} TicksReveal(st: ChatState, k: nat)
    requires Consistent(st) && st.interval.Some?
    requires st.interval.value.index + k < |st.interval.value.reply|
    ensures var t := st.interval.value;
            Ticks(st, k) == st.(typingMessage := Some(t.reply[..t.index + k]),
                                interval := Some(Typist(t.reply, t.index + k)))
  {
    if k > 0 {
      TicksReveal(st, k - 1);
      TicksUnfold(st, k);
      TickReveals(Ticks(st, k - 1));
    }
  }

  /** The interval and the transcript after `k` firings that stop short of the end. */
  lemma TicksAdvance(st: ChatState, k: nat)
    requires Consistent(st) && st.interval.Some?
    requires st.interval.value.index + k < |st.interval.value.reply|
    ensures Ticks(st, k).interval == Some(Typist(st.interval.value.reply, st.interval.value.index + k))
    ensures Ticks(st, k).messages == st.messages
  {
    TicksReveal(st, k);
  }

  /** `Ticks` adds its last firing at the end. */
  lemma TicksUnfold(st: ChatState, k: nat)
    requires Consistent(st) && k > 0
    ensures Ticks(st, k) == Ticked(Ticks(st, k - 1))
  {
  }

  /** After `k` firings of an animation started on `reply`, with `k` short of its
      length, the buffer holds the first `k` characters, the interval is at index `k`
      and the transcript is as it was. */
  lemma TypingRevealsPrefix(started: ChatState, reply: string, k: nat)
    requires Consistent(started) && started.interval == Some(Typist(reply, 0)) && k < |reply|
    ensures Ticks(started, k).typingMessage == Some(reply[..k])
    ensures Ticks(started, k).interval == Some(Typist(reply, k))
    ensures Ticks(started, k).messages == started.messages
  {
    TicksReveal(started, k);
  }

  /** The firing that reveals the last character of an animation started on `reply`
      appends exactly one bot message with the whole reply, resets the buffer to null
      and stops the interval (so later firings change nothing, by `Ticked`). */
  lemma TypingCompletes(started: ChatState, reply: string)
    requires Consistent(started) && started.interval == Some(Typist(reply, 0))
    ensures var done := Ticks(started, |reply|);
            && done.messages == started.messages + [Message(Bot, reply)]
            && done.typingMessage.None? && done.interval.None?
            && done.boxVisible == started.boxVisible
  {
    TicksAdvance(started, |reply| - 1);
    LastTickFinishes(Ticks(started, |reply| - 1), reply);
    TicksUnfold(started, |reply|);
  }

  /** The firing of the last character, stated on its own. */
  lemma LastTickFinishes(st: ChatState, reply: string)
    requires Consistent(st) && reply != [] && st.interval == Some(Typist(reply, |reply| - 1))
    ensures var done := Ticked(st);
            && done.messages == st.messages + [Message(Bot, reply)]
            && done.typingMessage.None? && done.interval.None?
            && done.boxVisible == st.boxVisible
  {
  }

  /** JavaScript's `message[i]` appended to a string: the code unit at `i`, or the
      text "undefined" past the end of `message`. */
  function CharAt(message: string, i: nat): string
  {
    if i < |message| then [message[i]] else "undefined"
  }

  /** One firing of the interval callback as written. The updater handed to
      `setTypingMessage` is queued and evaluated when React renders, which is after
      `index++`, so it reads the incremented index; at the end of the reply the
      `null` queued after it wins. The stop test compares the incremented index with
      the reply's length, so for an empty reply it never holds. */
  function TickedAsWritten(st: ChatState): (st': ChatState)
    ensures st.interval.None? ==> st' == st
    ensures st'.messages == if LastTick(st) then st.messages + [Message(Bot, st.interval.value.reply)] else st.messages
    ensures LastTick(st) ==> st'.typingMessage.None? && st'.interval.None?
    ensures st'.boxVisible == st.boxVisible
  {
    match st.interval
    case None => st
    case Some(Typist(reply, index)) =>
      var typing := if st.typingMessage.Some? then Some(st.typingMessage.value + CharAt(reply, index + 1)) else None;
      var st1 := st.(typingMessage := typing, interval := Some(Typist(reply, index + 1)));
      if index + 1 == |reply| then
        Appended(st1, Message(Bot, reply)).(typingMessage := None, interval := None)
      else
        st1
  }

  /** `k` firings of the callback as written. */
  function TicksAsWritten(st: ChatState, k: nat): (st': ChatState)
    ensures st'.boxVisible == st.boxVisible
  {
    if k == 0 then st else TickedAsWritten(TicksAsWritten(st, k - 1))
  }

  /** The firing as written and the intended one differ in the buffer only, and not
      at all on the firing that finishes the reply: the transcript, the interval and
      storage evolve alike. */
  lemma AsWrittenDiffersInBufferOnly(st: ChatState)
    requires TickDefined(st)
    ensures TickedAsWritten(st).(typingMessage := Ticked(st).typingMessage) == Ticked(st)
    ensures LastTick(st) ==> TickedAsWritten(st) == Ticked(st)
  {
  }

  /** As written, `k` firings short of the end of the reply show its characters 1 to
      `k`: the buffer never holds the reply's first character. */
  lemma {:induction false} TicksAsWrittenReveal(st: ChatState, reply: string, k: nat)
    requires st.typingMessage == Some([]) && st.interval == Some(Typist(reply, 0)) && k < |reply|
    ensures TicksAsWritten(st, k) == st.(typingMessage := Some(reply[1..k + 1]), interval := Some(Typist(reply, k)))
  {
    if k == 0 {
      assert reply[1..1] == [];
    } else {
      TicksAsWrittenReveal(st, reply, k - 1);
      TickAsWrittenReveals(TicksAsWritten(st, k - 1));
      assert reply[1..k] + [reply[k]] == reply[1..k + 1];
    }
  }

  /** As written, a firing before the last adds the character after the current
      index to the buffer. */
  lemma TickAsWrittenReveals(st: ChatState)
    requires st.typingMessage.Some? && st.interval.Some?
    requires st.interval.value.index + 1 < |st.interval.value.reply|
    ensures var t := st.interval.value;
            TickedAsWritten(st) == st.(typingMessage := Some(st.typingMessage.value + [t.reply[t.index + 1]]),
                                       interval := Some(Typist(t.reply, t.index + 1)))
  {
  }

  /** The discrepancy on the reply "abc": as written the buffer shows "b" and then
      "bc" (`TypingShowsPrefixOfAbc` shows "a" and then "ab"). */
  lemma AsWrittenSkipsFirstCharacter(started: ChatState)
    requires Consistent(started) && started.interval == Some(Typist("abc", 0))
    ensures TicksAsWritten(started, 1).typingMessage == Some("b")
    ensures TicksAsWritten(started, 2).typingMessage == Some("bc")
  {
    TicksAsWrittenReveal(started, "abc", 1);
    TicksAsWrittenReveal(started, "abc", 2);
    assert "abc"[1..2] == "b" && "abc"[1..3] == "bc";
  }

  /** The intended firing on the reply "abc" shows "a" and then "ab". */
  lemma TypingShowsPrefixOfAbc(started: ChatState)
    requires Consistent(started) && started.interval == Some(Typist("abc", 0))
    ensures Ticks(started, 1).typingMessage == Some("a")
    ensures Ticks(started, 2).typingMessage == Some("ab")
  {
    TypingRevealsPrefix(started, "abc", 1);
    TypingRevealsPrefix(started, "abc", 2);
    assert "abc"[..1] == "a" && "abc"[..2] == "ab";
  }

  /** `s` written `k` times in a row. */
  function Repeated(s: string, k: nat): string
  {
    if k == 0 then [] else Repeated(s, k - 1) + s
  }

  /** As written, an animation of the empty reply never stops: every firing appends
      the text "undefined" to the buffer, and the transcript never changes. */
  lemma {:induction false} EmptyReplyNeverStops(st: ChatState, k: nat)
    requires st.typingMessage == Some([]) && st.interval == Some(Typist([], 0))
    ensures TicksAsWritten(st, k) == st.(typingMessage := Some(Repeated("undefined", k)), interval := Some(Typist([], k)))
  {
    if k > 0 {
      EmptyReplyNeverStops(st, k - 1);
    }
  }

  /** The events the screen reacts to. */
  datatype Event =
    | SubmitEvent(field: Option<string>)
    | ResponseEvent(response: Response<string>)
    | TimerEvent
    | CloseEvent

  /** A reply may arrive only when no animation runs, and must not be empty. */
  predicate Enabled(st: ChatState, e: Event)
  {
    e.ResponseEvent? && e.response.Ok? ==> CanStartTyping(st, e.response.body)
  }

  /** The transition of one event. Each keeps the invariant and appends at most one
      message to the transcript, never changing what is already there. */
  function Step(st: ChatState, e: Event): (st': ChatState)
    requires Consistent(st) && Enabled(st, e)
    ensures Consistent(st')
    ensures st.messages <= st'.messages && |st'.messages| <= |st.messages| + 1
  {
    match e
    case SubmitEvent(field) => Submitted(st, field)
    case ResponseEvent(response) => Responded(st, response)
    case TimerEvent => Ticked(st)
    case CloseEvent => BoxClosed(st)
  }

  /** Every event of `es` is enabled when it arrives. */
  predicate Admissible(st: ChatState, es: seq<Event>)
    requires Consistent(st)
    decreases |es|
  {
    es == [] || (Enabled(st, es[0]) && Admissible(Step(st, es[0]), es[1..]))
  }

  /** A run of events keeps the invariant (so the stored transcript always equals the
      one in memory), and the transcript only grows at its end, by at most one message
      per event. */
  function Run(st: ChatState, es: seq<Event>): (st': ChatState)
    requires Consistent(st) && Admissible(st, es)
    ensures Consistent(st')
    ensures st.messages <= st'.messages && |st'.messages| <= |st.messages| + |es|
    decreases |es|
  {
    if es == [] then st else Run(Step(st, es[0]), es[1..])
  }

  /** Reloading the screen after any run of events restores the transcript it had. */
  lemma ReloadRestoresTranscript(items: map<string, Transcript>, es: seq<Event>)
    requires Admissible(Mounted(items), es)
    ensures Mounted(Run(Mounted(items), es).storage).messages == Run(Mounted(items), es).messages
  {
  }

  /** A question submitted on a fresh screen with empty storage, answered by the
      backend and fully animated, leaves exactly the question and the answer in the
      transcript and in storage (say "What is contract law?" answered by "It is..."). */
  lemma QuestionAnswered(question: string, reply: string)
    requires question != [] && Trim(question) == question && reply != []
    ensures var asked := Submitted(Mounted(map[]), Some(question));
            var answered := Ticks(Responded(asked, Ok(reply)), |reply|);
            && answered.messages == [Message(User, question), Message(Bot, reply)]
            && Persisted(answered) && answered.typingMessage.None? && !answered.boxVisible
  {
    var asked := Submitted(Mounted(map[]), Some(question));
    FirstQuestion(question);
    var started := Responded(asked, Ok(reply));
    assert Consistent(started) && started.interval == Some(Typist(reply, 0));
    TypingCompletes(started, reply);
  }

  /** A trimmed question submitted on a fresh screen with empty storage becomes the
      only message, hides the box, and starts no animation. */
  lemma FirstQuestion(question: string)
    requires question != [] && Trim(question) == question
    ensures var asked := Submitted(Mounted(map[]), Some(question));
            && Consistent(asked) && asked.typingMessage.None? && asked.interval.None?
            && asked.messages == [Message(User, question)] && !asked.boxVisible
  {
    assert Prompt(Some(question)) == Some(question);
    assert Mounted(map[]).messages == [];
  }

  /** The browser's storage: string keys, each holding a stored transcript. */
  class LocalStorage {
    var items: map<string, Transcript>

    constructor (items: map<string, Transcript>)
      ensures this.items == items
    {
      this.items := items;
    }
  }

  /** One mounted new-chat screen. */
  class ChatSession {
    var messages: Transcript
    var typingMessage: Option<string>
    var boxVisible: bool
    /** Whether the typing interval runs, and the reply and index its callback uses. */
    var intervalActive: bool
    var reply: string
    var index: nat
    const storage: LocalStorage

    ghost function State(): ChatState
      reads this, storage
    {
      ChatState(messages, typingMessage, boxVisible,
                if intervalActive then Some(Typist(reply, index)) else None,
                storage.items)
    }

    ghost predicate Valid()
      reads this, storage
    {
      Consistent(State())
    }

    /** Mounting: both effects run once. The load effect restores the stored
        transcript; the persistence effect then writes the transcript back. */
    constructor Mount(storage: LocalStorage)
      modifies storage
      ensures this.storage == storage
      ensures State() == Mounted(old(storage.items))
      ensures Valid()
    {
      var restored: Transcript := [];
      if ChatMessagesKey in storage.items {
        restored := storage.items[ChatMessagesKey];
      }
      messages := restored;
      typingMessage := None;
      boxVisible := true;
      intervalActive, reply, index := false, "", 0;
      this.storage := storage;
      storage.items := storage.items[ChatMessagesKey := restored];
    }

    /** `setMessages(m)` together with the persistence effect it triggers: storage
        then holds the new transcript, and a valid session stays valid. */
    method SetMessages(m: Transcript)
      modifies this, storage
      ensures State() == old(State()).(messages := m, storage := old(storage.items)[ChatMessagesKey := m])
      ensures Persisted(State()) && (old(Valid()) ==> Valid())
    {
      messages := m;
      storage.items := storage.items[ChatMessagesKey := m];
    }

    /** `handleBoxClose`. */
    method HandleBoxClose()
      requires Valid()
      modifies this
      ensures Valid()
      ensures State() == BoxClosed(old(State()))
    {
      boxVisible := false;
    }

    /** `_onSubmit` up to the request: returns the prompt it sends to the generation
        endpoint, or None when it sends no request. */
    method Submit(field: Option<string>) returns (prompt: Option<string>)
      requires Valid()
      modifies this, storage
      ensures Valid()
      ensures prompt == Prompt(field)
      ensures State() == Submitted(old(State()), field)
    {
      prompt := None;
      if field.Some? {
        var userMessage := Trim(field.value);
        if userMessage != [] {
          SetMessages(messages + [Message(User, userMessage)]);
          HandleBoxClose();
          prompt := Some(userMessage);
        }
      }
    }

    /** `simulateTyping`. */
    method SimulateTyping(message: string)
      requires Valid() && CanStartTyping(State(), message)
      modifies this
      ensures Valid()
      ensures State() == StartedTyping(old(State()), message)
    {
      index := 0;
      typingMessage := Some("");
      reply := message;
      intervalActive := true;
    }

    /** `_onSubmit` once the generation request settles. */
    method OnResponse(response: Response<string>)
      requires Valid()
      requires response.Ok? ==> CanStartTyping(State(), response.body)
      modifies this
      ensures Valid()
      ensures State() == Responded(old(State()), response)
    {
      if response.Ok? {
        SimulateTyping(response.body);
      }
    }

    /** One firing of the typing interval's callback. */
    method Tick()
      requires Valid()
      modifies this, storage
      ensures Valid()
      ensures State() == Ticked(old(State()))
    {
      if intervalActive {
        typingMessage := if typingMessage.Some? then Some(typingMessage.value + [reply[index]]) else None;
        index := index + 1;
        if index == |reply| {
          intervalActive := false;
          SetMessages(messages + [Message(Bot, reply)]);
          typingMessage := None;
        }
      }
    }

    /** `saveChat`: posts the whole transcript and reports whether the save was
        confirmed; it changes nothing. */
    method SaveChat(response: Response<()>) returns (payload: Transcript, confirmed: bool)
      ensures payload == messages
      ensures confirmed <==> response.Ok?
    {
      payload := messages;
      confirmed := response.Ok?;
    }
  }

  /** `session` holds the state of `ticks` firings of an animation started on `reply`,
      and its interval runs exactly while characters are left. */
  ghost predicate FiredSoFar(session: ChatSession, started: ChatState, reply: string, ticks: nat)
    requires Consistent(started)
    reads session, session.storage
  {
    && session.Valid()
    && ticks <= |reply|
    && session.State() == Ticks(started, ticks)
    && (session.intervalActive <==> ticks < |reply|)
  }

  /** The browser's event loop fires the typing interval of `session` until the
      animation clears it, after `|reply|` firings: the session then holds the
      transcript with the whole reply appended as one bot message, persisted, and no
      buffer. */
  method FireUntilCleared(session: ChatSession, ghost started: ChatState, ghost reply: string)
    requires Consistent(started) && started.interval == Some(Typist(reply, 0))
    requires session.Valid() && session.State() == started
    modifies session, session.storage
    ensures session.Valid() && !session.intervalActive && session.typingMessage.None?
    ensures session.messages == started.messages + [Message(Bot, reply)]
    ensures session.boxVisible == started.boxVisible
  {
    ghost var ticks := 0;
    assert Ticks(started, 0) == started;
    while session.intervalActive
      invariant FiredSoFar(session, started, reply, ticks)
      decreases |reply| - ticks
    {
      Fire(session, started, reply, ticks);
      ticks := ticks + 1;
    }
    TypingCompletes(started, reply);
  }

  /** The interval of `session`, after `ticks` firings, fires once more. */
  method Fire(session: ChatSession, ghost started: ChatState, ghost reply: string, ghost ticks: nat)
    requires Consistent(started) && started.interval == Some(Typist(reply, 0)) && ticks < |reply|
    requires FiredSoFar(session, started, reply, ticks)
    modifies session, session.storage
    ensures FiredSoFar(session, started, reply, ticks + 1)
  {
    session.Tick();
    NextFiring(started, reply, ticks + 1);
  }

  /** The `k`-th firing of an animation started on `reply` follows the one before,
      and the interval still runs afterwards exactly when `k` is short of the length. */
  lemma NextFiring(started: ChatState, reply: string, k: nat)
    requires Consistent(started) && started.interval == Some(Typist(reply, 0))
    requires 0 < k <= |reply|
    ensures Ticks(started, k) == Ticked(Ticks(started, k - 1))
    ensures Ticks(started, k).interval.Some? <==> k < |reply|
  {
    TicksUnfold(started, k);
    if k < |reply| {
      TypingRevealsPrefix(started, reply, k);
    } else {
      TypingCompletes(started, reply);
    }
  }

  /** One question and its answer on a screen mounted over empty storage: the events
      arrive as the browser delivers them, and the timer fires until the animation
      clears it. The transcript ends as the question and the answer, and storage
      holds the same. */
  method Converse(question: string, reply: string) returns (transcript: Transcript, stored: Transcript)
    requires question != [] && Trim(question) == question && reply != []
    ensures transcript == [Message(User, question), Message(Bot, reply)]
    ensures stored == transcript
  {
    var storage := new LocalStorage(map[]);
    var session := new ChatSession.Mount(storage);
    var prompt := session.Submit(Some(question));
    ghost var asked := session.State();
    assert asked.messages == [Message(User, question)];
    session.OnResponse(Ok(reply));
    ghost var started := session.State();
    FireUntilCleared(session, started, reply);
    transcript := session.messages;
    stored := storage.items[ChatMessagesKey];
  }
}
