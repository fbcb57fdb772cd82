# Chat screens of the legal-question assistant, modelled in Dafny

The web client has two screens with logic worth stating.

The **new-chat screen** (`src/pages/Dashboard/NewChat.tsx`) holds four things:

- a transcript of messages, each from the bot or the user;
- an onboarding box that every mount shows, and that a submission or its close icon hides;
- a nullable typing buffer that reveals the bot's reply one character per timer firing;
- a write-through copy of the transcript in browser storage under the key `"chatMessages"`.

A submission trims the text field. Empty text is rejected. Otherwise the screen appends a user message, hides the box and asks the generation endpoint for a reply. A reply starts the typing animation. The firing that reveals the last character appends one bot message with the whole reply and clears the buffer. The buffer never holds the whole reply: the callback that adds the last character also sets it to null at `NewChat.tsx:71`, and React applies both updates in the same render. `saveChat` posts the transcript and never changes it.

The **search screen** (`src/pages/Dashboard/Search.tsx`) shows the saved chats that have at least one message whose text contains the query, ignoring letter case.

Files:

- `js_string.dfy` (module `JsString`): the JavaScript string built-ins these screens use. These are `trim` (the ECMAScript whitespace set), `toLowerCase` (ASCII letters) and `includes`.
- `http.dfy` (module `Http`): what a `fetch` call can come back with. That is a response with `ok` set, one without it, or a thrown error.
- `new_chat.dfy` (module `NewChat`): the new-chat screen, in two layers.
  - First, a pure state machine: `ChatState` and one transition function per event (`Mounted`, `Submitted`, `Responded`, `Ticked`, `BoxClosed`). The properties of the screen are proved as lemmas about these functions.
  - Second, the class `ChatSession`. Its fields are the component's state cells, and its methods overwrite them as the state setters do. Each method that handles an event (`Submit`, `OnResponse`, `Tick`, `HandleBoxClose`) or starts the animation (`SimulateTyping`) is proved to perform exactly its transition function, and the constructor `Mount` reaches `Mounted`. `SetMessages` is the state setter together with the persistence effect; it keeps storage equal to the transcript. `SaveChat` changes nothing. Every method that changes the session keeps `ChatSession.Valid`.
  - `FireUntilCleared` and `Converse` drive a session the way the browser's event loop does.
- `search.dfy` (module `Search`): the search filter as a function with its lemmas, and the class `SearchPage` for the two state cells.

The network result is an input to the operation that consumes it. The timer is a discrete `Tick` step.

The interval callback at `NewChat.tsx:62-73` hands `setTypingMessage` an updater that reads the mutable `index`, and then increments `index`. React evaluates a queued updater when it next renders, which is after the increment, so the buffer shows the reply from its second character on. That firing is modelled as written (`TickedAsWritten`) and its trace is proved; the rest of the model uses the evidently intended firing `Ticked`, which reveals the reply from its first character (see "## Findings").

## Model

| member | source | states |
|---|---|---|
| JsString.TrimStart | src/pages/Dashboard/NewChat.tsx:79 | the result is a suffix of the input; everything cut off is whitespace; the result does not start with whitespace |
| JsString.TrimEnd | src/pages/Dashboard/NewChat.tsx:79 | the result is a prefix of the input; everything cut off is whitespace; the result does not end with whitespace |
| JsString.Trim | src/pages/Dashboard/NewChat.tsx:79 | the trimmed text is no longer than the input and neither starts nor ends with whitespace; it is empty exactly when the input is all whitespace |
| JsString.TrimUnpadded | src/pages/Dashboard/NewChat.tsx:79 | text that neither starts nor ends with whitespace is its own trim |
| JsString.TrimIdempotent | src/pages/Dashboard/NewChat.tsx:79 | trimming twice gives the same text as trimming once |
| JsString.ToLower | src/pages/Dashboard/Search.tsx:44 | lower-casing keeps the length and lower-cases each code unit |
| JsString.ToUpper | src/pages/Dashboard/Search.tsx:44 | upper-casing keeps the length and upper-cases each code unit; the screens never call it, and it is here only to state `QueryCaseIgnored` |
| JsString.LowerForgetsCase | src/pages/Dashboard/Search.tsx:44 | lower-casing is idempotent and undoes an upper-casing |
| JsString.IncludesEmpty | src/pages/Dashboard/Search.tsx:44 | every text includes the empty query |
| NewChat.Mounted | src/pages/Dashboard/NewChat.tsx:36-52 | on mount the box is shown and no animation runs; a stored transcript is restored, and none gives the empty transcript; the transcript is written back, and other storage entries are untouched |
| NewChat.Appended | src/pages/Dashboard/NewChat.tsx:50-52 | a transcript change appends exactly the new message at the end, and storage then holds the new transcript |
| NewChat.BoxClosed | src/pages/Dashboard/NewChat.tsx:54-56 | closing the box leaves it hidden and keeps the invariant |
| NewChat.BoxCloseIdempotent | src/pages/Dashboard/NewChat.tsx:54-56 | closing the box hides it, changes nothing else, and closing it twice is the same as closing it once |
| NewChat.Prompt | src/pages/Dashboard/NewChat.tsx:78-81 | a prompt is sent exactly when the field is present and holds a non-whitespace character; the prompt is then the trimmed text, which is not empty |
| NewChat.Submitted | src/pages/Dashboard/NewChat.tsx:76-88 | a rejected submission changes nothing; an accepted one appends one user message with the trimmed text after the unchanged earlier messages, hides the box and leaves the buffer alone; the invariant is kept |
| NewChat.StartedTyping | src/pages/Dashboard/NewChat.tsx:58-62 | starting the animation sets the buffer to the empty text and the interval to index 0 of the reply; the transcript and the box are unchanged |
| NewChat.Responded | src/pages/Dashboard/NewChat.tsx:99-108 | a non-ok or thrown result changes nothing, so the user message of the submission stays as it is; an ok result starts the animation on the reply without touching the transcript |
| NewChat.Ticked | src/pages/Dashboard/NewChat.tsx:62-73 | the evidently intended firing, which reads the index before it is incremented (see Findings): with no interval running, a firing changes nothing; a null buffer stays null; only the firing at the last character appends, and then exactly one bot message with the whole reply, and the buffer and interval are cleared; the box is unchanged and the invariant is kept |
| NewChat.Ticks | src/pages/Dashboard/NewChat.tsx:62-73 | any number of firings keeps the invariant and the box |
| NewChat.TickReveals | src/pages/Dashboard/NewChat.tsx:63-64 | with the intended firing, a firing before the last adds exactly the next character of the reply to the buffer and advances the index |
| NewChat.TicksReveal | src/pages/Dashboard/NewChat.tsx:59-64 | with the intended firing, firings that stop short of the end reveal that many more characters: the buffer is the prefix of the reply up to the new index |
| NewChat.TypingRevealsPrefix | src/pages/Dashboard/NewChat.tsx:59-64 | with the intended firing, after k firings, with k less than the reply's length, the buffer is the first k characters of the reply and the transcript is unchanged |
| NewChat.TypingCompletes | src/pages/Dashboard/NewChat.tsx:65-72 | after as many firings as the reply has characters, the transcript has exactly one more message, the bot's whole reply; the buffer is null, the interval stopped and the box unchanged |
| NewChat.LastTickFinishes | src/pages/Dashboard/NewChat.tsx:65-72 | the firing at the last index appends the bot message and clears the buffer and the interval |
| NewChat.TickedAsWritten | src/pages/Dashboard/NewChat.tsx:62-73 | the firing as written: with no interval running nothing changes; only the firing whose incremented index equals the reply's length appends, and then exactly one bot message with the whole reply, and the buffer and interval are cleared; the box is unchanged |
| NewChat.CharAt | src/pages/Dashboard/NewChat.tsx:63 | `message[i]` appended as text: the code unit at i, or the text "undefined" past the end |
| NewChat.TicksAsWritten | src/pages/Dashboard/NewChat.tsx:62-73 | any number of firings as written keeps the box |
| NewChat.AsWrittenDiffersInBufferOnly | src/pages/Dashboard/NewChat.tsx:62-73 | the firing as written and the intended one agree on everything but the buffer, and on the firing that finishes the reply they agree on everything |
| NewChat.TickAsWrittenReveals | src/pages/Dashboard/NewChat.tsx:63-64 | as written, a firing before the last adds the character after the current index to the buffer |
| NewChat.TicksAsWrittenReveal | src/pages/Dashboard/NewChat.tsx:59-64 | as written, after k firings short of the end the buffer holds the reply's characters 1 to k, never its first one, and the transcript is unchanged |
| NewChat.AsWrittenSkipsFirstCharacter | src/pages/Dashboard/NewChat.tsx:63-64 | as written, the reply "abc" shows "b" and then "bc" in the buffer |
| NewChat.TypingShowsPrefixOfAbc | src/pages/Dashboard/NewChat.tsx:63-64 | with the intended firing, the reply "abc" shows "a" and then "ab" in the buffer |
| NewChat.EmptyReplyNeverStops | src/pages/Dashboard/NewChat.tsx:62-73 | as written, an animation of the empty reply runs for ever: after k firings the interval still runs, the buffer is "undefined" written k times, and the transcript is unchanged |
| NewChat.NextFiring | src/pages/Dashboard/NewChat.tsx:65 | the interval still runs after k firings exactly when k is short of the reply's length |
| NewChat.Step | src/pages/Dashboard/NewChat.tsx:50-110 | every event keeps the invariant; in particular the stored transcript equals the one in memory. The transcript only grows at its end, by at most one message |
| NewChat.Run | src/pages/Dashboard/NewChat.tsx:50-52 | after any run of events, storage holds the transcript in memory, and the transcript extends the first one by at most one message per event |
| NewChat.ReloadRestoresTranscript | src/pages/Dashboard/NewChat.tsx:41-52 | mounting the screen again after any run of events restores the transcript it had |
| NewChat.FirstQuestion | src/pages/Dashboard/NewChat.tsx:76-88 | a trimmed question on a fresh screen becomes the only message and hides the box |
| NewChat.QuestionAnswered | src/pages/Dashboard/NewChat.tsx:76-102 | a question asked on a fresh screen, answered and fully animated, leaves exactly the question and the answer in the transcript and in storage; the buffer is null and the box hidden |
| NewChat.ChatSession.Mount | src/pages/Dashboard/NewChat.tsx:36-52 | mounting the component reaches the state `Mounted` gives for the storage it finds |
| NewChat.ChatSession.SetMessages | src/pages/Dashboard/NewChat.tsx:50-52 | setting the transcript also writes it to storage under the chat key, so storage equals the transcript; nothing else changes, and a valid session stays valid |
| NewChat.ChatSession.HandleBoxClose | src/pages/Dashboard/NewChat.tsx:54-56 | the method performs `BoxClosed` and keeps the session valid |
| NewChat.ChatSession.Submit | src/pages/Dashboard/NewChat.tsx:76-88 | the method performs `Submitted` and returns the prompt it sends, or none |
| NewChat.ChatSession.SimulateTyping | src/pages/Dashboard/NewChat.tsx:58-61 | the method performs `StartedTyping` |
| NewChat.ChatSession.OnResponse | src/pages/Dashboard/NewChat.tsx:99-108 | the method performs `Responded` |
| NewChat.ChatSession.Tick | src/pages/Dashboard/NewChat.tsx:62-73 | one firing of the interval callback performs the intended firing `Ticked` (see Findings) |
| NewChat.LocalStorage.constructor | src/pages/Dashboard/NewChat.tsx:44-51 | the browser's storage starts with the entries it is given |
| NewChat.ChatSession.SaveChat | src/pages/Dashboard/NewChat.tsx:112-130 | the payload is the whole transcript; the save is confirmed exactly when the response is ok; nothing is changed |
| NewChat.Fire | src/pages/Dashboard/NewChat.tsx:62-73 | one more firing moves the session from k to k + 1 firings of the animation |
| NewChat.FireUntilCleared | src/pages/Dashboard/NewChat.tsx:62-73 | the event loop fires the interval until it is cleared; the session then holds the transcript plus the bot's reply, no buffer and no running interval |
| NewChat.Converse | src/pages/Dashboard/NewChat.tsx:41-110 | a question and its answer on a session mounted over empty storage leave exactly the question and the answer in the transcript, and storage holds the same |
| JsString.IsWhitespace | src/pages/Dashboard/NewChat.tsx:79 | the code points `trim` removes: ECMAScript's WhiteSpace and LineTerminator characters |
| JsString.Includes | src/pages/Dashboard/Search.tsx:44 | `includes`: the query occurs in the text at some position |
| Search.MessageMatches | src/pages/Dashboard/Search.tsx:44 | a message matches when its lower-cased text includes the lower-cased query |
| Search.ChatMatches | src/pages/Dashboard/Search.tsx:43-44 | a chat matches when some message of it matches |
| Search.FilterChats | src/pages/Dashboard/Search.tsx:42-46 | a chat is shown exactly when it is saved and one of its messages contains the query, ignoring case; each is shown as often as it is saved; the shown chats are a subsequence of the saved ones, in their order |
| Search.EmptyChatNeverShown | src/pages/Dashboard/Search.tsx:43 | a chat without messages is never shown, whatever the query |
| Search.FilterIdempotent | src/pages/Dashboard/Search.tsx:42-46 | filtering the shown chats again with the same query shows them all again |
| Search.FilterAgrees | src/pages/Dashboard/Search.tsx:42-46 | two queries that every saved chat matches alike show the same chats |
| Search.QueryCaseIgnored | src/pages/Dashboard/Search.tsx:44 | queries that lower-case alike show the same chats; upper-casing or lower-casing the query changes nothing |
| Search.EmptyQueryShowsChatsWithMessages | src/pages/Dashboard/Search.tsx:42-46 | the empty query shows exactly the saved chats that have at least one message, in their order |
| Search.SearchPage.FilteredChats | src/pages/Dashboard/Search.tsx:42-46 | the chats the screen lists are exactly the saved chats that match the current query, each as often as it is saved, in their saved order |
| Search.SearchPage.constructor | src/pages/Dashboard/Search.tsx:15-16 | the screen starts with no chats and the empty query |
| Search.SearchPage.OnSavedChats | src/pages/Dashboard/Search.tsx:18-36 | an ok response replaces the chats; a failed or thrown fetch leaves them as they were |
| Search.SearchPage.HandleSearchChange | src/pages/Dashboard/Search.tsx:38-40 | the query becomes the input's value; the chats are unchanged |

The pure layer's invariant is `NewChat.Consistent`. The stored transcript is the one in memory. The buffer is in use exactly while an interval runs. While it runs, the buffer is the part of the reply revealed so far.

With the intended firing, the buffer holds the first 0 to N-1 characters of a reply of N characters, and then the bot message appears; the buffer never holds the whole reply.

## Findings

| source | as written | input that shows it | evidently intended | confidence | as-written member | corrected member |
|---|---|---|---|---|---|---|
| src/pages/Dashboard/NewChat.tsx:63-64 | the updater passed to `setTypingMessage` reads `index` when React renders, after `index++`, so each firing adds the character after the current one | the reply "abc": the buffer shows "b", then "bc", then the bot message | the buffer shows "a", then "ab": each prefix of the reply in turn | not executed; medium, since it rests on React queuing the updater until the next render | NewChat.AsWrittenSkipsFirstCharacter | NewChat.Ticked |
| src/pages/Dashboard/NewChat.tsx:63-65 | for an empty reply the stop test `index === message.length` never holds, and `message[index]` is undefined, so each firing appends the text "undefined" to the buffer | the reply "": the buffer grows by "undefined" at every firing and the interval is never cleared | the animation ends and the interval is cleared; the model admits only a non-empty reply (`CanStartTyping`), for which every animation ends after as many firings as the reply has characters | not executed; high | NewChat.EmptyReplyNeverStops | NewChat.TypingCompletes |

## Left out

- Network I/O: the `fetch` calls to the generation, save and saved-chats endpoints are not modelled. Their outcome (`Http.Response`) is an input.
- JSX rendering, CSS, `alert`, `console.error` and the icon components are not modelled. They have no effect on the state.
- `setInterval`'s wall-clock timing of 50 ms is replaced by the discrete firing `Tick`.
- Overlapping animations are excluded by a precondition (`CanStartTyping`): no buffer and no running interval. Two intervals started together would race on the buffer, which is interleaving, not logic.
- An empty reply is excluded by a precondition (`CanStartTyping`) in the intended model. The stop test at `NewChat.tsx:65` never holds for it; what the code then does is under "## Findings".
- Storage is a map from keys to transcripts. `JSON.stringify` and `JSON.parse` are not modelled. Malformed stored data, or a stored empty string (which the load effect treats as absent), is out of scope.
- NewChat.Mounted: states only the state after both mount effects have run. On the first render the persistence effect writes the empty transcript, and it is overwritten as soon as the restored one is set. That intermediate write is not modelled.
- `event.currentTarget.reset()` at `NewChat.tsx:86` clears the form's field. It is not modelled, because the field is an input of each submission.
- JsString.ToLower: lower-cases ASCII letters only. Full Unicode case mapping is not modelled, so `QueryCaseIgnored` and `LowerForgetsCase` hold for the ASCII model only: in JavaScript "ß".toUpperCase() is "SS", which lower-cases to "ss", not "ß".
- A JavaScript string is a sequence of UTF-16 code units. Here it is one `char` per code unit, so surrogate pairs are not modelled.
- JsString.Trim: its own contract does not say that the result is a slice of the input. That is stated by `TrimStart` and `TrimEnd`, which `Trim` composes.
- `new Date(...).toLocaleString()` at `Search.tsx:72` is locale formatting and a foreign call. The time stamp is kept as an opaque string.
- The login, signup and saved-chats pages are not part of this model. They are fetch-and-render wrappers.
