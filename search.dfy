/** The search screen: the saved chats, a query, and the chats shown for it. A chat
    is shown when one of its messages contains the query, ignoring letter case; the
    shown chats keep the order of the saved ones. */
module Search {
  import opened JsString
  import opened Http

  datatype Message = Message(sender: string, text: string)

  /** A saved chat; `createdAt` is the ISO-8601 time stamp the backend sends. */
  datatype Chat = Chat(messages: seq<Message>, createdAt: string)

  /** One message matches when its lower-cased text includes the lower-cased query. */
  predicate MessageMatches(m: Message, query: string)
  {
    Includes(ToLower(m.text), ToLower(query))
  }

  /** `chat.messages.some(...)`: some message of the chat matches. */
  predicate ChatMatches(chat: Chat, query: string)
  {
    exists i :: 0 <= i < |chat.messages| && MessageMatches(chat.messages[i], query)
  }

  /** `a` is `b` with some elements left out, the rest in their order. */
  predicate IsSubsequence<T(==)>(a: seq<T>, b: seq<T>)
    decreases |b|
  {
    || a == []
    || (b != [] && ((a[0] == b[0] && IsSubsequence(a[1..], b[1..])) || IsSubsequence(a, b[1..])))
  }

  /** `filteredChats`: the matching chats of `chats`, in their order. A chat is kept
      exactly when it matches, and as often as it occurs. */
  function FilterChats(chats: seq<Chat>, query: string): (r: seq<Chat>)
    ensures forall c :: c in r <==> c in chats && ChatMatches(c, query)
    ensures forall c :: multiset(r)[c] == if ChatMatches(c, query) then multiset(chats)[c] else 0
    ensures IsSubsequence(r, chats)
  {
    if chats == [] then []
    else
      var rest := FilterChats(chats[1..], query);
      assert chats == [chats[0]] + chats[1..];
      if ChatMatches(chats[0], query) then [chats[0]] + rest else rest
  }

  /** A chat without messages is never shown, whatever the query. */
  lemma EmptyChatNeverShown(chats: seq<Chat>, query: string, c: Chat)
    requires c.messages == []
    ensures c !in FilterChats(chats, query)
  {
  }

  /** Filtering the shown chats again with the same query shows them all again. */
  lemma {:induction false} FilterIdempotent(chats: seq<Chat>, query: string)
    ensures FilterChats(FilterChats(chats, query), query) == FilterChats(chats, query)
  {
    if chats != [] {
      FilterIdempotent(chats[1..], query);
    }
  }

  /** Two queries that every saved chat matches alike show the same chats. */
  lemma {:induction false} FilterAgrees(chats: seq<Chat>, q1: string, q2: string)
    requires forall c :: c in chats ==> (ChatMatches(c, q1) <==> ChatMatches(c, q2))
    ensures FilterChats(chats, q1) == FilterChats(chats, q2)
  {
    if chats != [] {
      FilterAgrees(chats[1..], q1, q2);
    }
  }

  /** Only the lower-cased query matters: queries that differ in letter case show the
      same chats, in particular the query upper-cased or lower-cased. */
  lemma QueryCaseIgnored(chats: seq<Chat>, q1: string, q2: string)
    requires ToLower(q1) == ToLower(q2)
    ensures FilterChats(chats, q1) == FilterChats(chats, q2)
    ensures FilterChats(chats, ToUpper(q1)) == FilterChats(chats, q1)
    ensures FilterChats(chats, ToLower(q1)) == FilterChats(chats, q1)
  {
    FilterAgrees(chats, q1, q2);
    LowerForgetsCase(q1);
    FilterAgrees(chats, ToUpper(q1), q1);
    FilterAgrees(chats, ToLower(q1), q1);
  }

  /** The chats of `chats` that have at least one message, in their order. */
  function ChatsWithMessages(chats: seq<Chat>): (r: seq<Chat>)
  {
    if chats == [] then []
    else if chats[0].messages != [] then [chats[0]] + ChatsWithMessages(chats[1..])
    else ChatsWithMessages(chats[1..])
  }

  /** The empty query shows exactly the chats that have at least one message. */
  lemma {:induction false} EmptyQueryShowsChatsWithMessages(chats: seq<Chat>)
    ensures FilterChats(chats, "") == ChatsWithMessages(chats)
  {
    if chats != [] {
      var c := chats[0];
      if c.messages != [] {
        IncludesEmpty(ToLower(c.messages[0].text));
        assert MessageMatches(c.messages[0], "");
      }
      EmptyQueryShowsChatsWithMessages(chats[1..]);
    }
  }

  /** The search screen's component state. */
  class SearchPage {
    var chats: seq<Chat>
    var searchQuery: string

    constructor ()
      ensures chats == [] && searchQuery == ""
    {
      chats := [];
      searchQuery := "";
    }

    /** The fetch of the saved chats on mount settles: a response replaces the chats,
        a failure leaves them as they were. */
    method OnSavedChats(response: Response<seq<Chat>>)
      modifies this
      ensures chats == if response.Ok? then response.body else old(chats)
      ensures searchQuery == old(searchQuery)
    {
      if response.Ok? {
        chats := response.body;
      }
    }

    /** `handleSearchChange`: the query becomes the input's value. */
    method HandleSearchChange(value: string)
      modifies this
      ensures searchQuery == value && chats == old(chats)
    {
      searchQuery := value;
    }

    /** The chats the screen lists for the current query. */
    function FilteredChats(): (r: seq<Chat>)
      reads this
      ensures forall c :: c in r <==> c in chats && ChatMatches(c, searchQuery)
      ensures forall c :: multiset(r)[c] == if ChatMatches(c, searchQuery) then multiset(chats)[c] else 0
      ensures IsSubsequence(r, chats)
    {
      FilterChats(chats, searchQuery)
    }
  }
}
