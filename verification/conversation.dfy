/** The stored conversation and the chat endpoints of the web application:
    sending a message, reading a session's history and clearing a session. */
module Conversation {
  import opened Wrappers
  import Ordering
  import Chat
  import Passages

  // ---------------------------------------------------------------------
  // The message table

  /** The two `ChatMessage` roles. */
  const HumanRole := "human"
  const AiRole := "ai"

  /** A `ChatMessage` row; `createdAt` is its creation time as an integer
      timestamp. */
  datatype Message = Message(session: string, role: string, content: string, createdAt: int)

  /** The `ChatMessage` table in primary-key (insertion) order. */
  type Table = seq<Message>

  function CreatedAt(m: Message): int {
    m.createdAt
  }

  function InSession(key: string): Message -> bool {
    (m: Message) => m.session == key
  }

  function OutsideSession(key: string): Message -> bool {
    (m: Message) => m.session != key
  }

  /** `ChatMessage.objects.filter(session_key=key)` */
  function OfSession(db: Table, key: string): (r: seq<Message>)
    ensures forall m | m in r :: m in db && m.session == key
    ensures forall m | m in db && m.session == key :: m in r
  {
    Ordering.Filter(db, InSession(key))
  }

  /** `filter(session_key=key).order_by('created_at')`: the session's messages
      by creation time. The database leaves the order of equal times open;
      this model breaks such ties by insertion order. */
  function History(db: Table, key: string): (r: seq<Message>)
    ensures Ordering.SortedBy(r, CreatedAt)
    ensures multiset(r) == multiset(OfSession(db, key))
  {
    Ordering.SortBy(OfSession(db, key), CreatedAt)
  }

  lemma OfSessionAppend(db: Table, ms: seq<Message>, key: string)
    ensures OfSession(db + ms, key) == OfSession(db, key) + OfSession(ms, key)
  {
    Ordering.FilterAppend(db, ms, InSession(key));
  }

  // ---------------------------------------------------------------------
  // Session state

  /** The parts of the web session the chat endpoints use: the session key
      (absent until the session is created) and the cached retrieval chain. */
  datatype Session = Session(key: Option<string>, chain: Option<Chat.Chain>)

  /** The session key after `session.create()` when there was none;
      `freshKey` is the key the session framework would generate. */
  function KeyOf(session: Session, freshKey: string): string {
    session.key.GetOr(freshKey)
  }

  // ---------------------------------------------------------------------
  // send_message

  const InvalidMessageError := "Mensaje inválido"
  const NoKnowledgeBaseError := "No se pudo inicializar la base de conocimiento"

  /** The endpoint's JSON reply. */
  datatype Reply =
    | BadRequest(error: string)
    | ServerError(error: string)
    | Answer(response: string, sources: Chat.SourceInfo)

  function Status(r: Reply): nat {
    match r
    case BadRequest(_) => 400
    case ServerError(_) => 500
    case Answer(_, _) => 200
  }

  /** What the endpoint consults outside the database: the index that
      `get_vectorstore(pdfs, force_regenerate=False)` yields, whether the
      model connection and chain assembly succeed, and the model call. */
  datatype Backend = Backend(
    index: Option<Passages.Store>,
    connectOk: bool,
    buildOk: bool,
    invoke: (Chat.Chain, string, seq<Chat.LcMessage>) -> Result<Chat.Response, string>)

  /** Stored messages as handed to the history conversion. */
  function AsData(ms: seq<Message>): (r: seq<Chat.MessageData>)
    ensures |r| == |ms|
    ensures forall i | 0 <= i < |ms| :: r[i] == Chat.MessageData(ms[i].role, ms[i].content)
  {
    seq(|ms|, i requires 0 <= i < |ms| => Chat.MessageData(ms[i].role, ms[i].content))
  }

  /** The answer and passages `get_response` gives for `question` in the
      session `key`; a fresh `ChatService` is created for every request. */
  function Respond(db: Table, key: string, cached: Option<Chat.Chain>, question: string,
                   store: Passages.Store, b: Backend): (string, seq<Passages.Doc>)
  {
    var history := Chat.Converted(AsData(History(db, key)));
    var (_, answer, docs) := Chat.GetResponse(Chat.Service(None), question, history, store,
                                              cached, b.connectOk, b.buildOk, b.invoke);
    (answer, docs)
  }

  /** `send_message`. `form` is the cleaned message, `None` when the form
      is invalid; `asked` and `answered` are the clock readings taken when
      the question row and the answer row are created. */
  function SendMessage(db: Table, session: Session, form: Option<string>, freshKey: string,
                       b: Backend, asked: int, answered: int): (r: (Table, Session, Reply))
    ensures Status(r.2) == 400 <==> form.None?
    ensures Status(r.2) == 500 <==> form.Some? && b.index.None?
    ensures Status(r.2) != 200 ==> r.0 == db
    ensures form.None? ==> r.1 == session
    ensures form.Some? ==> r.1 == Session(Some(KeyOf(session, freshKey)), session.chain)
    ensures r.2.Answer? ==>
      r.0 == db + [Message(KeyOf(session, freshKey), HumanRole, form.value, asked),
                   Message(KeyOf(session, freshKey), AiRole, r.2.response, answered)]
    ensures r.2.Answer? ==>
      var (answer, docs) := Respond(db, KeyOf(session, freshKey), session.chain, form.value, b.index.value, b);
      r.2.response == answer && r.2.sources == Chat.ExtractSourceInfo(docs)
  {
    if form.None? then (db, session, BadRequest(InvalidMessageError))
    else
      var key := KeyOf(session, freshKey);
      var session' := Session(Some(key), session.chain);
      if b.index.None? then (db, session', ServerError(NoKnowledgeBaseError))
      else
        var (answer, docs) := Respond(db, key, session.chain, form.value, b.index.value, b);
        var db' := db + [Message(key, HumanRole, form.value, asked), Message(key, AiRole, answer, answered)];
        (db', session', Answer(answer, Chat.ExtractSourceInfo(docs)))
  }

  /** Appending two messages of one session extends that session by them
      and leaves every other session as it was. */
  lemma AppendTurns(db: Table, h: Message, a: Message, other: string)
    requires h.session == a.session && other != h.session
    ensures OfSession(db + [h, a], h.session) == OfSession(db, h.session) + [h, a]
    ensures OfSession(db + [h, a], other) == OfSession(db, other)
  {
    AppendTurnsOwn(db, h, a);
    OfSessionAppend(db, [h, a], other);
    Ordering.FilterNone([h, a], InSession(other));
  }

  /** A question stamped later than anything stored, and an answer stamped
      later than the question, come last in their session's ordered
      history, question before answer. The times are strictly increasing,
      so the order does not depend on how ties are broken. */
  lemma AppendTurnsHistory(db: Table, h: Message, a: Message)
    requires h.session == a.session && h.createdAt < a.createdAt
    requires forall m | m in db :: m.createdAt < h.createdAt
    ensures History(db + [h, a], h.session) == History(db, h.session) + [h, a]
  {
    var key := h.session;
    var prev := OfSession(db, key);
    AppendTurnsOwn(db, h, a);
    forall m | m in prev ensures m.createdAt <= h.createdAt {
      assert m in db;
    }
    SortTwoLast(prev, h, a);
  }

  lemma AppendTurnsOwn(db: Table, h: Message, a: Message)
    requires h.session == a.session
    ensures OfSession(db + [h, a], h.session) == OfSession(db, h.session) + [h, a]
  {
    OfSessionAppend(db, [h, a], h.session);
    Ordering.FilterAll([h, a], InSession(h.session));
  }

  lemma SortTwoLast(prev: seq<Message>, h: Message, a: Message)
    requires h.createdAt <= a.createdAt
    requires forall m | m in prev :: m.createdAt <= h.createdAt
    ensures Ordering.SortBy(prev + [h, a], CreatedAt) == Ordering.SortBy(prev, CreatedAt) + [h, a]
  {
    var s1 := prev + [h];
    assert prev + [h, a] == s1 + [a];
    forall m | m in prev ensures CreatedAt(m) <= CreatedAt(h) {
    }
    Ordering.SortByAppendLargest(prev, h, CreatedAt);
    forall m | m in s1 ensures CreatedAt(m) <= CreatedAt(a) {
      if m != h {
        assert m in prev;
        assert CreatedAt(m) <= CreatedAt(h);
      }
    }
    Ordering.SortByAppendLargest(s1, a, CreatedAt);
    var sorted := Ordering.SortBy(prev, CreatedAt);
    assert (sorted + [h]) + [a] == sorted + [h, a];
  }

  /** A successful request adds exactly the question and then the answer to
      its own session and leaves every other session as it was. */
  lemma SendAppendsTwo(db: Table, session: Session, form: Option<string>, freshKey: string,
                       b: Backend, asked: int, answered: int, other: string)
    requires SendMessage(db, session, form, freshKey, b, asked, answered).2.Answer?
    requires other != KeyOf(session, freshKey)
    ensures var r := SendMessage(db, session, form, freshKey, b, asked, answered);
      OfSession(r.0, KeyOf(session, freshKey)) ==
        OfSession(db, KeyOf(session, freshKey))
          + [Message(KeyOf(session, freshKey), HumanRole, form.value, asked),
             Message(KeyOf(session, freshKey), AiRole, r.2.response, answered)]
    ensures OfSession(SendMessage(db, session, form, freshKey, b, asked, answered).0, other) == OfSession(db, other)
  {
    var r := SendMessage(db, session, form, freshKey, b, asked, answered);
    var key := KeyOf(session, freshKey);
    AppendTurns(db, Message(key, HumanRole, form.value, asked), Message(key, AiRole, r.2.response, answered), other);
  }

  /** When the clock moves forward between requests, the session's ordered history
      after a successful request is the previous history followed by the
      question and the answer. */
  lemma SendExtendsHistory(db: Table, session: Session, form: Option<string>, freshKey: string,
                           b: Backend, asked: int, answered: int)
    requires SendMessage(db, session, form, freshKey, b, asked, answered).2.Answer?
    requires (forall m | m in db :: m.createdAt < asked) && asked < answered
    ensures var r := SendMessage(db, session, form, freshKey, b, asked, answered);
      History(r.0, KeyOf(session, freshKey)) ==
        History(db, KeyOf(session, freshKey))
          + [Message(KeyOf(session, freshKey), HumanRole, form.value, asked),
             Message(KeyOf(session, freshKey), AiRole, r.2.response, answered)]
  {
    var r := SendMessage(db, session, form, freshKey, b, asked, answered);
    var key := KeyOf(session, freshKey);
    AppendTurnsHistory(db, Message(key, HumanRole, form.value, asked), Message(key, AiRole, r.2.response, answered));
  }

  /** Without a cached chain and without a reachable model, the request
      still succeeds: the fixed apology is stored as the answer and no
      source is cited. */
  lemma DegradedAnswerStored(db: Table, session: Session, question: string, freshKey: string,
                             b: Backend, asked: int, answered: int)
    requires session.chain.None? && !b.connectOk && b.index.Some?
    ensures var r := SendMessage(db, session, Some(question), freshKey, b, asked, answered);
      && r.2 == Answer(Chat.NoModelAnswer, Chat.SourceInfo([], []))
      && r.0 == db + [Message(KeyOf(session, freshKey), HumanRole, question, asked),
                      Message(KeyOf(session, freshKey), AiRole, Chat.NoModelAnswer, answered)]
  {
    Chat.NoModelNoCitations(Chat.Service(None), question,
                            Chat.Converted(AsData(History(db, KeyOf(session, freshKey)))),
                            b.index.value, b.buildOk, b.invoke);
    Chat.NoCitations();
  }

  // ---------------------------------------------------------------------
  // get_chat_history

  /** One entry of the history reply; the timestamp formatting is left out. */
  datatype Entry = Entry(role: string, content: string, createdAt: int)

  function Entries(ms: seq<Message>): (r: seq<Entry>)
    ensures |r| == |ms|
    ensures forall i | 0 <= i < |ms| :: r[i] == Entry(ms[i].role, ms[i].content, ms[i].createdAt)
  {
    seq(|ms|, i requires 0 <= i < |ms| => Entry(ms[i].role, ms[i].content, ms[i].createdAt))
  }

  /** `get_chat_history`: nothing without a session, else the session's
      messages by creation time. */
  function GetChatHistory(db: Table, session: Session): (r: seq<Entry>)
    ensures session.key.None? ==> r == []
    ensures session.key.Some? ==> |r| == |OfSession(db, session.key.value)|
    ensures session.key.Some? ==> multiset(r) == multiset(Entries(OfSession(db, session.key.value)))
    ensures forall i, j | 0 <= i < j < |r| :: r[i].createdAt <= r[j].createdAt
  {
    if session.key.None? then []
    else
      var h := History(db, session.key.value);
      assert |h| == |multiset(h)|;
      EntriesPermutation(h, OfSession(db, session.key.value));
      Entries(h)
  }

  /** Rearranging messages rearranges their entries the same way. */
  lemma {:induction false} EntriesPermutation(a: seq<Message>, b: seq<Message>)
    requires multiset(a) == multiset(b)
    ensures multiset(Entries(a)) == multiset(Entries(b))
    decreases |a|
  {
    if |a| == 0 {
      assert |b| == |multiset(b)| == 0;
    } else {
      var x := a[0];
      assert x in multiset(b);
      var k :| 0 <= k < |b| && b[k] == x;
      var rest := b[..k] + b[k + 1..];
      assert b == b[..k] + [x] + b[k + 1..];
      assert a == [x] + a[1..];
      calc {
        multiset(a[1..]) + multiset{x};
        multiset(a);
        multiset(b);
        multiset(b[..k]) + multiset{x} + multiset(b[k + 1..]);
        multiset(rest) + multiset{x};
      }
      assert multiset(a[1..]) == (multiset(a[1..]) + multiset{x}) - multiset{x};
      assert multiset(rest) == (multiset(rest) + multiset{x}) - multiset{x};
      EntriesPermutation(a[1..], rest);
      EntriesAppend([x], a[1..]);
      EntriesAppend(b[..k], [x]);
      EntriesAppend(b[..k] + [x], b[k + 1..]);
      EntriesAppend(b[..k], b[k + 1..]);
    }
  }

  /** After a successful request the history reply of that session grows by
      the question and the answer, provided the clock moves forward. */
  lemma ChatHistoryAfterSend(db: Table, session: Session, question: string, freshKey: string,
                             b: Backend, asked: int, answered: int)
    requires session.key.Some? && b.index.Some?
    requires (forall m | m in db :: m.createdAt < asked) && asked < answered
    ensures var r := SendMessage(db, session, Some(question), freshKey, b, asked, answered);
      r.2.Answer? &&
      GetChatHistory(r.0, r.1) ==
        GetChatHistory(db, session)
          + [Entry(HumanRole, question, asked), Entry(AiRole, r.2.response, answered)]
  {
    var r := SendMessage(db, session, Some(question), freshKey, b, asked, answered);
    HistoryAfterTurns(db, session.key.value, session.chain, question, r.2.response, asked, answered);
  }

  lemma HistoryAfterTurns(db: Table, key: string, chain: Option<Chat.Chain>, question: string, answer: string,
                          asked: int, answered: int)
    requires (forall m | m in db :: m.createdAt < asked) && asked < answered
    ensures GetChatHistory(db + [Message(key, HumanRole, question, asked), Message(key, AiRole, answer, answered)], Session(Some(key), chain))
      == GetChatHistory(db, Session(Some(key), chain)) + [Entry(HumanRole, question, asked), Entry(AiRole, answer, answered)]
  {
    var h := Message(key, HumanRole, question, asked);
    var a := Message(key, AiRole, answer, answered);
    var session := Session(Some(key), chain);
    assert GetChatHistory(db + [h, a], session) == Entries(History(db + [h, a], key));
    assert GetChatHistory(db, session) == Entries(History(db, key));
    AppendTurnsHistory(db, h, a);
    EntriesAppend(History(db, key), [h, a]);
    assert Entries([h, a]) == [Entry(HumanRole, question, asked), Entry(AiRole, answer, answered)];
  }

  lemma EntriesAppend(ms: seq<Message>, extra: seq<Message>)
    ensures Entries(ms + extra) == Entries(ms) + Entries(extra)
  {
  }

  // ---------------------------------------------------------------------
  // clear_chat

  /** `clear_chat`: deletes the session's messages, forgets the cached chain
      and reports how many messages were deleted; without a session nothing
      happens and the count is 0. */
  function ClearChat(db: Table, session: Session): (r: (Table, Session, nat))
    ensures session.key.None? ==> r == (db, session, 0)
    ensures session.key.Some? ==>
      && r.1 == Session(session.key, None)
      && r.2 == |OfSession(db, session.key.value)|
      && r.2 + |r.0| == |db|
      && (forall m | m in r.0 :: m in db && m.session != session.key.value)
  {
    if session.key.None? then (db, session, 0)
    else
      var key := session.key.value;
      var count := |OfSession(db, key)|;
      var db' := Ordering.Filter(db, OutsideSession(key));
      Ordering.FilterCount(db, InSession(key), OutsideSession(key));
      (db', Session(session.key, None), count)
  }

  /** Clearing empties the current session and leaves every other session's
      messages, in order, untouched. */
  lemma ClearChatFrame(db: Table, session: Session, other: string)
    requires session.key.Some? && other != session.key.value
    ensures OfSession(ClearChat(db, session).0, session.key.value) == []
    ensures OfSession(ClearChat(db, session).0, other) == OfSession(db, other)
  {
    var key := session.key.value;
    var db' := ClearChat(db, session).0;
    Ordering.FilterNone(db', InSession(key));
    Ordering.FilterNarrow(db, OutsideSession(key), InSession(other));
  }
}
