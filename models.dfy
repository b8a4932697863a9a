/**
 * The persistent entities of the chat application: users, conversations and messages, the
 * `Languages` enumeration, and the in-memory tables that stand for the database.
 *
 * A table is a sequence in primary-key order: the row with id `k` is at position `k - 1`.
 */
module Models {
  import opened Wrappers

  /** The value of `waiting_for_conversation_with_language` for a user who is not waiting. */
  const NONE_LANGUAGE: string := "NONE"

  /**
   * Declared column widths. No route checks them, and the default SQLite database does not
   * enforce them.
   */
  const USERNAME_WIDTH: nat := 64
  const EMAIL_WIDTH: nat := 120

  /** The `Languages` enumeration, with its member names and values. */
  datatype Language = NONE | English | Chinese | Spanish {
    function Value(): nat {
      match this
      case NONE => 0
      case English => 1
      case Chinese => 2
      case Spanish => 3
    }

    function Name(): string {
      match this
      case NONE => "NONE"
      case English => "English"
      case Chinese => "Chinese"
      case Spanish => "Spanish"
    }
  }

  /** The members of `Languages` in declaration order. */
  const LANGUAGES: seq<Language> := [NONE, English, Chinese, Spanish]

  /** `@unique`: no two members share a value, and no two share a name; NONE is the sentinel. */
  lemma LanguagesUnique()
    ensures forall i, j :: 0 <= i < j < |LANGUAGES| ==>
      LANGUAGES[i].Value() != LANGUAGES[j].Value() && LANGUAGES[i].Name() != LANGUAGES[j].Name()
    ensures forall l: Language :: l.Value() < |LANGUAGES| && LANGUAGES[l.Value()] == l
    ensures NONE.Name() == NONE_LANGUAGE
  {
    forall l: Language
      ensures l.Value() < |LANGUAGES| && LANGUAGES[l.Value()] == l
    {
      match l
      case NONE =>
      case English =>
      case Chinese =>
      case Spanish =>
    }
  }

  /** A row of the `user` table. The password hash is opaque here. */
  datatype User = User(username: string, email: string, passwordHash: string, waitingLanguage: string)

  /** A row of the `message` table; `author` is the id of the user who wrote it. */
  datatype Message = Message(id: nat, author: nat, timestamp: int, content: string)

  /**
   * A row of the `conversation` table together with its two relationships: `users` (the link
   * table, in link order) and `messages` (in insertion order).
   */
  datatype Conversation = Conversation(
    startTimestamp: int,
    endTimestamp: Option<int>,
    active: bool,
    language: string,
    users: seq<nat>,
    messages: seq<Message>)

  /** A freshly signed-up user: the waiting column takes its default. */
  function NewUser(username: string, email: string, passwordHash: string): (u: User)
    ensures u.username == username && u.email == email && u.passwordHash == passwordHash
    ensures u.waitingLanguage == NONE_LANGUAGE
  {
    User(username, email, passwordHash, NONE_LANGUAGE)
  }

  /** A freshly created conversation: the `active`, `start_timestamp` and `end_timestamp` defaults. */
  function Started(language: string, now: int, members: seq<nat>): (c: Conversation)
    ensures c.active && c.endTimestamp == None && c.startTimestamp == now
    ensures c.language == language && c.users == members && c.messages == []
  {
    Conversation(now, None, true, language, members, [])
  }

  /**
   * A conversation created for two distinct users starts active, with no end timestamp and no
   * messages, and is an active conversation of both.
   */
  lemma NewConversationActive(language: string, now: int, a: nat, b: nat)
    requires a != b
    ensures var c := Started(language, now, [a, b]);
      WellFormed(c) && c.endTimestamp == None && c.messages == [] && c.startTimestamp == now &&
      c.language == language && ActiveFor(c, a) && ActiveFor(c, b)
  {
  }

  /** The conversation after `deactivate()` ran at time `now`. */
  function Deactivated(c: Conversation, now: int): (d: Conversation)
    ensures !d.active && d.endTimestamp == Some(now)
    ensures d.(active := c.active, endTimestamp := c.endTimestamp) == c
  {
    c.(active := false, endTimestamp := Some(now))
  }

  predicate ActiveFor(c: Conversation, uid: nat) {
    c.active && uid in c.users
  }

  /** `c` is an ended conversation that `uid` took part in. */
  predicate EndedFor(c: Conversation, uid: nat) {
    !c.active && uid in c.users
  }

  /**
   * `User.active_conversation`: the conversations of `uid` filtered on `active`, then the first.
   * The query has no ORDER BY; the model takes the lowest id.
   */
  function ActiveConversation(convs: seq<Conversation>, uid: nat): (r: Option<nat>)
    ensures r.Some? ==> 1 <= r.value <= |convs| && ActiveFor(convs[r.value - 1], uid)
    ensures r.Some? ==> forall i :: 0 <= i < r.value - 1 ==> !ActiveFor(convs[i], uid)
    ensures r.None? <==> forall i :: 0 <= i < |convs| ==> !ActiveFor(convs[i], uid)
  {
    if convs == [] then None
    else if ActiveFor(convs[0], uid) then Some(1)
    else
      match ActiveConversation(convs[1..], uid)
      case None => None
      case Some(k) => Some(k + 1)
  }

  /** Every id in `members` is the id of a row of `users`. */
  predicate MembersExist(users: seq<User>, members: seq<nat>) {
    forall k :: 0 <= k < |members| ==> 1 <= members[k] <= |users|
  }

  /** Every author of `msgs` is the id of a row of `users`. */
  predicate AuthorsExist(users: seq<User>, msgs: seq<Message>) {
    forall k :: 0 <= k < |msgs| ==> 1 <= msgs[k].author <= |users|
  }

  /** The foreign keys of one conversation refer to existing users. */
  predicate KeysExist(users: seq<User>, c: Conversation) {
    MembersExist(users, c.users) && AuthorsExist(users, c.messages)
  }

  /** Every member and every author refers to an existing user. */
  predicate IdsExist(users: seq<User>, convs: seq<Conversation>) {
    forall i :: 0 <= i < |convs| ==> KeysExist(users, convs[i])
  }

  /** Exactly two distinct members, and an end timestamp exactly when the conversation has ended. */
  ghost predicate WellFormed(c: Conversation) {
    |c.users| == 2 && c.users[0] != c.users[1] && (c.active <==> c.endTimestamp.None?)
  }

  /** The `unique` constraint of the username column. */
  ghost predicate UniqueUsernames(users: seq<User>) {
    forall i, j :: 0 <= i < j < |users| ==> users[i].username != users[j].username
  }

  /**
   * What the rows satisfy whenever the application has handled a request: ids refer to rows,
   * usernames are unique (the column is `unique`, and signup checks it), and every conversation
   * is well formed. At most one active conversation per user is NOT part of it: the source does
   * not keep that.
   */
  ghost predicate Consistent(users: seq<User>, convs: seq<Conversation>) {
    IdsExist(users, convs) && UniqueUsernames(users) &&
    forall i :: 0 <= i < |convs| ==> WellFormed(convs[i])
  }

  /** `ActiveConversation` depends only on which conversations are active ones of the user. */
  lemma ActiveDependsOnFlags(a: seq<Conversation>, b: seq<Conversation>, uid: nat)
    requires |a| == |b|
    requires forall i :: 0 <= i < |a| ==> (ActiveFor(a[i], uid) <==> ActiveFor(b[i], uid))
    ensures ActiveConversation(a, uid) == ActiveConversation(b, uid)
  {
  }

  /**
   * The lifecycle of one conversation between two states of the tables: members, language and
   * start are fixed, messages are only appended, an ended conversation never changes again, and
   * an active one has no end timestamp.
   */
  ghost predicate ConversationStep(before: Conversation, after: Conversation) {
    after.users == before.users &&
    after.language == before.language &&
    after.startTimestamp == before.startTimestamp &&
    before.messages <= after.messages &&
    (!before.active ==> after == before) &&
    (after.active ==> after.endTimestamp.None?)
  }

  /** Conversations are never deleted, and each existing one follows `ConversationStep`. */
  ghost predicate Evolves(before: seq<Conversation>, after: seq<Conversation>) {
    |before| <= |after| &&
    (forall i :: 0 <= i < |before| ==> ConversationStep(before[i], after[i]))
  }

  /** The lifecycle composes: "active, then ended" holds over any run of requests. */
  lemma {:induction false} EvolvesTransitive(a: seq<Conversation>, b: seq<Conversation>, c: seq<Conversation>)
    requires Evolves(a, b) && Evolves(b, c)
    ensures Evolves(a, c)
  {
    forall i | 0 <= i < |a|
      ensures ConversationStep(a[i], c[i])
    {
      assert ConversationStep(a[i], b[i]) && ConversationStep(b[i], c[i]);
    }
  }

  /** After the only active conversation of a user is deactivated, the user has no active conversation. */
  lemma DeactivateOnlyActive(convs: seq<Conversation>, uid: nat, id: nat, now: int)
    requires 1 <= id <= |convs| && ActiveConversation(convs, uid) == Some(id)
    requires forall i :: 0 <= i < |convs| && i != id - 1 ==> !ActiveFor(convs[i], uid)
    ensures ActiveConversation(convs[id - 1 := Deactivated(convs[id - 1], now)], uid) == None
  {
  }

  /** The database: the three tables and the message id counter. */
  class Store {
    var users: seq<User>
    var conversations: seq<Conversation>
    var messageCount: nat

    ghost predicate Valid()
      reads this
    {
      Consistent(users, conversations)
    }

    /** An empty database, as `db.create_all()` leaves it. */
    constructor ()
      ensures Valid()
      ensures users == [] && conversations == [] && messageCount == 0
    {
      users, conversations, messageCount := [], [], 0;
    }

    /** `Conversation.deactivate`: ends conversation `id` at time `now`; nothing else changes. */
    method Deactivate(id: nat, now: int)
      requires Valid()
      requires 1 <= id <= |conversations|
      modifies this`conversations
      ensures Valid()
      ensures conversations == old(conversations)[id - 1 := Deactivated(old(conversations)[id - 1], now)]
      ensures !conversations[id - 1].active && conversations[id - 1].endTimestamp == Some(now)
    {
      conversations := conversations[id - 1 := Deactivated(conversations[id - 1], now)];
    }
  }
}
