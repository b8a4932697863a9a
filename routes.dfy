/**
 * The request and socket handlers of the chat application, over the tables of `Models.Store`
 * and two pieces of process-wide state: the backfill cursor `next_message` and the stream of
 * emitted socket events (the outbox).
 */
module Routes {
  import opened Wrappers
  import opened Models
  import opened Globals

  /** Python's slice start for the history page: the last 100 messages. */
  const LOAD_MESSAGE_COUNT: int := -100

  function Min(a: int, b: int): int { if a <= b then a else b }

  function Max(a: int, b: int): int { if a <= b then b else a }

  // ---------------------------------------------------------------------------------------
  // Room ids: f"{min(a, b)}-{max(a, b)}"

  predicate IsDigits(s: string) {
    forall k :: 0 <= k < |s| ==> '0' <= s[k] <= '9'
  }

  function DigitChar(d: nat): (c: char)
    requires d < 10
  {
    ('0' as int + d) as char
  }

  /** The number a string of decimal digits spells, most significant digit first. */
  function DecimalValue(s: string): nat
    requires IsDigits(s)
  {
    if s == [] then 0 else 10 * DecimalValue(s[..|s| - 1]) + (s[|s| - 1] as int - '0' as int)
  }

  /**
   * Python's `str` of a non-negative integer: the decimal digits that spell `n`, with no
   * leading zero.
   */
  function IdString(n: nat): (s: string)
    ensures |s| >= 1 && IsDigits(s)
    ensures DecimalValue(s) == n
    ensures |s| >= 2 ==> s[0] != '0'
    decreases n
  {
    if n < 10 then [DigitChar(n)]
    else
      var prefix := IdString(n / 10);
      var s := prefix + [DigitChar(n % 10)];
      assert s[..|s| - 1] == prefix;
      s
  }

  /** Different ids have different decimal strings. */
  lemma IdStringInjective(a: nat, b: nat)
    requires IdString(a) == IdString(b)
    ensures a == b
  {
    assert a == DecimalValue(IdString(a)) == DecimalValue(IdString(b)) == b;
  }

  /** `get_room` on the two member ids: "min-max". */
  function GetRoom(a: nat, b: nat): string {
    IdString(Min(a, b)) + "-" + IdString(Max(a, b))
  }

  /**
   * Reading a room back: the digits before its first dash spell the smaller id and the digits
   * after it the larger one.
   */
  lemma GetRoomParses(a: nat, b: nat)
    ensures var room := GetRoom(a, b); var k := FirstDash(room);
      k < |room| && room[k] == '-' && IsDigits(room[..k]) && IsDigits(room[k + 1..]) &&
      DecimalValue(room[..k]) == Min(a, b) && DecimalValue(room[k + 1..]) == Max(a, b)
  {
    var x, y := IdString(Min(a, b)), IdString(Max(a, b));
    FirstDashAfterDigits(x, y);
    var room := x + "-" + y;
    assert room[..|x|] == x && room[|x| + 1..] == y;
  }

  /** The room of a pair does not depend on which member asks. */
  lemma RoomSymmetric(a: nat, b: nat)
    ensures GetRoom(a, b) == GetRoom(b, a)
  {
  }

  /** The position of the first '-' in `s`, or `|s|` when there is none. */
  function FirstDash(s: string): nat {
    if s == [] then 0 else if s[0] == '-' then 0 else 1 + FirstDash(s[1..])
  }

  /** In a digit string followed by a dash, the first dash is right after the digits. */
  lemma {:induction false} FirstDashAfterDigits(x: string, y: string)
    requires IsDigits(x)
    ensures FirstDash(x + "-" + y) == |x|
  {
    if x != [] {
      assert (x + "-" + y)[1..] == x[1..] + "-" + y;
      FirstDashAfterDigits(x[1..], y);
    }
  }

  /** A dash-joined pair of digit strings splits back into its two parts. */
  lemma SplitAtDash(x: string, y: string, u: string, v: string)
    requires IsDigits(x) && IsDigits(u)
    requires x + "-" + y == u + "-" + v
    ensures x == u && y == v
  {
    var s, t := x + "-" + y, u + "-" + v;
    FirstDashAfterDigits(x, y);
    FirstDashAfterDigits(u, v);
    assert x == s[..|x|] && u == t[..|u|];
    assert y == s[|x| + 1..] && v == t[|u| + 1..];
  }

  /** Two pairs share a room exactly when they are the same unordered pair: no cross-talk. */
  lemma {:induction false} RoomInjective(a: nat, b: nat, c: nat, d: nat)
    ensures GetRoom(a, b) == GetRoom(c, d) <==> (a == c && b == d) || (a == d && b == c)
  {
    if GetRoom(a, b) == GetRoom(c, d) {
      SplitAtDash(IdString(Min(a, b)), IdString(Max(a, b)), IdString(Min(c, d)), IdString(Max(c, d)));
      IdStringInjective(Min(a, b), Min(c, d));
      IdStringInjective(Max(a, b), Max(c, d));
    }
  }

  // ---------------------------------------------------------------------------------------
  // Emitted events

  /** `message_to_dict`; the formatted timestamp is kept as the abstract timestamp. */
  datatype MessageDict = MessageDict(username: string, timestamp: int, content: string, scroll: bool)

  function MessageToDict(users: seq<User>, m: Message, scroll: bool): (d: MessageDict)
    requires 1 <= m.author <= |users|
    ensures d.username == users[m.author - 1].username
    ensures d.timestamp == m.timestamp && d.content == m.content && d.scroll == scroll
  {
    MessageDict(users[m.author - 1].username, m.timestamp, m.content, scroll)
  }

  /**
   * Under the unique username column the record's username identifies the author: two records
   * with the same username come from the same user.
   */
  lemma MessageToDictNamesAuthor(users: seq<User>, m: Message, n: Message, scroll: bool)
    requires UniqueUsernames(users)
    requires 1 <= m.author <= |users| && 1 <= n.author <= |users|
    requires MessageToDict(users, m, scroll).username == MessageToDict(users, n, scroll).username
    ensures m.author == n.author
  {
  }

  /** A socket event: to a room, or back to the client of the user whose request it answers. */
  datatype Event =
    | ReceiveNewMessage(room: string, data: MessageDict)
    | ReceivePreviousMessage(recipient: nat, data: MessageDict)

  /**
   * `get_room()` for the current user, with the helper called as intended (on the user's active
   * conversation); a missing partner makes the attribute access on `None` fail.
   */
  function Room(users: seq<User>, convs: seq<Conversation>, uid: nat): (r: Result<string, PyError>)
    requires 1 <= uid <= |users| && IdsExist(users, convs)
    ensures r == Err(AttributeError) <==> ActiveConversation(convs, uid).None?
    ensures r.Err? ==> r.error == AttributeError || r.error == IndexError
    ensures var o := OtherConversationMember(users, convs, uid);
      (r.Ok? <==> o.Ok? && o.value.Some?) && (r.Ok? ==> r.value == GetRoom(uid, o.value.value))
  {
    match OtherConversationMember(users, convs, uid)
    case Ok(Some(o)) => Ok(GetRoom(uid, o))
    case Ok(None) => Err(AttributeError)
    case Err(e) => Err(e)
  }

  /**
   * `get_room()` as written: it passes the active conversation to a helper that takes no
   * arguments, so the call raises `TypeError` before any room is built, whatever the state.
   */
  function RoomAsWritten(users: seq<User>, convs: seq<Conversation>, uid: nat): (r: Result<string, PyError>)
    ensures r.Err? && r.error == TypeError
  {
    Err(TypeError)
  }

  /**
   * The arity mismatch is a defect: on consistent tables, a user in a conversation gets no room
   * from the code as written, where the intended helper call yields the pair's room.
   */
  lemma RoomAsWrittenFails(users: seq<User>, convs: seq<Conversation>, uid: nat)
    requires 1 <= uid <= |users| && Consistent(users, convs)
    requires ActiveConversation(convs, uid).Some?
    ensures RoomAsWritten(users, convs, uid) == Err(TypeError)
    ensures Room(users, convs, uid).Ok? && Room(users, convs, uid) != RoomAsWritten(users, convs, uid)
  {
    RoomOfConsistent(users, convs, uid);
  }

  /**
   * On consistent tables the room of a user in a conversation is the room of its two members,
   * whichever of the two asks.
   */
  lemma RoomOfConsistent(users: seq<User>, convs: seq<Conversation>, uid: nat)
    requires 1 <= uid <= |users| && Consistent(users, convs)
    requires ActiveConversation(convs, uid).Some?
    ensures var c := convs[ActiveConversation(convs, uid).value - 1];
      Room(users, convs, uid) == Ok(GetRoom(c.users[0], c.users[1]))
  {
    OtherMemberOfConsistent(users, convs, uid);
    var c := convs[ActiveConversation(convs, uid).value - 1];
    var o := OtherConversationMember(users, convs, uid).value.value;
    if uid == c.users[0] {
      assert o == c.users[1];
    } else {
      assert uid == c.users[1] && o == c.users[0];
      RoomSymmetric(uid, o);
    }
  }

  // ---------------------------------------------------------------------------------------
  // The history page and the backfill cursor

  /** Python's `s[start:]` for any integer `start`. */
  function PySuffix<T>(s: seq<T>, start: int): seq<T> {
    if start < 0 then s[Max(0, |s| + start)..] else s[Min(start, |s|)..]
  }

  /** `messages[LOAD_MESSAGE_COUNT:]`: the last 100 messages, or all of them, in order. */
  function Page(msgs: seq<Message>): (page: seq<Message>)
    ensures |page| == Min(-LOAD_MESSAGE_COUNT, |msgs|)
    ensures page == msgs[|msgs| - |page|..]
  {
    PySuffix(msgs, LOAD_MESSAGE_COUNT)
  }

  /** `next_message = len(messages) + LOAD_MESSAGE_COUNT - 1`. */
  function InitialCursor(msgs: seq<Message>): (c: int)
    ensures c < |msgs|
    ensures c >= 0 <==> |msgs| > -LOAD_MESSAGE_COUNT
  {
    |msgs| + LOAD_MESSAGE_COUNT - 1
  }

  /**
   * The cursor starts at the message just before the page, and is negative exactly when the
   * page already shows the whole history.
   */
  lemma CursorBeforePage(msgs: seq<Message>)
    ensures InitialCursor(msgs) >= 0 <==> |Page(msgs)| < |msgs|
    ensures InitialCursor(msgs) >= 0 ==> InitialCursor(msgs) == |msgs| - |Page(msgs)| - 1
  {
  }

  /** The indices emitted by `k` successive `load_message` calls that start from `cursor`. */
  function BackfillIndices(cursor: int, k: nat): seq<nat>
    decreases k
  {
    if k == 0 || cursor < 0 then [] else [cursor as nat] + BackfillIndices(cursor - 1, k - 1)
  }

  /**
   * Backfill walks down one message at a time: the `j`-th emission is `cursor - j`, and it
   * stops after index 0. In particular no index is emitted twice.
   */
  lemma {:induction false} BackfillShape(cursor: int, k: nat)
    ensures var r := BackfillIndices(cursor, k);
      |r| == (if cursor < 0 then 0 else Min(k, cursor + 1)) &&
      (forall j :: 0 <= j < |r| ==> r[j] == cursor - j) &&
      (forall j, l :: 0 <= j < l < |r| ==> r[j] > r[l])
    decreases k
  {
    if k > 0 && cursor >= 0 {
      BackfillShape(cursor - 1, k - 1);
      var r := BackfillIndices(cursor, k);
      assert forall j :: 1 <= j < |r| ==> r[j] == BackfillIndices(cursor - 1, k - 1)[j - 1];
    }
  }

  /** One more emission appends the next lower index. */
  lemma {:induction false} BackfillSnoc(cursor: int, k: nat)
    requires cursor - k >= 0
    ensures BackfillIndices(cursor, k + 1) == BackfillIndices(cursor, k) + [(cursor - k) as nat]
    decreases k
  {
    if k > 0 {
      BackfillSnoc(cursor - 1, k - 1);
    }
  }

  /**
   * One emission at the cursor keeps the record of emitted indices in step with
   * `BackfillIndices`, and the emitted index was not emitted before.
   */
  lemma BackfillStep(reset: int, backfilled: seq<nat>)
    requires reset - |backfilled| >= 0
    requires backfilled == BackfillIndices(reset, |backfilled|)
    ensures (reset - |backfilled|) as nat !in backfilled
    ensures backfilled + [(reset - |backfilled|) as nat] == BackfillIndices(reset, |backfilled| + 1)
  {
    BackfillShape(reset, |backfilled|);
    BackfillSnoc(reset, |backfilled|);
  }

  /**
   * After `current_conversation`, `k` backfill calls emit, newest first, the messages right
   * before the page, as many as there are: what the client has then is a contiguous suffix.
   */
  lemma BackfillAfterPage(msgs: seq<Message>, k: nat)
    ensures var r := BackfillIndices(InitialCursor(msgs), k);
      |r| == Min(k, |msgs| - |Page(msgs)|) &&
      forall j :: 0 <= j < |r| ==> r[j] == |msgs| - |Page(msgs)| - 1 - j
  {
    BackfillShape(InitialCursor(msgs), k);
  }

  /**
   * A conversation of 150 messages: the page is messages 50 to 149, fifty loads emit 49 down to
   * 0, and the fifty-first emits nothing.
   */
  lemma Backfill150(msgs: seq<Message>)
    requires |msgs| == 150
    ensures Page(msgs) == msgs[50..]
    ensures var r := BackfillIndices(InitialCursor(msgs), 50);
      |r| == 50 && r[0] == 49 && r[49] == 0 && BackfillIndices(InitialCursor(msgs), 51) == r
  {
    BackfillShape(InitialCursor(msgs), 50);
    BackfillShape(InitialCursor(msgs), 51);
    var r, r' := BackfillIndices(InitialCursor(msgs), 50), BackfillIndices(InitialCursor(msgs), 51);
    assert |r'| == |r|;
  }

  // ---------------------------------------------------------------------------------------
  // Viewing conversations

  datatype HttpError = NotFound | Forbidden

  /** `conversation(conversation_id)`: 404 for an unknown id, 403 for a non-member, else the messages. */
  function ViewConversation(convs: seq<Conversation>, uid: nat, id: int): (r: Result<seq<Message>, HttpError>)
    ensures r == Err(NotFound) <==> !(1 <= id <= |convs|)
    ensures r == Err(Forbidden) <==> 1 <= id <= |convs| && uid !in convs[id - 1].users
    ensures r.Ok? <==> 1 <= id <= |convs| && uid in convs[id - 1].users
    ensures r.Ok? ==> r.value == convs[id - 1].messages
  {
    if !(1 <= id <= |convs|) then Err(NotFound)
    else if uid !in convs[id - 1].users then Err(Forbidden)
    else Ok(convs[id - 1].messages)
  }

  /** The ended conversations of `uid` among the first `n`, latest first. */
  function PastUpTo(convs: seq<Conversation>, uid: nat, n: nat): (ids: seq<nat>)
    requires n <= |convs|
    ensures forall k :: 0 <= k < |ids| ==> 1 <= ids[k] <= n && EndedFor(convs[ids[k] - 1], uid)
    ensures forall i {:trigger EndedFor(convs[i], uid)} :: 0 <= i < n && EndedFor(convs[i], uid) ==> i + 1 in ids
    ensures forall k, l :: 0 <= k < l < |ids| ==> ids[k] > ids[l]
  {
    if n == 0 then []
    else
      var rest := PastUpTo(convs, uid, n - 1);
      if EndedFor(convs[n - 1], uid) then
        PrependPast(convs, uid, n, rest);
        [n] + rest
      else
        SkipPast(convs, uid, n, rest);
        rest
  }

  /** The step of `PastUpTo` that passes over conversation `n`. */
  lemma SkipPast(convs: seq<Conversation>, uid: nat, n: nat, rest: seq<nat>)
    requires 1 <= n <= |convs| && !EndedFor(convs[n - 1], uid)
    requires forall i {:trigger EndedFor(convs[i], uid)} :: 0 <= i < n - 1 && EndedFor(convs[i], uid) ==> i + 1 in rest
    ensures forall i {:trigger EndedFor(convs[i], uid)} :: 0 <= i < n && EndedFor(convs[i], uid) ==> i + 1 in rest
  {
  }

  /** The step of `PastUpTo` that lists conversation `n` in front of the earlier ones. */
  lemma PrependPast(convs: seq<Conversation>, uid: nat, n: nat, rest: seq<nat>)
    requires 1 <= n <= |convs| && EndedFor(convs[n - 1], uid)
    requires forall k :: 0 <= k < |rest| ==> 1 <= rest[k] <= n - 1 && EndedFor(convs[rest[k] - 1], uid)
    requires forall i {:trigger EndedFor(convs[i], uid)} :: 0 <= i < n - 1 && EndedFor(convs[i], uid) ==> i + 1 in rest
    requires forall k, l :: 0 <= k < l < |rest| ==> rest[k] > rest[l]
    ensures var ids := [n] + rest;
      (forall k :: 0 <= k < |ids| ==> 1 <= ids[k] <= n && EndedFor(convs[ids[k] - 1], uid)) &&
      (forall i {:trigger EndedFor(convs[i], uid)} :: 0 <= i < n && EndedFor(convs[i], uid) ==> i + 1 in ids) &&
      (forall k, l :: 0 <= k < l < |ids| ==> ids[k] > ids[l])
  {
    var ids := [n] + rest;
    assert forall k :: 1 <= k < |ids| ==> ids[k] == rest[k - 1];
  }

  /** `past_conversations`: the user's ended conversations, latest first. */
  function PastConversations(convs: seq<Conversation>, uid: nat): (ids: seq<nat>)
    ensures forall k :: 0 <= k < |ids| ==> 1 <= ids[k] <= |convs| && EndedFor(convs[ids[k] - 1], uid)
    ensures forall i {:trigger EndedFor(convs[i], uid)} :: 0 <= i < |convs| && EndedFor(convs[i], uid) ==> i + 1 in ids
    ensures forall k, l :: 0 <= k < l < |ids| ==> ids[k] > ids[l]
  {
    PastUpTo(convs, uid, |convs|)
  }

  /** Every listed past conversation can be opened by the user who lists it. */
  lemma PastConversationsViewable(convs: seq<Conversation>, uid: nat)
    ensures forall k :: 0 <= k < |PastConversations(convs, uid)| ==>
      ViewConversation(convs, uid, PastConversations(convs, uid)[k]).Ok?
  {
  }

  /** The active conversation is never among the past ones. */
  lemma ActiveIsNotPast(convs: seq<Conversation>, uid: nat)
    requires ActiveConversation(convs, uid).Some?
    ensures ActiveConversation(convs, uid).value !in PastConversations(convs, uid)
  {
    var id := ActiveConversation(convs, uid).value;
    var ids := PastConversations(convs, uid);
    forall k | 0 <= k < |ids|
      ensures ids[k] != id
    {
      assert EndedFor(convs[ids[k] - 1], uid);
    }
  }

  // ---------------------------------------------------------------------------------------
  // Signup validation

  datatype SignupError = EmptyField | UsernameTaken | EmailTaken | PasswordMismatch

  predicate UsernameInUse(users: seq<User>, username: string) {
    exists i :: 0 <= i < |users| && users[i].username == username
  }

  predicate EmailInUse(users: seq<User>, email: string) {
    exists i :: 0 <= i < |users| && users[i].email == email
  }

  /**
   * The error flags of `signup`, in the order they are flashed. Every check runs; the form is
   * accepted only when none fires.
   */
  function SignupErrors(users: seq<User>, username: string, email: string, password: string, confirmPassword: string): (errors: seq<SignupError>)
    ensures EmptyField in errors <==> username == [] || email == [] || password == [] || confirmPassword == []
    ensures UsernameTaken in errors <==> UsernameInUse(users, username)
    ensures EmailTaken in errors <==> EmailInUse(users, email)
    ensures PasswordMismatch in errors <==> password != confirmPassword
    ensures |errors| <= 4
    ensures errors == [] <==>
      username != [] && email != [] && password != [] && confirmPassword != [] &&
      !UsernameInUse(users, username) && !EmailInUse(users, email) && password == confirmPassword
  {
    (if username == [] || email == [] || password == [] || confirmPassword == [] then [EmptyField] else []) +
    (if UsernameInUse(users, username) then [UsernameTaken] else []) +
    (if EmailInUse(users, email) then [EmailTaken] else []) +
    (if password != confirmPassword then [PasswordMismatch] else [])
  }

  /**
   * Nothing bounds the length of an accepted username or email: the declared widths of 64 and
   * 120 are not checked.
   */
  lemma SignupIgnoresWidth(username: string, email: string)
    requires |username| > USERNAME_WIDTH && |email| > EMAIL_WIDTH
    ensures SignupErrors([], username, email, "pw", "pw") == []
  {
  }

  // ---------------------------------------------------------------------------------------
  // Matchmaking

  /** `User.query.filter(waiting == language, id != current.id)`: who the requester can be paired with. */
  function Candidates(users: seq<User>, uid: nat, language: string): (r: set<nat>)
    ensures forall p :: p in r <==> 1 <= p <= |users| && users[p - 1].waitingLanguage == language && p != uid
  {
    set i | 0 <= i < |users| && users[i].waitingLanguage == language && i + 1 != uid :: i + 1
  }

  /** The conversations after "cancel any active conversation": the user's first active one is ended. */
  function CancelActive(convs: seq<Conversation>, uid: nat, now: int): (r: seq<Conversation>)
    ensures |r| == |convs|
    ensures ActiveConversation(convs, uid).None? ==> r == convs
    ensures ActiveConversation(convs, uid).Some? ==>
      var id := ActiveConversation(convs, uid).value;
      r[id - 1] == convs[id - 1].(active := false, endTimestamp := Some(now)) &&
      !r[id - 1].active && r[id - 1].endTimestamp == Some(now) &&
      forall i :: 0 <= i < |convs| && i != id - 1 ==> r[i] == convs[i]
  {
    match ActiveConversation(convs, uid)
    case None => convs
    case Some(id) => convs[id - 1 := Deactivated(convs[id - 1], now)]
  }

  /** Ending the active conversation keeps the tables consistent and follows the lifecycle. */
  lemma CancelActiveKeeps(users: seq<User>, convs: seq<Conversation>, uid: nat, now: int)
    requires Consistent(users, convs)
    ensures Consistent(users, CancelActive(convs, uid, now))
    ensures Evolves(convs, CancelActive(convs, uid, now))
  {
    var r := CancelActive(convs, uid, now);
    forall i | 0 <= i < |convs|
      ensures r[i].users == convs[i].users && r[i].messages == convs[i].messages
      ensures ConversationStep(convs[i], r[i])
      ensures r[i].active <==> r[i].endTimestamp.None?
    {
    }
  }

  /** A new two-member conversation of distinct existing users keeps the tables consistent. */
  lemma AddConversationKeeps(users: seq<User>, convs: seq<Conversation>, c: Conversation)
    requires Consistent(users, convs)
    requires |c.users| == 2 && c.users[0] != c.users[1] && 1 <= c.users[0] <= |users| && 1 <= c.users[1] <= |users|
    requires c.messages == [] && c.active && c.endTimestamp.None?
    ensures Consistent(users, convs + [c])
    ensures Evolves(convs, convs + [c])
  {
    var r := convs + [c];
    assert forall i :: 0 <= i < |convs| ==> r[i] == convs[i];
  }

  /** Changing what one user waits for keeps the tables consistent. */
  lemma SetWaitingKeeps(users: seq<User>, convs: seq<Conversation>, p: nat, language: string)
    requires Consistent(users, convs) && 1 <= p <= |users|
    ensures Consistent(users[p - 1 := users[p - 1].(waitingLanguage := language)], convs)
  {
    var u := users[p - 1 := users[p - 1].(waitingLanguage := language)];
    assert forall i :: 0 <= i < |users| ==> u[i].username == users[i].username;
  }

  /** The state a successful match leaves behind is consistent and follows the lifecycle. */
  lemma MatchKeeps(users: seq<User>, convs: seq<Conversation>, uid: nat, language: string, now: int, partner: nat)
    requires Consistent(users, convs) && 1 <= uid <= |users|
    requires partner in Candidates(users, uid, language)
    ensures var after := CancelActive(convs, uid, now) + [Started(language, now, [partner, uid])];
      Consistent(users[partner - 1 := users[partner - 1].(waitingLanguage := NONE_LANGUAGE)], after) &&
      Evolves(convs, after)
  {
    var cancelled := CancelActive(convs, uid, now);
    var conversation := Started(language, now, [partner, uid]);
    CancelActiveKeeps(users, convs, uid, now);
    AddConversationKeeps(users, cancelled, conversation);
    EvolvesTransitive(convs, cancelled, cancelled + [conversation]);
    SetWaitingKeeps(users, cancelled + [conversation], partner, NONE_LANGUAGE);
  }

  /** The state a request that finds nobody leaves behind is consistent and follows the lifecycle. */
  lemma WaitKeeps(users: seq<User>, convs: seq<Conversation>, uid: nat, language: string, now: int)
    requires Consistent(users, convs) && 1 <= uid <= |users|
    ensures Consistent(users[uid - 1 := users[uid - 1].(waitingLanguage := language)], CancelActive(convs, uid, now))
    ensures Evolves(convs, CancelActive(convs, uid, now))
  {
    CancelActiveKeeps(users, convs, uid, now);
    SetWaitingKeeps(users, CancelActive(convs, uid, now), uid, language);
  }

  /** The conversation `id` with `m` appended to its messages. */
  function AppendMessage(convs: seq<Conversation>, id: nat, m: Message): (r: seq<Conversation>)
    requires 1 <= id <= |convs|
    ensures |r| == |convs|
    ensures r[id - 1].messages == convs[id - 1].messages + [m]
    ensures r[id - 1].(messages := convs[id - 1].messages) == convs[id - 1]
    ensures forall i :: 0 <= i < |convs| && i != id - 1 ==> r[i] == convs[i]
  {
    convs[id - 1 := convs[id - 1].(messages := convs[id - 1].messages + [m])]
  }

  /** Appending a message by an existing user keeps the tables consistent and follows the lifecycle. */
  lemma AppendMessageKeeps(users: seq<User>, convs: seq<Conversation>, id: nat, m: Message)
    requires Consistent(users, convs) && 1 <= id <= |convs| && convs[id - 1].active
    requires 1 <= m.author <= |users|
    ensures Consistent(users, AppendMessage(convs, id, m))
    ensures Evolves(convs, AppendMessage(convs, id, m))
  {
    var after := AppendMessage(convs, id, m);
    assert KeysExist(users, after[id - 1]) by {
      assert KeysExist(users, convs[id - 1]);
    }
    assert WellFormed(after[id - 1]) by {
      assert WellFormed(convs[id - 1]);
    }
    assert forall i :: 0 <= i < |convs| && i != id - 1 ==> after[i] == convs[i];
  }

  /** Appending a message changes no user's active conversation. */
  lemma AppendMessageKeepsActive(convs: seq<Conversation>, id: nat, m: Message, uid: nat)
    requires 1 <= id <= |convs|
    ensures ActiveConversation(AppendMessage(convs, id, m), uid) == ActiveConversation(convs, uid)
  {
    ActiveDependsOnFlags(AppendMessage(convs, id, m), convs, uid);
  }

  /**
   * What `send_message` relies on when the sender has an active conversation: appending the
   * message keeps the tables consistent, follows the lifecycle, leaves the active conversation
   * where it was, touches only that row, and the room is still the one of its two members.
   */
  lemma SendKeeps(users: seq<User>, convs: seq<Conversation>, uid: nat, m: Message)
    requires 1 <= uid <= |users| && Consistent(users, convs)
    requires ActiveConversation(convs, uid).Some? && m.author == uid
    ensures var id := ActiveConversation(convs, uid).value;
      var c := convs[id - 1];
      var after := AppendMessage(convs, id, m);
      Consistent(users, after) && Evolves(convs, after) &&
      ActiveConversation(after, uid) == Some(id) &&
      after == convs[id - 1 := c.(messages := c.messages + [m])] &&
      Room(users, after, uid) == Ok(GetRoom(c.users[0], c.users[1]))
  {
    var id := ActiveConversation(convs, uid).value;
    AppendMessageKeeps(users, convs, id, m);
    AppendMessageKeepsActive(convs, id, m, uid);
    RoomOfConsistent(users, AppendMessage(convs, id, m), uid);
  }

  datatype MatchOutcome = Matched(partner: nat, conversation: nat) | Waiting

  datatype Rejection = NotInConversation

  datatype LoadOutcome = LoadRejected | CursorUnset | HistoryExhausted | CursorOutOfRange | Loaded(index: nat)

  /** What `load_message` does with the cursor, for a conversation of `n` messages. */
  function CursorOutcome(cursor: Option<int>, n: nat): (r: LoadOutcome)
    ensures r != LoadRejected
    ensures r.Loaded? <==> cursor.Some? && 0 <= cursor.value < n
    ensures r.Loaded? ==> r.index == cursor.value
  {
    match cursor
    case None => CursorUnset
    case Some(c) =>
      if c < 0 then HistoryExhausted
      else if c >= n then CursorOutOfRange
      else Loaded(c)
  }

  datatype SendOutcome = SendRejected | Sent(conversation: nat, message: Message, room: string)

  /** The application: the database, the module-global `next_message`, and the emitted events. */
  class ChatApp {
    const db: Store
    /** `next_message`; `None` until `current_conversation` first assigns it. */
    var nextMessage: Option<int>
    var outbox: seq<Event>
    /** The cursor as the last `current_conversation` set it, and the indices emitted since. */
    ghost var cursorAtReset: int
    ghost var backfilled: seq<nat>

    ghost predicate Valid()
      reads this, db
    {
      db.Valid() &&
      (nextMessage.None? ==> backfilled == []) &&
      (nextMessage.Some? ==>
        nextMessage.value == cursorAtReset - |backfilled| &&
        backfilled == BackfillIndices(cursorAtReset, |backfilled|))
    }

    constructor (db: Store)
      requires db.Valid()
      ensures Valid() && this.db == db
      ensures nextMessage == None && outbox == []
    {
      this.db := db;
      nextMessage := None;
      outbox := [];
      cursorAtReset := 0;
      backfilled := [];
    }

    /** `signup` (POST): adds exactly one user when no check fails, else nothing. */
    method Signup(username: string, email: string, password: string, confirmPassword: string, passwordHash: string)
      returns (errors: seq<SignupError>)
      requires Valid()
      modifies db`users
      ensures Valid()
      ensures errors == SignupErrors(old(db.users), username, email, password, confirmPassword)
      ensures errors != [] ==> db.users == old(db.users)
      ensures errors == [] ==> db.users == old(db.users) + [NewUser(username, email, passwordHash)]
      ensures errors == [] ==> db.users[|db.users| - 1].waitingLanguage == NONE_LANGUAGE
    {
      errors := SignupErrors(db.users, username, email, password, confirmPassword);
      if errors == [] {
        db.users := db.users + [NewUser(username, email, passwordHash)];
      }
    }

    /** "Cancel any active conversation": the requester's active conversation, if any, is ended. */
    method CancelActiveConversation(uid: nat, now: int)
      requires Valid() && 1 <= uid <= |db.users|
      modifies db`conversations
      ensures Valid()
      ensures db.conversations == CancelActive(old(db.conversations), uid, now)
      ensures Evolves(old(db.conversations), db.conversations)
    {
      CancelActiveKeeps(db.users, db.conversations, uid, now);
      var active := ActiveConversation(db.conversations, uid);
      if active.Some? {
        db.Deactivate(active.value, now);
      }
    }

    /**
     * `new_conversation` (POST): ends the requester's active conversation, then pairs the
     * requester with some other user waiting on `language`, or records the requester as waiting.
     */
    method NewConversation(uid: nat, language: string, now: int) returns (outcome: MatchOutcome)
      requires Valid() && 1 <= uid <= |db.users|
      modifies db`users, db`conversations
      ensures Valid()
      ensures Evolves(old(db.conversations), db.conversations)
      ensures outcome.Waiting? <==> Candidates(old(db.users), uid, language) == {}
      ensures outcome.Waiting? ==>
        db.users == old(db.users)[uid - 1 := old(db.users)[uid - 1].(waitingLanguage := language)] &&
        db.conversations == CancelActive(old(db.conversations), uid, now)
      ensures outcome.Matched? ==>
        outcome.partner in Candidates(old(db.users), uid, language) &&
        db.users == old(db.users)[outcome.partner - 1 := old(db.users)[outcome.partner - 1].(waitingLanguage := NONE_LANGUAGE)] &&
        db.conversations == CancelActive(old(db.conversations), uid, now) + [Started(language, now, [outcome.partner, uid])] &&
        outcome.conversation == |db.conversations|
    {
      CancelActiveConversation(uid, now);
      var users := db.users;
      var candidates := Candidates(users, uid, language);
      if candidates != {} {
        var partner :| partner in candidates;
        MatchKeeps(users, old(db.conversations), uid, language, now, partner);
        db.users := users[partner - 1 := users[partner - 1].(waitingLanguage := NONE_LANGUAGE)];
        db.conversations := db.conversations + [Started(language, now, [partner, uid])];
        outcome := Matched(partner, |db.conversations|);
      } else {
        WaitKeeps(users, old(db.conversations), uid, language, now);
        db.users := users[uid - 1 := users[uid - 1].(waitingLanguage := language)];
        outcome := Waiting;
      }
    }

    /** `next_message = start`: the cursor is reset and nothing has been backfilled since. */
    method ResetCursor(start: int)
      requires Valid()
      modifies this`nextMessage, this`cursorAtReset, this`backfilled
      ensures Valid() && nextMessage == Some(start) && backfilled == []
    {
      nextMessage, cursorAtReset, backfilled := Some(start), start, [];
    }

    /** `next_message -= 1` once the message at a non-negative cursor has been emitted. */
    method StepCursor()
      requires Valid() && nextMessage.Some? && nextMessage.value >= 0
      modifies this`nextMessage, this`backfilled
      ensures Valid()
      ensures nextMessage == Some(old(nextMessage.value) - 1)
      ensures old(nextMessage.value) !in old(backfilled) && backfilled == old(backfilled) + [old(nextMessage.value)]
    {
      BackfillStep(cursorAtReset, backfilled);
      nextMessage, backfilled := Some(nextMessage.value - 1), backfilled + [nextMessage.value as nat];
    }

    /**
     * `current_conversation`: the last 100 messages of the active conversation; resets the
     * shared cursor to the message before them.
     */
    method CurrentConversation(uid: nat) returns (r: Result<seq<Message>, Rejection>)
      requires Valid() && 1 <= uid <= |db.users|
      modifies this`nextMessage, this`cursorAtReset, this`backfilled
      ensures Valid()
      ensures r.Err? <==> ActiveConversation(db.conversations, uid).None?
      ensures r.Err? ==> nextMessage == old(nextMessage) && backfilled == old(backfilled)
      ensures r.Ok? ==>
        var msgs := db.conversations[ActiveConversation(db.conversations, uid).value - 1].messages;
        r.value == Page(msgs) && nextMessage == Some(InitialCursor(msgs)) && backfilled == []
    {
      var active := ActiveConversation(db.conversations, uid);
      if active.None? {
        return Err(NotInConversation);
      }
      var msgs := db.conversations[active.value - 1].messages;
      ResetCursor(|msgs| + LOAD_MESSAGE_COUNT - 1);
      r := Ok(Page(msgs));
    }

    /**
     * `load_message`: while the cursor is not negative, emits the message at the cursor of the
     * caller's active conversation back to the caller and moves the cursor down by one.
     */
    method LoadMessage(uid: nat, scroll: bool) returns (r: LoadOutcome)
      requires Valid() && 1 <= uid <= |db.users|
      modifies this`nextMessage, this`outbox, this`backfilled
      ensures Valid()
      ensures !r.Loaded? ==> nextMessage == old(nextMessage) && outbox == old(outbox) && backfilled == old(backfilled)
      ensures ActiveConversation(db.conversations, uid).None? ==> r == LoadRejected
      ensures ActiveConversation(db.conversations, uid).Some? ==>
        var msgs := db.conversations[ActiveConversation(db.conversations, uid).value - 1].messages;
        r == CursorOutcome(old(nextMessage), |msgs|) &&
        (r.Loaded? ==>
          outbox == old(outbox) + [ReceivePreviousMessage(uid, MessageToDict(db.users, msgs[r.index], scroll))] &&
          nextMessage == Some(r.index - 1) &&
          r.index !in old(backfilled) && backfilled == old(backfilled) + [r.index])
    {
      var active := ActiveConversation(db.conversations, uid);
      if active.None? {
        return LoadRejected;
      }
      if nextMessage.None? {
        return CursorUnset;
      }
      var cursor := nextMessage.value;
      if cursor < 0 {
        return HistoryExhausted;
      }
      var msgs := db.conversations[active.value - 1].messages;
      if cursor >= |msgs| {
        return CursorOutOfRange;
      }
      assert IdsExist(db.users, db.conversations);
      assert 1 <= msgs[cursor].author <= |db.users|;
      outbox := outbox + [ReceivePreviousMessage(uid, MessageToDict(db.users, msgs[cursor], scroll))];
      StepCursor();
      assert db.users == old(db.users) && db.conversations == old(db.conversations);
      r := Loaded(cursor);
    }

    /**
     * `send_message`: appends a new message to the active conversation and commits it, then
     * emits it to the conversation's room with `scroll` false.
     */
    method SendMessage(uid: nat, content: string, now: int) returns (r: SendOutcome)
      requires Valid() && 1 <= uid <= |db.users|
      modifies db`conversations, db`messageCount, this`outbox
      ensures Valid()
      ensures Evolves(old(db.conversations), db.conversations)
      ensures r == SendRejected <==> ActiveConversation(old(db.conversations), uid).None?
      ensures r == SendRejected ==>
        db.conversations == old(db.conversations) && db.messageCount == old(db.messageCount) && outbox == old(outbox)
      ensures r.Sent? ==>
        var id := ActiveConversation(old(db.conversations), uid).value;
        var c := old(db.conversations)[id - 1];
        r.conversation == id &&
        r.message == Message(old(db.messageCount) + 1, uid, now, content) &&
        db.messageCount == old(db.messageCount) + 1 &&
        db.conversations == old(db.conversations)[id - 1 := c.(messages := c.messages + [r.message])] &&
        r.room == GetRoom(c.users[0], c.users[1]) &&
        Room(db.users, db.conversations, uid) == Ok(r.room) &&
        outbox == old(outbox) + [ReceiveNewMessage(r.room, MessageToDict(db.users, r.message, false))]
    {
      var active := ActiveConversation(db.conversations, uid);
      if active.None? {
        return SendRejected;
      }
      var id := active.value;
      var message := Message(db.messageCount + 1, uid, now, content);
      SendKeeps(db.users, db.conversations, uid, message);
      var after := AppendMessage(db.conversations, id, message);
      var room := Room(db.users, after, uid).value;
      var event := ReceiveNewMessage(room, MessageToDict(db.users, message, false));
      Record(after, event);
      r := Sent(id, message, room);
    }

    /** The commit and the emit of `send_message`: the new rows, one more message id, one event. */
    method Record(after: seq<Conversation>, event: Event)
      requires Valid() && Consistent(db.users, after)
      modifies db`conversations, db`messageCount, this`outbox
      ensures Valid()
      ensures db.conversations == after && db.messageCount == old(db.messageCount) + 1
      ensures outbox == old(outbox) + [event]
    {
      db.conversations, db.messageCount := after, db.messageCount + 1;
      outbox := outbox + [event];
    }
  }

  const ALICE := NewUser("alice", "alice@example.org", "h1")
  const BOB := NewUser("bob", "bob@example.org", "h2")
  const CAROL := NewUser("carol", "carol@example.org", "h3")

  /** Three signups on an empty database: alice, bob and carol get ids 1, 2 and 3. */
  method SignUpThree() returns (app: ChatApp)
    ensures fresh(app) && fresh(app.db) && app.Valid()
    ensures app.db.users == [ALICE, BOB, CAROL] && app.db.conversations == []
  {
    var db := new Store();
    app := new ChatApp(db);
    var e1 := app.Signup("alice", "alice@example.org", "pw", "pw", "h1");
    assert e1 == [];
    assert db.users == [ALICE];
    var e2 := app.Signup("bob", "bob@example.org", "pw", "pw", "h2");
    assert e2 == [] by {
      assert !UsernameInUse([ALICE], "bob") && !EmailInUse([ALICE], "bob@example.org");
    }
    assert db.users == [ALICE, BOB];
    var e3 := app.Signup("carol", "carol@example.org", "pw", "pw", "h3");
    assert e3 == [] by {
      assert !UsernameInUse([ALICE, BOB], "carol") && !EmailInUse([ALICE, BOB], "carol@example.org");
    }
  }

  /** Alice asks for English and bob for Spanish; nobody else waits, so both wait. */
  method WaitTwo(app: ChatApp, now: int)
    requires app.Valid() && app.db.users == [ALICE, BOB, CAROL] && app.db.conversations == []
    modifies app.db
    ensures app.Valid() && app.db.conversations == []
    ensures app.db.users == [ALICE.(waitingLanguage := "English"), BOB.(waitingLanguage := "Spanish"), CAROL]
  {
    var users := app.db.users;
    var o1 := app.NewConversation(1, "English", now);
    assert o1.Waiting? by {
      assert forall p :: p !in Candidates(users, 1, "English");
    }
    users := users[0 := ALICE.(waitingLanguage := "English")];
    assert app.db.users == users;
    var o2 := app.NewConversation(2, "Spanish", now);
    assert o2.Waiting? by {
      assert forall p :: p !in Candidates(users, 2, "Spanish");
    }
  }

  /** Alice asks for Spanish and is paired with bob; carol asks for English and is paired with alice. */
  method MatchTwice(app: ChatApp, now: int)
    requires app.Valid() && app.db.conversations == []
    requires app.db.users == [ALICE.(waitingLanguage := "English"), BOB.(waitingLanguage := "Spanish"), CAROL]
    modifies app.db
    ensures app.Valid()
    ensures app.db.conversations ==
      [Started("Spanish", now, [2, 1]), Started("English", now, [1, 3])]
  {
    var users := app.db.users;
    assert 2 in Candidates(users, 1, "Spanish");
    var o3 := app.NewConversation(1, "Spanish", now);
    assert o3.Matched? && o3.partner == 2;
    users := users[1 := BOB];
    var spanish := Started("Spanish", now, [2, 1]);
    assert app.db.users == users && app.db.conversations == [spanish];
    assert ActiveConversation([spanish], 3) == None;
    assert 1 in Candidates(users, 3, "English");
    var o4 := app.NewConversation(3, "English", now);
    assert o4.Matched? && o4.partner == 1;
  }

  /**
   * A requester who is matched keeps the language they were waiting for, so a later request in
   * that language pairs them again: alice waits for English, bob for Spanish; alice asks for
   * Spanish and is matched with bob; carol asks for English and is matched with alice. Alice is
   * then a member of two active conversations.
   */
  method DoubleActiveScenario(now: int) returns (app: ChatApp)
    ensures fresh(app) && app.Valid()
    ensures |app.db.conversations| == 2
    ensures ActiveFor(app.db.conversations[0], 1) && ActiveFor(app.db.conversations[1], 1)
  {
    app := SignUpThree();
    WaitTwo(app, now);
    MatchTwice(app, now);
  }
}
