# language-chat: a Dafny model of the chat server's core

This project models the server side of *language-chat*, a Flask application that pairs
users who want to practise the same language. The model covers:

- **matchmaking**: a user asks for a language and is either paired with someone waiting for it
  or recorded as waiting;
- **the conversation lifecycle**: a conversation is active, then ended;
- **the per-pair socket room**;
- **the message history**: the page of the last 100 messages, plus a backfill cursor that
  emits older messages one at a time;
- **sending a message**;
- **the boundary checks**: the "in a conversation" guard, 404/403 on viewing a conversation,
  and signup validation;
- **the helper that finds the other member of a conversation**.

The code is in four modules:

- `Wrappers` (`wrappers.dfy`): `Option` and `Result`.
- `Models` (`models.dfy`):
  - the rows of the `user`, `conversation` and `message` tables, the `Languages` enumeration,
    and `User.active_conversation`;
  - the `Store` class, which holds the tables and has the in-place `Conversation.deactivate`;
  - the predicates the tables satisfy between requests. `Consistent` covers foreign keys,
    unique usernames, and two distinct members per conversation. `Evolves` says members are
    fixed, messages are only appended, and an ended conversation never changes.
- `Globals` (`globals.dfy`): `other_conversation_member`.
- `Routes` (`routes.dfy`):
  - the handlers, as methods of the `ChatApp` class. Its state is the database, the
    module-global cursor `next_message`, and an outbox of emitted socket events;
  - the pure parts as functions: the room string, the history page, the 404/403 check, the
    past-conversation list, signup validation, and `message_to_dict`.

How the source is represented:

- **Tables** are sequences in primary-key order; the row with id `k` sits at position `k - 1`.
- **Timestamps** are abstract integers, and the current time is a parameter.
- **The password hash** is a parameter, because hashing is a foreign call.
- **The current user** is a given user id, because authentication is not modelled.
- **Emitted events** are appended to the outbox, so their order can be stated.
- **Python exceptions** (`IndexError`, `AttributeError`, `TypeError`) are error values.

The model follows the code as written, including where it departs from the application's evident design:

- **The cursor is process-wide.** `next_message` is one module-global variable, so it is one
  field of the application, shared by every user. Before any `current_conversation` it is
  unbound, and `load_message` then fails on the unbound name (the outcome `CursorUnset`). If the caller's
  conversation is shorter than the cursor, indexing raises `IndexError` (`CursorOutOfRange`).
- **A user can be in two active conversations.** On a match only the partner's waiting
  language is cleared; the requester keeps theirs. `DoubleActiveScenario` builds such a state,
  so "at most one active conversation per user" is not an invariant of the model.
- **Partner choice is not FIFO.** The partner query has no ORDER BY, so the model promises only
  *some* user waiting for that language. `User.active_conversation` has no ORDER BY either; the
  model takes the lowest id and promises only an active conversation of the user with none
  before it.
- **The scroll flag comes from the client.** `load_message` copies `data["scroll"]` into the
  event rather than always sending `true`.
- **The first backfill index is 49, not 50.** For a conversation of 150 messages, the first
  backfill emits the message at index 49 (0-based): the cursor starts at `150 - 100 - 1`
  (`Backfill150`).
- **The language is not checked.** It is any form string, including `"NONE"`. No route checks
  the declared column widths, and the default SQLite database does not enforce them.

## Model

| member | source | states |
|---|---|---|
| `Models.LanguagesUnique` | app/models.py:76-81 | the four `Languages` members have pairwise distinct values and names, every member sits at its value's position, and `NONE` is the sentinel string `"NONE"` |
| `Models.NewConversationActive` | app/models.py:45-47 | a conversation created for two distinct users is well formed, active with no end timestamp and no messages, starts now, has the requested language, and is an active conversation of both |
| `Models.ActiveConversation` | app/models.py:35-36 | the result is a conversation that is active and has the user as a member, with no such conversation before it; the result is none exactly when the user has no active conversation |
| `Models.ActiveDependsOnFlags` | app/models.py:35-36 | two tables that agree on which conversations are active for a user give the same active conversation |
| `Models.Store.constructor` | app/models.py:83 | a fresh database: empty tables that satisfy the invariant |
| `Models.NewUser` | app/models.py:24 | a new user row has the given username, email and hash, and waits for no language (`"NONE"`) |
| `Models.Started` | app/models.py:45-47 | a new conversation is active, has no end timestamp and no messages, starts now, and has the given language and members |
| `Models.Deactivated` | app/models.py:53-55 | the ended conversation is inactive with end timestamp now, and differs from the original in those two fields only |
| `Models.Store.Deactivate` | app/models.py:53-55 | `deactivate` sets `active` to false and the end timestamp to now, changes no other field and no other conversation, and keeps the invariant |
| `Models.DeactivateOnlyActive` | app/models.py:35-55 | after a user's only active conversation is deactivated, `active_conversation` returns none |
| `Models.EvolvesTransitive` | app/models.py:45-55 | the lifecycle (members fixed, messages only appended, ended stays ended) composes over any sequence of requests |
| `Globals.OthersByName` | app/globals.py:16 | the comprehension keeps only members whose username differs from the user's; it is empty exactly when all members share the user's name, and otherwise its head is the first such member in link order |
| `Globals.OtherConversationMember` | app/globals.py:13-18 | none when the user has no active conversation; otherwise the first member of that conversation, in link order, whose username differs from the user's; `IndexError` exactly when there is no such member |
| `Globals.OtherMemberOfPair` | app/globals.py:15-16 | in a two-member conversation whose members have different usernames, the helper returns the member other than the user |
| `Globals.OtherMemberOfConsistent` | app/globals.py:13-18 | on consistent tables, the helper never fails for a user in a conversation, and the user and the result are exactly the two members |
| `Globals.ConsistentNames` | app/models.py:21 | under the `unique` username constraint, distinct user ids have distinct usernames |
| `Routes.IdString` | app/routes.py:267 | the rendering of an id is a non-empty digit string that spells the id in decimal, with no leading zero |
| `Routes.IdStringInjective` | app/routes.py:267 | distinct ids have distinct decimal strings |
| `Routes.GetRoomParses` | app/routes.py:267 | reading a room back, the digits before its first dash spell the smaller id and the digits after it the larger one |
| `Routes.Room` | app/routes.py:264-267 | `AttributeError` exactly when the user has no active conversation; otherwise the room exactly when the helper finds a partner, and then it is the room of the user and that partner; the helper's `IndexError` passes through |
| `Routes.RoomAsWritten` | app/routes.py:266 | the call as written fails with `TypeError`, whatever the state |
| `Routes.MessageToDict` | app/routes.py:256-262 | the record carries the author's username, the message's timestamp and content, and the given scroll flag |
| `Routes.MessageToDictNamesAuthor` | app/routes.py:256-262 | under the `unique` username constraint, two records with the same username come from the same author |
| `Routes.RoomSymmetric` | app/routes.py:264-267 | the room of two ids does not depend on their order |
| `Routes.RoomInjective` | app/routes.py:264-267 | two pairs of ids share a room string exactly when they are the same unordered pair |
| `Routes.RoomOfConsistent` | app/routes.py:264-267 | on consistent tables, whichever member of a conversation asks, the room is "min-max" of the conversation's two member ids |
| `Routes.RoomAsWrittenFails` | app/routes.py:264-267 | `get_room` as written raises `TypeError` on every call, where the intended call gives the pair's room |
| `Routes.Page` | app/routes.py:218 | the page holds the last `min(100, len)` messages, in order |
| `Routes.InitialCursor` | app/routes.py:216 | the cursor is below the length of the history, and non-negative exactly when there are more than 100 messages |
| `Routes.CursorBeforePage` | app/routes.py:213-218 | the initial cursor is the index just before the page, and it is non-negative exactly when the page does not show the whole history |
| `Routes.BackfillShape` | app/routes.py:229-238 | successive loads emit `cursor, cursor - 1, ...` down to 0 and then stop, so the indices strictly decrease and none repeats |
| `Routes.BackfillStep` | app/routes.py:232-238 | one more load emits an index not emitted since the reset, and the record of emitted indices stays in step with the backfill sequence |
| `Routes.BackfillAfterPage` | app/routes.py:211-238 | after a page is shown, `k` loads emit, newest first, the `min(k, len - 100)` messages just before it |
| `Routes.Backfill150` | app/routes.py:211-238 | with 150 messages, the page is messages 50 to 149, fifty loads emit indices 49 down to 0, and the fifty-first emits nothing |
| `Routes.ViewConversation` | app/routes.py:197-204 | 404 exactly for an unknown id, 403 exactly for a known id the viewer is not a member of, and otherwise that conversation's messages |
| `Routes.PastUpTo` | app/routes.py:190 | among the first `n` conversations, lists exactly the user's ended ones, latest first |
| `Routes.PastConversations` | app/routes.py:188-192 | lists exactly the user's ended conversations, each once, latest first |
| `Routes.PastConversationsViewable` | app/routes.py:185-204 | every conversation on the user's past list opens without 404 or 403 |
| `Routes.ActiveIsNotPast` | app/routes.py:190 | the user's active conversation is never on their past list |
| `Routes.SignupErrors` | app/routes.py:99-113 | every check runs; each error is reported exactly when its condition holds (an empty field, a taken username, a taken email, different passwords); the form is accepted exactly when none holds |
| `Routes.SignupIgnoresWidth` | app/models.py:21-22 | a username longer than the declared 64 characters and an email longer than the declared 120 are accepted |
| `Routes.Candidates` | app/routes.py:168 | a candidate is exactly an existing user, other than the requester, who is waiting for the requested language |
| `Routes.CancelActive` | app/routes.py:161-163 | with no active conversation nothing changes; otherwise exactly the user's active conversation is ended, now: only its `active` flag and end timestamp change, and no other row changes |
| `Routes.CancelActiveKeeps` | app/routes.py:161-163 | ending the active conversation keeps the tables consistent and follows the lifecycle |
| `Routes.MatchKeeps` | app/routes.py:169-177 | clearing the partner's wait and adding the new conversation keeps the tables consistent and follows the lifecycle |
| `Routes.WaitKeeps` | app/routes.py:179-182 | recording the requester as waiting keeps the tables consistent and follows the lifecycle |
| `Routes.AppendMessage` | app/routes.py:246 | the message is appended to the end of that conversation's messages; no other field and no other conversation changes |
| `Routes.SendKeeps` | app/routes.py:244-248 | for a user with an active conversation, the append keeps the tables consistent, follows the lifecycle, leaves the active conversation where it was, and the room is still that of the two members |
| `Routes.AppendMessageKeeps` | app/routes.py:244-247 | appending a message by an existing user to an active conversation keeps the tables consistent and follows the lifecycle |
| `Routes.AppendMessageKeepsActive` | app/routes.py:246 | appending a message changes no user's active conversation |
| `Routes.CursorOutcome` | app/routes.py:230-235 | a message is loaded exactly when the cursor is bound and indexes the conversation, and then it is the message at the cursor |
| `Routes.ChatApp.constructor` | app/routes.py:215-216 | the application starts with the cursor unbound and nothing emitted |
| `Routes.ChatApp.Signup` | app/routes.py:90-118 | with any error no user is added; otherwise exactly one user is added, with waiting language `"NONE"` |
| `Routes.ChatApp.CancelActiveConversation` | app/routes.py:161-163 | the requester's active conversation, if any, is ended, and nothing else changes |
| `Routes.ChatApp.NewConversation` | app/routes.py:157-183 | the requester's active conversation is ended first. The requester waits exactly when nobody else waits for the language, and then their waiting language is the requested one and no conversation is added. Otherwise the partner is waiting for that language and is not the requester; the partner's wait is cleared; exactly one active conversation in that language is added, with members partner and requester. The invariant and the lifecycle are kept |
| `Routes.ChatApp.ResetCursor` | app/routes.py:215-216 | the cursor is set, and no message has been backfilled since |
| `Routes.ChatApp.StepCursor` | app/routes.py:238 | the cursor moves down by one, and the index left behind is recorded as emitted for the first time |
| `Routes.ChatApp.CurrentConversation` | app/routes.py:207-218 | refused without an active conversation and nothing changes; otherwise it returns the last 100 messages and sets the cursor to `len - 101` |
| `Routes.ChatApp.LoadMessage` | app/routes.py:226-238 | refused without an active conversation. It loads exactly when the cursor is bound and within the conversation; then it emits the message at the cursor to the caller with the client's scroll flag, decrements the cursor, and that index was not emitted since the last reset. In every other case nothing changes |
| `Routes.ChatApp.SendMessage` | app/routes.py:240-248 | refused without an active conversation and nothing changes. Otherwise the next message id, by the user, stamped now, is appended to the active conversation, and nothing else changes. After the append the room is the pair's room, and one event carrying the author's username, the content and scroll false is emitted to it |
| `Routes.SignUpThree` | app/routes.py:90-118 | three signups with fresh names on an empty database add users 1, 2 and 3 |
| `Routes.WaitTwo` | app/routes.py:179-183 | two requests for different languages with nobody waiting leave both users waiting |
| `Routes.MatchTwice` | app/routes.py:168-178 | alice, still waiting for English after being matched in Spanish, is paired again by carol's English request |
| `Routes.DoubleActiveScenario` | app/routes.py:157-183 | a reachable state in which one user is a member of two active conversations |

## Findings

| source | as written | input that shows it | evidently intended | confidence | as-written member | corrected member |
|---|---|---|---|---|---|---|
| app/routes.py:266 | `get_room` calls `other_conversation_member(current_user.active_conversation())`, but the helper at app/globals.py:13 takes no parameters, so every call raises `TypeError`; `send_message` then fails after its commit, and `connect` never joins a room | any user with an active conversation who sends a message | call the helper without arguments: the other member of the caller's active conversation | high (not executed) | `Routes.RoomAsWrittenFails` | `Routes.RoomOfConsistent` |

`Routes.RoomAsWritten` is the code as written. `Routes.Room` is the corrected call, and the
handlers use it.

## Left out

- Flask and Jinja rendering, flash messages, redirects, page titles and the cache-control
  header: presentation only. Handlers return outcome values instead.
- `index`, `login`, `logout` and `settings`: these routes are outside the modelled core.
- Authentication and `require_authentication`: the current user is a given, existing user id.
- Password hashing (`set_password`, `check_password`): a foreign library call. The hash is a
  parameter of `Signup`.
- Form fields missing from the request (`KeyError` on `request.form[...]`) are not modelled.
  Every field is a given string.
- SQLAlchemy sessions, commits and rollbacks: each request is one state update.
- SocketIO delivery, `connect` and `join_room`: emits are appended to the outbox, and the room
  is a string in the event. No fan-out to connections is modelled.
- `format_datetime` and `utc_to_local`: a timestamp stays an abstract integer, and the clock
  is a parameter.
- The browser script and the application wiring: they are not part of this model.
- Concurrency: the model is sequential. This is also why the single shared cursor is only a
  field here.
- Routes.ChatApp.NewConversation: the partner is some candidate, not the first one in an
  unspecified database order.
- Models.ActiveConversation: the lowest id stands in for `.first()` over an unordered query.
- The declared column widths are 64 for usernames, 120 for emails, 32 for languages and 500
  for message content. No route checks them, and the default SQLite database does not enforce
  them; the model does not enforce them either, so `Signup`, `NewConversation` and `SendMessage`
  accept values of any length. `app/config.py:5` takes the database from `DATABASE_URL` when it
  is set. A backend such as PostgreSQL then rejects an over-long value at commit, and that
  failure is not modelled.
- Routes.Page: the history is taken in insertion order (by message id). The `messages`
  relationship (`app/models.py:51`) has no ORDER BY, so the database's order is assumed; the
  backfill indices rest on the same assumption.
- Routes.PastConversations: the user's conversations are taken in ascending id before they are
  reversed (`app/routes.py:190`). That query has no ORDER BY either.
- Globals.OtherConversationMember: the members of a conversation are taken in link order (the
  order of `app/models.py:50`, which has no ORDER BY). On consistent tables the result is the
  other member whatever the order (`Globals.OtherMemberOfConsistent`).
- The conversation id in the view URL is a string; the model takes the integer id it denotes.
