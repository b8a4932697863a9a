/** The helper `other_conversation_member`: the partner of a user in their active conversation. */
module Globals {
  import opened Wrappers
  import opened Models

  /** An exception raised inside a handler; the handler then stops where it was. */
  datatype PyError = IndexError | AttributeError | TypeError

  /** Every one of `members` is called `name`. */
  predicate AllNamed(users: seq<User>, members: seq<nat>, name: string)
    requires MembersExist(users, members)
  {
    forall k :: 0 <= k < |members| ==> users[members[k] - 1].username == name
  }

  /** `o` is the first of `members` not called `name`. */
  predicate FirstOther(users: seq<User>, members: seq<nat>, name: string, o: nat)
    requires MembersExist(users, members)
  {
    exists k :: 0 <= k < |members| && members[k] == o && users[o - 1].username != name &&
      AllNamed(users, members[..k], name)
  }

  /** The users of `members`, in link order, whose username differs from `name` (the list comprehension). */
  function OthersByName(users: seq<User>, members: seq<nat>, name: string): (r: seq<nat>)
    requires MembersExist(users, members)
    ensures forall x :: x in r ==> x in members && users[x - 1].username != name
    ensures r == [] <==> AllNamed(users, members, name)
    ensures r != [] ==> FirstOther(users, members, name, r[0])
  {
    if members == [] then []
    else
      var rest := OthersByName(users, members[1..], name);
      if users[members[0] - 1].username != name then
        assert members[..0] == [];
        [members[0]] + rest
      else
        if rest != [] then
          FirstOtherBehindNamed(users, members, name, rest[0]);
          rest
        else
          assert forall k :: 1 <= k < |members| ==> members[k] == members[1..][k - 1];
          rest
  }

  /** A first other of the tail is the first other of the whole list when the head is called `name`. */
  lemma FirstOtherBehindNamed(users: seq<User>, members: seq<nat>, name: string, o: nat)
    requires MembersExist(users, members) && members != []
    requires users[members[0] - 1].username == name
    requires FirstOther(users, members[1..], name, o)
    ensures FirstOther(users, members, name, o)
  {
    var k :| 0 <= k < |members[1..]| && members[1..][k] == o && users[o - 1].username != name &&
      AllNamed(users, members[1..][..k], name);
    assert members[..k + 1] == [members[0]] + members[1..][..k];
    assert members[k + 1] == o;
  }

  /**
   * `other_conversation_member` for the current user `uid`: `Ok(None)` when the user has no
   * active conversation, the first member of that conversation whose username differs from the
   * user's own, or `Err(IndexError)` when there is none (indexing an empty list).
   */
  function OtherConversationMember(users: seq<User>, convs: seq<Conversation>, uid: nat): (r: Result<Option<nat>, PyError>)
    requires 1 <= uid <= |users| && IdsExist(users, convs)
    ensures ActiveConversation(convs, uid).None? <==> r == Ok(None)
    ensures r.Err? ==> r.error == IndexError
    ensures ActiveConversation(convs, uid).Some? ==>
      (var c := convs[ActiveConversation(convs, uid).value - 1];
       MembersExist(users, c.users) &&
       (r.Err? <==> AllNamed(users, c.users, users[uid - 1].username)) &&
       (r.Ok? ==> r.value.Some? && r.value.value in c.users &&
                  FirstOther(users, c.users, users[uid - 1].username, r.value.value)))
  {
    match ActiveConversation(convs, uid)
    case None => Ok(None)
    case Some(id) =>
      var c := convs[id - 1];
      assert KeysExist(users, c);
      var others := OthersByName(users, c.users, users[uid - 1].username);
      if others == [] then Err(IndexError) else Ok(Some(others[0]))
  }

  /** What `Consistent` says about one conversation. */
  lemma ConsistentConversation(users: seq<User>, convs: seq<Conversation>, i: nat)
    requires Consistent(users, convs) && i < |convs|
    ensures |convs[i].users| == 2 && convs[i].users[0] != convs[i].users[1]
    ensures MembersExist(users, convs[i].users)
  {
    assert WellFormed(convs[i]) && KeysExist(users, convs[i]);
  }

  /** What `Consistent` says about two distinct users. */
  lemma ConsistentNames(users: seq<User>, convs: seq<Conversation>, a: nat, b: nat)
    requires Consistent(users, convs) && 1 <= a <= |users| && 1 <= b <= |users| && a != b
    ensures users[a - 1].username != users[b - 1].username
  {
    assert UniqueUsernames(users);
    if a < b {
      assert users[a - 1].username != users[b - 1].username;
    } else {
      assert users[b - 1].username != users[a - 1].username;
    }
  }

  /** The helper on a two-member conversation whose members have different usernames. */
  lemma {:induction false} OtherMemberOfPair(users: seq<User>, convs: seq<Conversation>, uid: nat, id: nat)
    requires 1 <= uid <= |users| && IdsExist(users, convs)
    requires ActiveConversation(convs, uid) == Some(id)
    requires |convs[id - 1].users| == 2
    requires users[convs[id - 1].users[0] - 1].username != users[convs[id - 1].users[1] - 1].username
    ensures var c := convs[ActiveConversation(convs, uid).value - 1];
      var r := OtherConversationMember(users, convs, uid);
      r.Ok? && r.value.Some? && r.value.value != uid && {uid, r.value.value} == {c.users[0], c.users[1]}
  {
    var c := convs[id - 1];
    assert KeysExist(users, c);
    assert uid in c.users;
    var k := if c.users[0] == uid then 1 else 0;
    assert users[c.users[k] - 1].username != users[uid - 1].username;
    assert !AllNamed(users, c.users, users[uid - 1].username);
    var r := OtherConversationMember(users, convs, uid);
    var o := r.value.value;
    assert o in c.users && users[o - 1].username != users[uid - 1].username;
    assert o == c.users[k];
  }

  /**
   * On consistent tables the helper never fails for a user with an active conversation: it
   * returns the other one of the two members.
   */
  lemma OtherMemberOfConsistent(users: seq<User>, convs: seq<Conversation>, uid: nat)
    requires 1 <= uid <= |users| && Consistent(users, convs)
    requires ActiveConversation(convs, uid).Some?
    ensures var c := convs[ActiveConversation(convs, uid).value - 1];
      var r := OtherConversationMember(users, convs, uid);
      r.Ok? && r.value.Some? && r.value.value != uid && {uid, r.value.value} == {c.users[0], c.users[1]}
  {
    var id := ActiveConversation(convs, uid).value;
    var c := convs[id - 1];
    ConsistentConversation(users, convs, id - 1);
    ConsistentNames(users, convs, c.users[0], c.users[1]);
    OtherMemberOfPair(users, convs, uid, id);
  }
}
