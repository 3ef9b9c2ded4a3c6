/** `Query.getUsers`: every user except the caller, each with the most
    recent message exchanged between the caller and that user. The two
    `findAll` queries become filters over the tables, and the
    `ORDER BY createdAt DESC` a stable sort. */
module UserDirectory {
  import opened Records

  /** One element of the `getUsers` answer: the three projected columns of
      the user plus the attached `latestMessage`. */
  datatype DirectoryEntry = DirectoryEntry(
    username: string, imageUrl: string, createdAt: Timestamp, latestMessage: Option<Message>)

  predicate Involves(m: Message, name: string) {
    m.from == name || m.to == name
  }

  /** `User.findAll({ where: { username: { [Op.ne]: caller } } })`. */
  function OtherUsers(users: seq<User>, caller: string): (r: seq<User>)
    ensures |r| <= |users|
  {
    if users == [] then []
    else (if users[0].username != caller then [users[0]] else []) + OtherUsers(users[1..], caller)
  }

  /** Each row whose username differs from the caller's is kept with its
      multiplicity; every row of the caller is dropped. */
  lemma {:induction false} OtherUsersCount(users: seq<User>, caller: string)
    ensures forall u :: multiset(OtherUsers(users, caller))[u] ==
                        if u.username == caller then 0 else multiset(users)[u]
  {
    if users != [] {
      OtherUsersCount(users[1..], caller);
      assert users == [users[0]] + users[1..];
    }
  }

  /** The filter keeps table order: it distributes over concatenation. */
  lemma {:induction false} OtherUsersAppend(a: seq<User>, b: seq<User>, caller: string)
    ensures OtherUsers(a + b, caller) == OtherUsers(a, caller) + OtherUsers(b, caller)
  {
    if a == [] {
      assert a + b == b;
    } else {
      var ab := a + b;
      assert ab[0] == a[0] && ab[1..] == a[1..] + b;
      OtherUsersAppend(a[1..], b, caller);
      var head := if a[0].username != caller then [a[0]] else [];
      assert OtherUsers(ab, caller) == head + OtherUsers(a[1..] + b, caller);
      assert OtherUsers(a, caller) == head + OtherUsers(a[1..], caller);
    }
  }

  /** `Message.findAll({ where: { [Op.or]: [{ from: caller }, { to: caller }] } })`
      before ordering: the messages the caller sent or received. */
  function CallerMessages(messages: seq<Message>, caller: string): (r: seq<Message>)
    ensures |r| <= |messages|
  {
    if messages == [] then []
    else (if Involves(messages[0], caller) then [messages[0]] else []) + CallerMessages(messages[1..], caller)
  }

  /** Each message the caller sent or received is kept with its multiplicity;
      every other message is dropped. */
  lemma {:induction false} CallerMessagesCount(messages: seq<Message>, caller: string)
    ensures forall m :: multiset(CallerMessages(messages, caller))[m] ==
                        if Involves(m, caller) then multiset(messages)[m] else 0
  {
    if messages != [] {
      CallerMessagesCount(messages[1..], caller);
      assert messages == [messages[0]] + messages[1..];
    }
  }

  predicate NewestFirst(s: seq<Message>) {
    forall i, j :: 0 <= i < j < |s| ==> s[i].createdAt >= s[j].createdAt
  }

  /** Places `m` in front of the first message that is not newer than `m`,
      so that among equal timestamps `m`, the earlier input, stays first. */
  function InsertNewestFirst(m: Message, sorted: seq<Message>): (r: seq<Message>)
    ensures |r| == |sorted| + 1
  {
    if sorted == [] || m.createdAt >= sorted[0].createdAt then [m] + sorted
    else [sorted[0]] + InsertNewestFirst(m, sorted[1..])
  }

  /** `order: [['createdAt', 'DESC']]`, as an insertion sort. */
  function SortNewestFirst(s: seq<Message>): (r: seq<Message>)
    ensures |r| == |s|
  {
    if s == [] then [] else InsertNewestFirst(s[0], SortNewestFirst(s[1..]))
  }

  /** Inserting into a newest-first list keeps it newest-first and adds
      exactly `m`. */
  lemma {:induction false} InsertNewestFirstSpec(m: Message, sorted: seq<Message>)
    requires NewestFirst(sorted)
    ensures var r := InsertNewestFirst(m, sorted);
      && NewestFirst(r)
      && multiset(r) == multiset(sorted) + multiset{m}
      && |r| == |sorted| + 1
      && (r[0] == m || (sorted != [] && r[0] == sorted[0]))
  {
    if sorted == [] || m.createdAt >= sorted[0].createdAt {
      ConsNewestFirst(m, sorted);
    } else {
      var tail := sorted[1..];
      assert sorted == [sorted[0]] + tail;
      InsertNewestFirstSpec(m, tail);
      ConsNewestFirst(sorted[0], InsertNewestFirst(m, tail));
    }
  }

  /** A message no older than the head of a newest-first list can go in front. */
  lemma ConsNewestFirst(x: Message, s: seq<Message>)
    requires NewestFirst(s)
    requires s == [] || x.createdAt >= s[0].createdAt
    ensures NewestFirst([x] + s)
  {
    var r := [x] + s;
    forall i, j | 0 <= i < j < |r| ensures r[i].createdAt >= r[j].createdAt {
      assert r[j] == s[j - 1];
      if i > 0 { assert r[i] == s[i - 1]; } else if j > 1 { assert s[0].createdAt >= s[j - 1].createdAt; }
    }
  }

  /** The ordered list is a permutation of the input, newest first. */
  lemma {:induction false} SortNewestFirstSpec(s: seq<Message>)
    ensures NewestFirst(SortNewestFirst(s))
    ensures multiset(SortNewestFirst(s)) == multiset(s)
  {
    if s != [] {
      var rest := SortNewestFirst(s[1..]);
      SortNewestFirstSpec(s[1..]);
      InsertNewestFirstSpec(s[0], rest);
      assert SortNewestFirst(s) == InsertNewestFirst(s[0], rest);
      assert multiset(s) == multiset(s[1..]) + multiset{s[0]} by {
        assert s == [s[0]] + s[1..];
      }
    }
  }

  /** The messages with timestamp `t`, in list order. */
  function AtTime(s: seq<Message>, t: Timestamp): seq<Message> {
    if s == [] then [] else (if s[0].createdAt == t then [s[0]] else []) + AtTime(s[1..], t)
  }

  /** Inserting `m` puts it before every message with the same timestamp and
      leaves the order of the others alone. */
  lemma {:induction false} InsertNewestFirstAtTime(m: Message, sorted: seq<Message>, t: Timestamp)
    ensures AtTime(InsertNewestFirst(m, sorted), t) ==
            (if m.createdAt == t then [m] else []) + AtTime(sorted, t)
  {
    var own := if m.createdAt == t then [m] else [];
    if sorted == [] || m.createdAt >= sorted[0].createdAt {
      var r := [m] + sorted;
      assert r[0] == m && r[1..] == sorted;
      assert AtTime(r, t) == own + AtTime(sorted, t);
    } else {
      var x, rest := sorted[0], sorted[1..];
      var inserted := InsertNewestFirst(m, rest);
      InsertNewestFirstAtTime(m, rest, t);
      var r := [x] + inserted;
      assert r[0] == x && r[1..] == inserted;
      var head := if x.createdAt == t then [x] else [];
      assert AtTime(r, t) == head + (own + AtTime(rest, t));
      assert AtTime(sorted, t) == head + AtTime(rest, t);
      assert own == [] || head == [];
    }
  }

  /** The sort is stable: the messages of any one timestamp come out in the
      order they had in the table. */
  lemma {:induction false} SortNewestFirstStable(s: seq<Message>, t: Timestamp)
    ensures AtTime(SortNewestFirst(s), t) == AtTime(s, t)
  {
    if s != [] {
      SortNewestFirstStable(s[1..], t);
      InsertNewestFirstAtTime(s[0], SortNewestFirst(s[1..]), t);
    }
  }

  /** The position `find` stops at: the first message involving `name`, or
      the length of the list when there is none. */
  function FirstInvolvingIndex(messages: seq<Message>, name: string): (k: nat)
    ensures k <= |messages|
    ensures k < |messages| ==> Involves(messages[k], name)
    ensures forall j :: 0 <= j < k ==> !Involves(messages[j], name)
  {
    if messages == [] || Involves(messages[0], name) then 0
    else 1 + FirstInvolvingIndex(messages[1..], name)
  }

  /** `messages.find(m => m.from === name || m.to === name)`. */
  function FirstInvolving(messages: seq<Message>, name: string): (r: Option<Message>)
    ensures r.None? <==> forall i :: 0 <= i < |messages| ==> !Involves(messages[i], name)
    ensures r.Some? ==> exists i ::
      && 0 <= i < |messages| && messages[i] == r.value && Involves(r.value, name)
      && forall j :: 0 <= j < i ==> !Involves(messages[j], name)
  {
    var k := FirstInvolvingIndex(messages, name);
    if k < |messages| then Some(messages[k]) else None
  }

  /** On a newest-first list, the first message involving `name` is one of
      the most recent messages involving `name`. */
  lemma FirstInvolvingIsNewest(messages: seq<Message>, name: string)
    requires NewestFirst(messages)
    requires FirstInvolving(messages, name).Some?
    ensures forall k :: 0 <= k < |messages| && Involves(messages[k], name) ==>
      messages[k].createdAt <= FirstInvolving(messages, name).value.createdAt
  {
  }

  /** The body of the `users.map` callback: the projected user plus the
      first matching message. */
  function Entry(u: User, mine: seq<Message>): (r: DirectoryEntry)
    ensures r.latestMessage.None? <==> forall j :: 0 <= j < |mine| ==> !Involves(mine[j], u.username)
    ensures r.latestMessage.Some? ==> r.latestMessage.value in mine && Involves(r.latestMessage.value, u.username)
  {
    DirectoryEntry(u.username, u.imageUrl, u.createdAt, FirstInvolving(mine, u.username))
  }

  /** `Query.getUsers(_, __, { user })`. */
  function GetUsers(identity: Option<Identity>, users: seq<User>, messages: seq<Message>)
    : (r: Result<seq<DirectoryEntry>>)
    ensures identity.None? <==> r.Failure?
    ensures identity.None? ==> r == Failure(AuthenticationError("Unauthenticated"))
    ensures identity.Some? ==>
      var caller := identity.value.username;
      var others := OtherUsers(users, caller);
      && |r.value| == |others|
      && forall i :: 0 <= i < |others| ==>
        && r.value[i].username == others[i].username
        && r.value[i].imageUrl == others[i].imageUrl
        && r.value[i].createdAt == others[i].createdAt
  {
    match identity
    case None => Failure(AuthenticationError("Unauthenticated"))
    case Some(user) =>
      var others := OtherUsers(users, user.username);
      var mine := SortNewestFirst(CallerMessages(messages, user.username));
      Success(seq(|others|, i requires 0 <= i < |others| => Entry(others[i], mine)))
  }

  /** What `latestMessage` means: it is absent exactly when the caller and
      that user never exchanged a message; when present it is one of their
      messages, and no message between the two is more recent. */
  lemma LatestMessageIsMostRecent(identity: Identity, users: seq<User>, messages: seq<Message>, i: nat)
    requires i < |OtherUsers(users, identity.username)|
    ensures var r := GetUsers(Some(identity), users, messages);
      var caller := identity.username;
      var other := OtherUsers(users, caller)[i].username;
      var latest := r.value[i].latestMessage;
      && (latest.None? <==> forall m :: m in messages ==> !(Involves(m, caller) && Involves(m, other)))
      && (latest.Some? ==>
        && latest.value in messages
        && Involves(latest.value, caller) && Involves(latest.value, other)
        && forall m :: m in messages && Involves(m, caller) && Involves(m, other) ==>
             m.createdAt <= latest.value.createdAt)
  {
    var caller := identity.username;
    var other := OtherUsers(users, caller)[i].username;
    var mine := SortNewestFirst(CallerMessages(messages, caller));
    var latest := FirstInvolving(mine, other);
    assert GetUsers(Some(identity), users, messages).value[i].latestMessage == latest;
    CallerMessagesSorted(messages, caller);
    SortNewestFirstSpec(CallerMessages(messages, caller));
    if latest.Some? {
      FirstInvolvingIsNewest(mine, other);
      forall m | m in messages && Involves(m, caller) && Involves(m, other)
        ensures m.createdAt <= latest.value.createdAt
      {
        var k :| 0 <= k < |mine| && mine[k] == m;
      }
    } else {
      forall m | m in messages && Involves(m, caller) ensures !Involves(m, other) {
        var k :| 0 <= k < |mine| && mine[k] == m;
      }
    }
  }

  /** The ordered message list holds exactly the table's messages that
      involve the caller. */
  lemma CallerMessagesSorted(messages: seq<Message>, caller: string)
    ensures forall m :: m in SortNewestFirst(CallerMessages(messages, caller)) <==>
      m in messages && Involves(m, caller)
  {
    var mine := SortNewestFirst(CallerMessages(messages, caller));
    CallerMessagesCount(messages, caller);
    SortNewestFirstSpec(CallerMessages(messages, caller));
    forall m ensures m in mine <==> m in messages && Involves(m, caller) {
      assert m in mine <==> multiset(mine)[m] > 0;
      assert m in messages <==> multiset(messages)[m] > 0;
    }
  }

  // The scenario of caller U0 and users U1, U2, U3, with messages U1→U0 at
  // time 1, U0→U2 at time 2 and U2→U0 at time 3.
  const ExampleUsers := [
    User("U0", "e0", "h0", "i0", 0), User("U1", "e1", "h1", "i1", 0),
    User("U2", "e2", "h2", "i2", 0), User("U3", "e3", "h3", "i3", 0)]
  const ExampleMessages := [
    Message("U1", "U0", "a", 1), Message("U0", "U2", "b", 2), Message("U2", "U0", "c", 3)]

  lemma ExampleQueries()
    ensures OtherUsers(ExampleUsers, "U0") == ExampleUsers[1..]
    ensures CallerMessages(ExampleMessages, "U0") == ExampleMessages
  {
  }

  lemma ExampleOrder()
    ensures SortNewestFirst(ExampleMessages) == [ExampleMessages[2], ExampleMessages[1], ExampleMessages[0]]
  {
  }

  /** Caller U0 gets U1 with the message at time 1, U2 with the message at
      time 3 (the most recent one, not the one at 2) and U3 with none. */
  lemma ThreeUsersExample()
    ensures GetUsers(Some(Identity("U0")), ExampleUsers, ExampleMessages) == Success([
      DirectoryEntry("U1", "i1", 0, Some(ExampleMessages[0])),
      DirectoryEntry("U2", "i2", 0, Some(ExampleMessages[2])),
      DirectoryEntry("U3", "i3", 0, None)])
  {
    ExampleQueries();
    ExampleOrder();
    var m := ExampleMessages;
    var sorted := [m[2], m[1], m[0]];
    assert sorted[1..] == [m[1], m[0]] && sorted[1..][1..] == [m[0]] && sorted[1..][1..][1..] == [];
    assert FirstInvolvingIndex(sorted, "U1") == 2;
    assert FirstInvolvingIndex(sorted, "U2") == 0;
    assert FirstInvolvingIndex(sorted, "U3") == 3;
    var others := ExampleUsers[1..];
    var r := GetUsers(Some(Identity("U0")), ExampleUsers, ExampleMessages).value;
    assert |r| == 3;
    assert r[0] == Entry(others[0], sorted) == DirectoryEntry("U1", "i1", 0, Some(m[0]));
    assert r[1] == Entry(others[1], sorted) == DirectoryEntry("U2", "i2", 0, Some(m[2]));
    assert r[2] == Entry(others[2], sorted) == DirectoryEntry("U3", "i3", 0, None);
    assert r == [r[0], r[1], r[2]];
  }
}
