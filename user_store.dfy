/** The registered-users collection behind `backend/src/utils/database.ts`.
    The MongoDB collection is modelled as the sequence of its documents in
    insertion order; `findOne` and `updateOne` select the first document whose
    email matches, and `updateOne` without `upsert` inserts nothing. */
module UserStore {
  import opened Wrappers

  /** A document of the collection: `{ email, password, sessionId }`. */
  datatype User = User(email: string, password: string, sessionId: string)

  /** Some document of `users` has email `email`. */
  predicate Registered(users: seq<User>, email: string)
  {
    exists i :: 0 <= i < |users| && users[i].email == email
  }

  /** The emails present in the collection. */
  function Emails(users: seq<User>): (es: set<string>)
    ensures forall e :: e in es <==> Registered(users, e)
  {
    set i | 0 <= i < |users| :: users[i].email
  }

  /** Position of the document a `{ email }` filter selects: the first one
      with that email, or none. */
  function FirstMatch(users: seq<User>, email: string): (r: Option<nat>)
    ensures r.None? <==> !Registered(users, email)
    ensures r.Some? ==> r.value < |users| && users[r.value].email == email
    ensures r.Some? ==> forall j :: 0 <= j < r.value ==> users[j].email != email
  {
    if |users| == 0 then None
    else if users[0].email == email then Some(0)
    else
      match FirstMatch(users[1..], email)
      case None => None
      case Some(i) => Some(i + 1)
  }

  /** What `findOne({ email })` yields: the selected document, or `null`. */
  function FindOne(users: seq<User>, email: string): (r: Option<User>)
    ensures r.Some? <==> Registered(users, email)
    ensures r.Some? ==> r.value in users && r.value.email == email
    ensures r.Some? ==> FirstMatch(users, email).Some? && r.value == users[FirstMatch(users, email).value]
  {
    match FirstMatch(users, email)
    case None => None
    case Some(k) => Some(users[k])
  }

  /** The collection after `updateOne({ email }, { $set: { sessionId } })`:
      the selected document, if any, gets the new session id; nothing else
      changes and nothing is inserted. */
  function SetSession(users: seq<User>, email: string, sessionId: string): (r: seq<User>)
    ensures |r| == |users|
    ensures !Registered(users, email) ==> r == users
    ensures forall i :: 0 <= i < |users| ==>
      r[i].email == users[i].email && r[i].password == users[i].password
    ensures forall i :: 0 <= i < |users| && FirstMatch(users, email) != Some(i) ==> r[i] == users[i]
    ensures Registered(users, email) ==> r[FirstMatch(users, email).value].sessionId == sessionId
  {
    match FirstMatch(users, email)
    case None => users
    case Some(k) => users[k := users[k].(sessionId := sessionId)]
  }

  /** The filter `{ email }` looks at emails only: two collections with the
      same emails in the same places select the same position. */
  lemma FirstMatchSeesOnlyEmails(a: seq<User>, b: seq<User>, email: string)
    requires |a| == |b|
    requires forall i :: 0 <= i < |a| ==> a[i].email == b[i].email
    ensures FirstMatch(a, email) == FirstMatch(b, email)
  {
  }

  /** Appending a document never changes which earlier document a filter
      selects; the appended one is selected only when no earlier one is. */
  lemma {:induction false} FirstMatchAfterAppend(users: seq<User>, u: User, email: string)
    ensures FirstMatch(users + [u], email) ==
      if Registered(users, email) then FirstMatch(users, email)
      else if u.email == email then Some(|users|)
      else None
  {
    if |users| > 0 && users[0].email != email {
      assert (users + [u])[1..] == users[1..] + [u];
      FirstMatchAfterAppend(users[1..], u, email);
      assert Registered(users, email) <==> Registered(users[1..], email) by {
        if Registered(users, email) {
          var i :| 0 <= i < |users| && users[i].email == email;
          assert users[1..][i - 1].email == email;
        }
        if Registered(users[1..], email) {
          var i :| 0 <= i < |users[1..]| && users[1..][i].email == email;
          assert users[i + 1].email == email;
        }
      }
    }
  }

  /** After `insertUser`, `isEmailAlreadyRegistered` finds a document: the new
      one when the email was free, otherwise the earlier duplicate. */
  lemma InsertedIsFound(users: seq<User>, email: string, password: string)
    ensures FindOne(users + [User(email, password, "")], email) ==
      if Registered(users, email) then FindOne(users, email)
      else Some(User(email, password, ""))
  {
    FirstMatchAfterAppend(users, User(email, password, ""), email);
  }

  /** `insertUser` does not look for an existing email: inserting a registered
      email leaves two documents with that email. */
  lemma InsertKeepsDuplicates(users: seq<User>, email: string, password: string)
    requires Registered(users, email)
    ensures var r := users + [User(email, password, "")];
      exists i, j :: 0 <= i < j < |r| && r[i].email == email && r[j].email == email
  {
    var r := users + [User(email, password, "")];
    var i :| 0 <= i < |users| && users[i].email == email;
    assert r[i].email == email && r[|users|].email == email;
  }

  /** After `addSession(email, s)` on a registered email, looking the email up
      again finds the same document, now carrying session id `s`. */
  lemma SessionIsFound(users: seq<User>, email: string, sessionId: string)
    requires Registered(users, email)
    ensures FindOne(SetSession(users, email, sessionId), email)
      == Some(FindOne(users, email).value.(sessionId := sessionId))
  {
  }

  /** The database wrapper: only the registered-users collection is kept. */
  class Database {
    var registeredUsers: seq<User>

    /** The model's starting point: an empty collection. */
    constructor ()
      ensures registeredUsers == []
    {
      registeredUsers := [];
    }

    /** The scan a `{ email }` filter performs. */
    method Locate(email: string) returns (k: Option<nat>)
      ensures k == FirstMatch(registeredUsers, email)
    {
      var i := 0;
      while i < |registeredUsers|
        invariant 0 <= i <= |registeredUsers|
        invariant forall j :: 0 <= j < i ==> registeredUsers[j].email != email
      {
        if registeredUsers[i].email == email {
          return Some(i);
        }
        i := i + 1;
      }
      return None;
    }

    /** `isEmailAlreadyRegistered`: `findOne({ email })`, reading only. */
    method IsEmailAlreadyRegistered(email: string) returns (found: Option<User>)
      ensures found.Some? <==> Registered(registeredUsers, email)
      ensures found.Some? ==> found.value.email == email && found.value in registeredUsers
      ensures found == FindOne(registeredUsers, email)
    {
      var k := Locate(email);
      match k {
        case None => found := None;
        case Some(i) => found := Some(registeredUsers[i]);
      }
    }

    /** `insertUser`: `insertOne({ email, password, sessionId: '' })`. */
    method InsertUser(email: string, password: string)
      modifies this
      ensures registeredUsers == old(registeredUsers) + [User(email, password, "")]
    {
      registeredUsers := registeredUsers + [User(email, password, "")];
    }

    /** `addSession`: `updateOne({ email }, { $set: { sessionId } })`. */
    method AddSession(email: string, sessionId: string)
      modifies this
      ensures registeredUsers == SetSession(old(registeredUsers), email, sessionId)
    {
      var k := Locate(email);
      if k.Some? {
        var i := k.value;
        registeredUsers := registeredUsers[i := registeredUsers[i].(sessionId := sessionId)];
      }
    }
  }
}
