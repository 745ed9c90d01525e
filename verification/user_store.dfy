/** The account store: user records with their course histories and the admin
    list, as the in-memory content of the two JSON documents. Every update is a
    pure function from the old record list to the new one. */
module UserStore {
  import opened Wrappers
  import opened Seqs

  /** One user record; the history holds course names, most recent last. */
  datatype User = User(username: string, password: string, history: seq<string>)

  datatype Admin = Admin(username: string, password: string)

  /** Both documents: the user records and the admin list. */
  datatype Accounts = Accounts(users: seq<User>, admins: seq<Admin>)

  /** The account kind chosen on the signup form. */
  datatype Role = UserRole | AdminRole

  datatype SignupError = MissingCredentials | AdminExists | UsernameTaken

  function Usernames(users: seq<User>): seq<string>
  {
    seq(|users|, i requires 0 <= i < |users| => users[i].username)
  }

  lemma UsernamesCons(users: seq<User>)
    requires |users| > 0
    ensures Usernames(users) == [users[0].username] + Usernames(users[1..])
  {
  }

  /** No two records share a username. */
  predicate UniqueUsernames(users: seq<User>)
  {
    forall i, j :: 0 <= i < j < |users| ==> users[i].username != users[j].username
  }

  /** Record `i` is the first one whose username is `name`: the record a
      lookup by username finds. */
  predicate FirstMatch(users: seq<User>, name: string, i: int)
  {
    0 <= i < |users| && users[i].username == name && forall j :: 0 <= j < i ==> users[j].username != name
  }

  /** Past a first record with another name, the first match moves one place down. */
  lemma FirstMatchTail(users: seq<User>, name: string)
    requires |users| > 0 && users[0].username != name
    ensures forall i :: FirstMatch(users, name, i) ==> FirstMatch(users[1..], name, i - 1)
  {
  }

  /** Every history of the store is free of duplicates. */
  predicate HistoriesDistinct(users: seq<User>)
  {
    forall i :: 0 <= i < |users| ==> NoDuplicates(users[i].history)
  }

  /** The history of the first record named `name`, or the empty history when
      there is no such record. */
  function GetUserHistory(users: seq<User>, name: string): (h: seq<string>)
    ensures name !in Usernames(users) ==> h == []
    ensures forall i :: FirstMatch(users, name, i) ==> h == users[i].history
  {
    if |users| == 0 then []
    else
      UsernamesCons(users);
      if users[0].username == name then users[0].history
      else
        FirstMatchTail(users, name);
        GetUserHistory(users[1..], name)
  }

  /** The user lookup is the shared first-occurrence lookup over the usernames:
      record `i` is the first match exactly when `FirstIndex` finds `i`, and the
      history read is that record's, or empty when `FirstIndex` finds nothing. */
  lemma LookupIsFirstIndex(users: seq<User>, name: string)
    ensures forall i :: FirstMatch(users, name, i) <==> FirstIndex(Usernames(users), name) == Some(i)
    ensures GetUserHistory(users, name) ==
              match FirstIndex(Usernames(users), name)
              case None => []
              case Some(i) => users[i].history
  {
    var names := Usernames(users);
    assert forall j :: 0 <= j < |users| ==> names[j] == users[j].username;
    match FirstIndex(names, name)
    case None =>
      forall i | 0 <= i < |users| ensures !FirstMatch(users, name, i) {
        assert names[i] in names;
      }
    case Some(k) =>
      assert FirstMatch(users, name, k);
      forall i | FirstMatch(users, name, i) ensures i == k {
        assert names[i] == name;
      }
  }

  /** Signs up a user or an admin. Both fields must be non-empty; a user is
      added with an empty history unless the username is taken; an admin is
      added only while the admin list is empty. */
  function Signup(acc: Accounts, role: Role, username: string, password: string): (r: Result<Accounts, SignupError>)
    ensures r == Failure(MissingCredentials) <==> username == "" || password == ""
    ensures r == Failure(AdminExists) <==> username != "" && password != "" && role == AdminRole && |acc.admins| > 0
    ensures r == Failure(UsernameTaken) <==>
              username != "" && password != "" && role == UserRole && username in Usernames(acc.users)
    ensures r.Success? && role == UserRole ==>
              r.value.admins == acc.admins && r.value.users == acc.users + [User(username, password, [])]
    ensures r.Success? && role == AdminRole ==>
              r.value.users == acc.users && r.value.admins == [Admin(username, password)]
  {
    if username == "" || password == "" then Failure(MissingCredentials)
    else match role
      case AdminRole =>
        if |acc.admins| == 0 then Success(acc.(admins := acc.admins + [Admin(username, password)]))
        else Failure(AdminExists)
      case UserRole =>
        if username in Usernames(acc.users) then Failure(UsernameTaken)
        else Success(acc.(users := acc.users + [User(username, password, [])]))
  }

  /** Adds `course` at the end of a history that does not hold it yet. */
  function AddCourse(history: seq<string>, course: string): seq<string>
  {
    if course in history then history else history + [course]
  }

  /** Records that the first user named `name` looked at `course`; the scan
      stops at the first match. An unknown name leaves the store as it is. */
  function AppendHistory(users: seq<User>, name: string, course: string): (r: seq<User>)
    ensures |r| == |users| && Usernames(r) == Usernames(users)
    ensures name !in Usernames(users) ==> r == users
    ensures forall i :: FirstMatch(users, name, i) ==>
              && r[i] == users[i].(history := AddCourse(users[i].history, course))
              && forall j :: 0 <= j < |users| && j != i ==> r[j] == users[j]
  {
    if |users| == 0 then []
    else
      UsernamesCons(users);
      if users[0].username == name then
        var r := [users[0].(history := AddCourse(users[0].history, course))] + users[1..];
        UsernamesCons(r);
        r
      else
        var rest := AppendHistory(users[1..], name, course);
        FirstMatchTail(users, name);
        [users[0]] + rest
  }

  /** Empties the history of the first user named `name`. An unknown name
      leaves the store as it is. */
  function ClearHistory(users: seq<User>, name: string): (r: seq<User>)
    ensures |r| == |users| && Usernames(r) == Usernames(users)
    ensures name !in Usernames(users) ==> r == users
    ensures forall i :: FirstMatch(users, name, i) ==>
              && r[i] == users[i].(history := [])
              && forall j :: 0 <= j < |users| && j != i ==> r[j] == users[j]
  {
    if |users| == 0 then []
    else
      UsernamesCons(users);
      if users[0].username == name then
        var r := [users[0].(history := [])] + users[1..];
        UsernamesCons(r);
        r
      else
        var rest := ClearHistory(users[1..], name);
        FirstMatchTail(users, name);
        [users[0]] + rest
  }

  /** Removes every record named `name`, keeping the others in order. */
  function DeleteUser(users: seq<User>, name: string): (r: seq<User>)
    ensures |r| <= |users|
    ensures name !in Usernames(r)
    ensures forall u :: u in r <==> u in users && u.username != name
    ensures name !in Usernames(users) ==> r == users
  {
    if |users| == 0 then []
    else
      var rest := DeleteUser(users[1..], name);
      assert users == [users[0]] + users[1..];
      UsernamesCons(users);
      if users[0].username == name then rest else [users[0]] + rest
  }

  /** A record added by signup starts with an empty history, and signup keeps
      usernames unique and the admin list at most one entry long. */
  lemma SignupKeepsInvariants(acc: Accounts, role: Role, username: string, password: string)
    requires UniqueUsernames(acc.users) && |acc.admins| <= 1
    ensures var r := Signup(acc, role, username, password);
            r.Success? ==> UniqueUsernames(r.value.users) && |r.value.admins| <= 1
    ensures var r := Signup(acc, role, username, password);
            r.Success? && role == UserRole ==> GetUserHistory(r.value.users, username) == []
  {
    var r := Signup(acc, role, username, password);
    if r.Success? && role == UserRole {
      var users := r.value.users;
      forall j | 0 <= j < |acc.users| ensures users[j].username != username {
        assert Usernames(acc.users)[j] == acc.users[j].username;
      }
      assert FirstMatch(users, username, |acc.users|);
    }
  }

  /** Recording the same course twice changes nothing the second time. */
  lemma {:induction false} AppendIdempotent(users: seq<User>, name: string, course: string)
    ensures AppendHistory(AppendHistory(users, name, course), name, course) == AppendHistory(users, name, course)
  {
    if |users| > 0 && users[0].username != name {
      AppendIdempotent(users[1..], name, course);
      var once := AppendHistory(users, name, course);
      assert once[1..] == AppendHistory(users[1..], name, course);
    }
  }

  /** After recording, the user's history is the old one with `course` added at
      the end when it was missing; every other user's history is unchanged. */
  lemma {:induction false} AppendThenGet(users: seq<User>, name: string, course: string, other: string)
    ensures GetUserHistory(AppendHistory(users, name, course), name) ==
              if name in Usernames(users) then AddCourse(GetUserHistory(users, name), course) else []
    ensures other != name ==>
              GetUserHistory(AppendHistory(users, name, course), other) == GetUserHistory(users, other)
  {
    if |users| > 0 {
      UsernamesCons(users);
      if users[0].username != name {
        AppendThenGet(users[1..], name, course, other);
      }
    }
  }

  /** Histories without duplicates stay without duplicates. */
  lemma {:induction false} AppendKeepsHistoriesDistinct(users: seq<User>, name: string, course: string)
    requires HistoriesDistinct(users)
    ensures HistoriesDistinct(AppendHistory(users, name, course))
  {
    if |users| > 0 {
      var r := AppendHistory(users, name, course);
      if users[0].username == name {
        var h := users[0].history;
        assert NoDuplicates(AddCourse(h, course)) by {
          if course !in h {
            assert forall k :: 0 <= k < |h| ==> (h + [course])[k] == h[k];
          }
        }
        assert r[0].history == AddCourse(h, course);
        assert forall k :: 1 <= k < |r| ==> r[k] == users[k];
      } else {
        AppendKeepsHistoriesDistinct(users[1..], name, course);
        assert r == [users[0]] + AppendHistory(users[1..], name, course);
      }
    }
  }

  /** Clearing then looking up yields the empty history, and no other user's
      history changes. */
  lemma {:induction false} ClearThenGet(users: seq<User>, name: string, other: string)
    ensures GetUserHistory(ClearHistory(users, name), name) == []
    ensures other != name ==> GetUserHistory(ClearHistory(users, name), other) == GetUserHistory(users, other)
  {
    if |users| > 0 {
      UsernamesCons(users);
      if users[0].username != name {
        ClearThenGet(users[1..], name, other);
      }
    }
  }

  /** Deletion keeps the other records in their original order: deleting from
      a concatenation deletes from each part. */
  lemma {:induction false} DeleteDistributes(a: seq<User>, b: seq<User>, name: string)
    ensures DeleteUser(a + b, name) == DeleteUser(a, name) + DeleteUser(b, name)
  {
    if |a| > 0 {
      assert (a + b)[1..] == a[1..] + b;
      DeleteDistributes(a[1..], b, name);
    } else {
      assert a + b == b;
    }
  }

  /** Deleting a record keeps usernames unique. */
  lemma {:induction false} DeleteKeepsUnique(users: seq<User>, name: string)
    requires UniqueUsernames(users)
    ensures UniqueUsernames(DeleteUser(users, name))
  {
    if |users| > 0 {
      assert UniqueUsernames(users[1..]);
      DeleteKeepsUnique(users[1..], name);
      var rest := DeleteUser(users[1..], name);
      if users[0].username != name {
        forall k | 0 <= k < |rest| ensures rest[k].username != users[0].username {
          assert rest[k] in rest;
          assert rest[k] in users[1..];
        }
        assert UniqueUsernames([users[0]] + rest);
      }
    }
  }

  /** After deletion the deleted user's history reads as empty and every other
      user's history is unchanged. */
  lemma {:induction false} DeleteThenGet(users: seq<User>, name: string, other: string)
    ensures GetUserHistory(DeleteUser(users, name), name) == []
    ensures other != name ==> GetUserHistory(DeleteUser(users, name), other) == GetUserHistory(users, other)
  {
    if |users| > 0 {
      DeleteThenGet(users[1..], name, other);
      UsernamesCons(users);
    }
  }

}
