/** The username-keyed variant of the authentication system
    (`docs/Testing/auth_system2.py`). Its store is a JSON object read into
    a Python dict, whose iteration order is insertion order, so it is
    modelled as a sequence of (username, record) pairs with distinct
    usernames. */
module VariantStore {
  import opened Optional
  import AccountStore

  datatype Record = Record(password: string, saved: seq<AccountStore.SavedEntry>)

  type Store = seq<(string, Record)>

  predicate UniqueKeys(s: Store)
  {
    forall i, j | 0 <= i < j < |s| :: s[i].0 != s[j].0
  }

  predicate HasKey(s: Store, username: string)
  {
    exists i | 0 <= i < |s| :: s[i].0 == username
  }

  /** The dictionary a store stands for. */
  function ToMap(s: Store): (m: map<string, Record>)
    ensures forall u :: u in m <==> HasKey(s, u)
    ensures forall i | 0 <= i < |s| :: s[i].0 in m && (UniqueKeys(s) ==> m[s[i].0] == s[i].1)
  {
    if s == [] then map[]
    else
      var init, last := s[..|s| - 1], s[|s| - 1];
      assert forall i | 0 <= i < |init| :: init[i] == s[i];
      ToMap(init)[last.0 := last.1]
  }

  datatype Created = Created(store: Store, currentUser: Option<string>, ok: bool, message: string)

  /** `AuthenticationSystem.create_account`: refuse a username already
      present; otherwise add it, with the password and no saved secrets,
      after every existing entry, and sign in as it. */
  function CreateAccount(s: Store, currentUser: Option<string>, username: string, password: string): (r: Created)
    requires UniqueKeys(s)
    ensures UniqueKeys(r.store)
    ensures r.ok <==> !HasKey(s, username)
    ensures !r.ok ==> r.store == s && r.currentUser == currentUser && r.message == "Username already exists!"
    ensures r.ok ==>
              && |r.store| == |s| + 1
              && r.store[..|s|] == s
              && r.store[|s|..] == [(username, Record(password, []))]
              && ToMap(r.store) == ToMap(s)[username := Record(password, [])]
              && r.currentUser == Some(username)
              && r.message == "Account created successfully!"
  {
    if HasKey(s, username) then Created(s, currentUser, false, "Username already exists!")
    else
      var t := s + [(username, Record(password, []))];
      assert t[..|t| - 1] == s;
      Created(t, Some(username), true, "Account created successfully!")
  }

  /** Position of the first record, in insertion order, whose password is
      `password`. */
  function FirstMatch(s: Store, password: string): (r: Option<nat>)
    ensures r.None? <==> forall i | 0 <= i < |s| :: s[i].1.password != password
    ensures r.Some? ==> r.value < |s| && s[r.value].1.password == password
    ensures r.Some? ==> forall j | 0 <= j < r.value :: s[j].1.password != password
  {
    if s == [] then None
    else if s[0].1.password == password then Some(0)
    else
      match FirstMatch(s[1..], password)
      case None => None
      case Some(i) => Some(i + 1)
  }

  /** `AuthenticationSystem.login`: scan the records in insertion order and
      sign in as the first whose password matches. The store is read only. */
  method Login(s: Store, currentUser: Option<string>, password: string)
    returns (ok: bool, user: Option<string>, message: string)
    ensures ok <==> exists i | 0 <= i < |s| :: s[i].1.password == password
    ensures !ok ==> user == currentUser && message == "Password not found. Try again."
    ensures ok ==> FirstMatch(s, password).Some?
                   && user == Some(s[FirstMatch(s, password).value].0)
                   && message == "Welcome back, " + user.value + "!"
  {
    var i := 0;
    while i < |s|
      invariant 0 <= i <= |s|
      invariant forall j | 0 <= j < i :: s[j].1.password != password
    {
      if s[i].1.password == password {
        var username := s[i].0;
        return true, Some(username), "Welcome back, " + username + "!";
      }
      i := i + 1;
    }
    return false, currentUser, "Password not found. Try again.";
  }

  /** Appending a record does not move an existing first match; without one,
      the new record is the first match exactly when it has the password. */
  lemma {:induction false} FirstMatchAppend(s: Store, entry: (string, Record), password: string)
    ensures FirstMatch(s + [entry], password)
            == if FirstMatch(s, password).Some? then FirstMatch(s, password)
               else if entry.1.password == password then Some(|s|)
               else None
  {
    if s != [] {
      assert (s + [entry])[1..] == s[1..] + [entry];
      FirstMatchAppend(s[1..], entry, password);
    }
  }

  /** After `create_account(u, p)` succeeds, a login with `p` succeeds. It
      signs in as `u` exactly when no earlier record has password `p`;
      otherwise it signs in as that earlier record's user. */
  lemma CreateThenLogin(s: Store, currentUser: Option<string>, username: string, password: string)
    requires UniqueKeys(s)
    requires CreateAccount(s, currentUser, username, password).ok
    ensures var t := CreateAccount(s, currentUser, username, password).store;
            && FirstMatch(t, password).Some?
            && (t[FirstMatch(t, password).value].0 == username
                <==> forall i | 0 <= i < |s| :: s[i].1.password != password)
            && (FirstMatch(s, password).Some? ==> FirstMatch(t, password) == FirstMatch(s, password))
  {
    var entry := (username, Record(password, []));
    var t := CreateAccount(s, currentUser, username, password).store;
    assert t == s + [entry];
    FirstMatchAppend(s, entry, password);
    if FirstMatch(s, password).Some? {
      // An existing username differs from the new one.
      var k := FirstMatch(s, password).value;
      assert t[k].0 == s[k].0 != username;
    }
  }

  /** A second user who picks an existing password can never log in as
      themself: "bob" registering with alice's password signs in as alice. */
  lemma SharedPasswordLogsInAsFirst()
    ensures var s := [("alice", Record("pw", []))];
            var t := CreateAccount(s, None, "bob", "pw");
            && t.ok
            && FirstMatch(t.store, "pw") == Some(0)
            && t.store[0].0 == "alice"
  {
  }
}
