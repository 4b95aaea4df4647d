/** `SecurePasswordGenerator.save_password`: appending a generated secret,
    with its strength at save time, to the signed-in account's list. */
module SavedPasswords {
  import opened Optional
  import opened AccountStore
  import PasswordEngine

  /** `SaveLoadFailed` stands for the exception `load_users` lets escape on a
      file that is not UTF-8; `NoSuchUser` for the `KeyError` of looking up
      a current user the store does not hold. Neither writes anything. */
  datatype SaveOutcome = Saved | NoPassword | NoWebsite | NoSuchUser | SaveLoadFailed

  datatype SaveStep = SaveStep(disk: Disk, outcome: SaveOutcome)

  /** An account's saved secrets; a record without the list has none. */
  function SavedList(a: Account): seq<SavedEntry>
  {
    a.saved.GetOr([])
  }

  /** The entry saved for `website`; `username or ''` turns a cancelled
      prompt into the empty string. */
  function EntryFor(website: string, username: Option<string>, password: string, now: string): SavedEntry
  {
    SavedEntry(website, username.GetOr(""), password, now, PasswordEngine.StrengthOf(password))
  }

  /** `save_password`. `password` is what the password field holds,
      `website` and `username` are the two prompts' answers (`None` when
      cancelled), `now` is the save time. */
  function SavePassword(disk: Disk, session: Session, password: string, website: Option<string>,
                        username: Option<string>, now: string, written: bool): (r: SaveStep)
    ensures r.outcome != Saved ==> r.disk == disk
    ensures Loads(r.disk) <==> Loads(disk)
    ensures r.outcome == NoPassword <==> password == []
    ensures r.outcome == NoWebsite <==> password != [] && (website.None? || website.value == [])
    ensures r.outcome == SaveLoadFailed <==> password != [] && website.Some? && website.value != [] && !Loads(disk)
    ensures r.outcome == Saved <==>
              && password != [] && website.Some? && website.value != [] && Loads(disk)
              && session.currentUser.Some? && session.currentUser.value in LoadUsers(disk)
    ensures r.outcome == Saved && !written ==> r.disk == disk
    ensures r.outcome == Saved && written ==>
              var key, users := session.currentUser.value, LoadUsers(disk);
              var after := LoadUsers(r.disk);
              && after.Keys == users.Keys
              && (forall k | k in users && k != key :: after[k] == users[k])
              && after[key] == users[key].(saved := Some(SavedList(users[key])
                                                          + [EntryFor(website.value, username, password, now)]))
  {
    if password == [] then SaveStep(disk, NoPassword)
    else if website.None? || website.value == [] then SaveStep(disk, NoWebsite)
    else if !Loads(disk) then SaveStep(disk, SaveLoadFailed)
    else
      var users := LoadUsers(disk);
      if session.currentUser.None? || session.currentUser.value !in users then SaveStep(disk, NoSuchUser)
      else
        var key := session.currentUser.value;
        var account := users[key];
        var updated := account.(saved := Some(SavedList(account) + [EntryFor(website.value, username, password, now)]));
        SaveStep(SaveUsers(disk, users[key := updated], written), Saved)
  }

  /** A written save adds exactly one entry, at the end of the current
      user's list, labelled with the website, carrying the password and its
      strength, and with an empty username when none was given; the rest
      of the record is untouched. */
  lemma SaveAppendsOneEntry(disk: Disk, session: Session, password: string, website: Option<string>,
                            username: Option<string>, now: string)
    requires SavePassword(disk, session, password, website, username, now, true).outcome == Saved
    ensures var key := session.currentUser.value;
            var before := LoadUsers(disk)[key];
            var after := LoadUsers(SavePassword(disk, session, password, website, username, now, true).disk)[key];
            && |SavedList(after)| == |SavedList(before)| + 1
            && SavedList(after)[..|SavedList(before)|] == SavedList(before)
            && var e := SavedList(after)[|SavedList(before)|];
               && e.website == website.value
               && e.password == password
               && e.strength == PasswordEngine.StrengthOf(password)
               && e.username == username.GetOr("")
               && e.created == now
               && after.name == before.name && after.password == before.password
               && after.userId == before.userId && after.created == before.created
  {
  }

  lemma SavePasswordKeepsWellKeyed(disk: Disk, session: Session, password: string, website: Option<string>,
                                   username: Option<string>, now: string, written: bool)
    requires Loads(disk) && WellKeyed(LoadUsers(disk))
    ensures WellKeyed(LoadUsers(SavePassword(disk, session, password, website, username, now, written).disk))
  {
  }

  /** After a login into a well-keyed store, saving a non-empty password
      for a named website always finds the account. */
  lemma SaveAfterLoginFindsAccount(disk: Disk, session: Session, nameInput: string, passwordInput: string,
                                   loginWritten: bool, password: string, website: string,
                                   username: Option<string>, now: string, written: bool)
    requires Loads(disk) && WellKeyed(LoadUsers(disk))
    requires ReturningUser(disk, session, nameInput, passwordInput, loginWritten).outcome == LoggedIn
    requires password != [] && website != []
    ensures var r := ReturningUser(disk, session, nameInput, passwordInput, loginWritten);
            SavePassword(r.disk, r.session, password, Some(website), username, now, written).outcome == Saved
  {
    LoginSignsInAsKey(disk, session, nameInput, passwordInput, loginWritten);
  }

  /** After a registration whose write went through, a save with a password
      and a website finds the new account; when the registration write was
      lost, the same save fails with `NoSuchUser` on a store that lacked
      the key. */
  lemma SaveAfterRegistration(disk: Disk, session: Session, nameInput: string, passwordInput: string,
                              entropy: seq<byte>, now: string, signInInstead: bool, registrationWritten: bool,
                              password: string, website: string, username: Option<string>,
                              saveTime: string, written: bool)
    requires |entropy| == IdBytes
    requires CreateAccount(disk, session, nameInput, passwordInput, entropy, now, signInInstead,
                           registrationWritten).outcome == AccountCreated
    requires password != [] && website != []
    ensures var r := CreateAccount(disk, session, nameInput, passwordInput, entropy, now, signInInstead,
                                   registrationWritten);
            SavePassword(r.disk, r.session, password, Some(website), username, saveTime, written).outcome
            == if registrationWritten then Saved else NoSuchUser
  {
  }

  /** Registering 1234 on an empty store and then saving "Xk9!mQ" for
      example.com leaves exactly one saved entry, labelled example.com. */
  lemma RegisterThenSaveScenario(entropy: seq<byte>, now: string, saveTime: string)
    requires |entropy| == IdBytes
    ensures var r := CreateAccount(Absent, SignedOut, "Jane Doe", "1234", entropy, now, false, true);
            var s := SavePassword(r.disk, r.session, "Xk9!mQ", Some("example.com"), None, saveTime, true);
            && s.outcome == Saved
            && |SavedList(LoadUsers(s.disk)["1234"])| == 1
            && SavedList(LoadUsers(s.disk)["1234"])[0].website == "example.com"
  {
    JaneDoeScenario(entropy, now);
  }
}
