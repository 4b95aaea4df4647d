/** The account store of `auth_system.py`: a map from the 4-digit password
    (the account key) to the account record, read leniently from and
    written wholesale to a backing file, and the registration and login
    steps of the login window, which load, change and save that map. */
module AccountStore {
  import opened Optional
  import opened AsciiText
  import PasswordEngine

  type byte = x: int | 0 <= x < 256

  /** One saved secret: website label, optional username (empty when not
      given), the password in plain text, when it was saved, and its
      strength at save time. */
  datatype SavedEntry = SavedEntry(
    website: string,
    username: string,
    password: string,
    created: string,
    strength: PasswordEngine.Strength)

  /** An account record as found in the file. Records written by older
      versions may lack any field, so every field is optional. */
  datatype Account = Account(
    name: Option<string>,
    password: Option<string>,
    userId: Option<string>,
    created: Option<string>,
    saved: Option<seq<SavedEntry>>)

  type Users = map<string, Account>

  /** What the backing file holds: nothing; something that cannot be
      opened or is not valid JSON; bytes that are not UTF-8, whose decoding
      error `load_users` does not catch; a JSON value Python treats as
      false (`null`, `{}`, ...); or an object of account records. */
  datatype Disk = Absent | Unreadable | Undecodable | FalsyJson | Json(users: Users)

  /** `load_users` returns rather than raising. */
  predicate Loads(d: Disk)
  {
    !d.Undecodable?
  }

  /** The current-user pointer the login window hands to the generator:
      the account key and the display name. */
  datatype Session = Session(currentUser: Option<string>, currentUserName: Option<string>)

  const SignedOut := Session(None, None)

  /** `load_users`: the stored object, or the empty map when the file is
      missing, cannot be opened, is not JSON or holds a false value. On a
      file that is not UTF-8 it raises, which `Loads` excludes. */
  function LoadUsers(d: Disk): (users: Users)
    requires Loads(d)
    ensures !d.Json? ==> users == map[]
  {
    if d.Json? then d.users else map[]
  }

  /** `save_users`: overwrite the file with `users`. A failed write is
      swallowed, so `written` says whether the write took effect; when it
      did not, the file is as it was. */
  function SaveUsers(d: Disk, users: Users, written: bool): (d': Disk)
    ensures written ==> Loads(d') && LoadUsers(d') == users
    ensures !written ==> d' == d
  {
    if written then Json(users) else d
  }

  /** Writing what was just read leaves what the next read sees unchanged,
      whether or not the write took effect. */
  lemma SaveOfLoadIsNoOp(d: Disk, written: bool)
    requires Loads(d)
    ensures LoadUsers(SaveUsers(d, LoadUsers(d), written)) == LoadUsers(d)
  {
  }

  // ---------------------------------------------------------------------
  // User identifiers: `secrets.token_hex(8)`, hex of 8 random bytes.

  const IdBytes := 8

  predicate IsLowerHex(c: char) { IsDigit(c) || 'a' <= c <= 'f' }

  function HexChar(n: nat): (c: char)
    requires n < 16
    ensures IsLowerHex(c)
    ensures IsDigit(c) <==> n < 10
  {
    if n < 10 then ('0' as int + n) as char else ('a' as int + n - 10) as char
  }

  function HexValue(c: char): (n: nat)
    requires IsLowerHex(c)
    ensures n < 16 && HexChar(n) == c
    ensures IsDigit(c) <==> n < 10
  {
    if IsDigit(c) then c as int - '0' as int else c as int - 'a' as int + 10
  }

  /** `bytes.hex()`: two lower-case hex digits per byte, high nibble first. */
  function ToHex(bytes: seq<byte>): (s: string)
    ensures |s| == 2 * |bytes|
    ensures forall i | 0 <= i < |s| :: IsLowerHex(s[i])
  {
    if bytes == [] then []
    else [HexChar(bytes[0] / 16), HexChar(bytes[0] % 16)] + ToHex(bytes[1..])
  }

  function FromHex(s: string): seq<byte>
    requires |s| % 2 == 0
    requires forall i | 0 <= i < |s| :: IsLowerHex(s[i])
  {
    if s == [] then []
    else [HexValue(s[0]) * 16 + HexValue(s[1])] + FromHex(s[2..])
  }

  /** The hex encoding loses nothing: the bytes can be read back. */
  lemma {:induction false} HexRoundTrip(bytes: seq<byte>)
    ensures FromHex(ToHex(bytes)) == bytes
  {
    if bytes != [] {
      var s := ToHex(bytes);
      assert s[2..] == ToHex(bytes[1..]);
      HexRoundTrip(bytes[1..]);
      var b := bytes[0];
      assert HexValue(HexChar(b / 16)) == b / 16;
      assert HexValue(HexChar(b % 16)) == b % 16;
    }
  }

  /** `generate_simple_id`: 16 lower-case hex digits that encode the 8
      random bytes drawn for it. */
  function GenerateId(entropy: seq<byte>): (id: string)
    requires |entropy| == IdBytes
    ensures |id| == 16
    ensures forall i | 0 <= i < |id| :: IsLowerHex(id[i])
    ensures FromHex(id) == entropy
  {
    HexRoundTrip(entropy);
    ToHex(entropy)
  }

  // ---------------------------------------------------------------------
  // Validators.

  /** `validate_password`: exactly four characters, all digits. */
  predicate ValidPassword(p: string)
  {
    |p| == 4 && IsDigits(p)
  }

  /** `validate_name`: at least two characters once stripped, and letters
      only once spaces are removed. */
  predicate ValidName(name: string)
  {
    |Strip(name)| >= 2 && IsAlpha(RemoveSpaces(name))
  }

  function Pow10(k: nat): nat
  {
    if k == 0 then 1 else 10 * Pow10(k - 1)
  }

  // Decimal digits are read and written with `HexValue` and `HexChar`,
  // whose values 0-9 are exactly the decimal digits.

  /** The number a string of decimal digits spells. */
  function DecimalValue(s: string): (n: nat)
    requires forall i | 0 <= i < |s| :: IsDigit(s[i])
    ensures n < Pow10(|s|)
  {
    if s == [] then 0 else DecimalValue(s[..|s| - 1]) * 10 + HexValue(s[|s| - 1])
  }

  /** `n` spelled with exactly `width` digits, zero-padded on the left. */
  function Spell(n: nat, width: nat): (s: string)
    ensures |s| == width && forall i | 0 <= i < |s| :: IsDigit(s[i])
  {
    if width == 0 then [] else Spell(n / 10, width - 1) + [HexChar(n % 10)]
  }

  /** Spelling a number that fits in `width` digits and reading it back
      gives the number again. */
  lemma {:induction false} ValueOfSpell(n: nat, width: nat)
    requires n < Pow10(width)
    ensures DecimalValue(Spell(n, width)) == n
  {
    if width > 0 {
      var s := Spell(n, width);
      assert s[..|s| - 1] == Spell(n / 10, width - 1);
      ValueOfSpell(n / 10, width - 1);
    }
  }

  /** Reading a digit string and spelling its value at the same width gives
      the string again: leading zeros are kept. */
  lemma {:induction false} SpellOfValue(s: string)
    requires forall i | 0 <= i < |s| :: IsDigit(s[i])
    ensures Spell(DecimalValue(s), |s|) == s
  {
    if s != [] {
      var init := s[..|s| - 1];
      var v := DecimalValue(init);
      var d := HexValue(s[|s| - 1]);
      assert (v * 10 + d) / 10 == v && (v * 10 + d) % 10 == d;
      SpellOfValue(init);
      assert s == init + [s[|s| - 1]];
    }
  }

  /** Over ASCII, the valid passwords, hence the keys registration can
      create, are exactly the 10000 zero-padded codes 0000..9999, each
      spelled one way. Login does not validate, so a file may hold other
      keys, and they can be signed into. */
  lemma PasswordsAreFourDigitCodes(p: string, n: nat)
    ensures n < 10000 ==> ValidPassword(Spell(n, 4)) && DecimalValue(Spell(n, 4)) == n
    ensures ValidPassword(p) ==> DecimalValue(p) < 10000 && Spell(DecimalValue(p), 4) == p
  {
    assert Pow10(4) == 10000;
    if n < 10000 {
      ValueOfSpell(n, 4);
    }
    if ValidPassword(p) {
      SpellOfValue(p);
    }
  }

  /** A name passes exactly when it consists of letters and spaces and holds
      at least two letters. */
  lemma ValidNameCharacterized(name: string)
    ensures ValidName(name) <==>
              (forall i | 0 <= i < |name| :: IsLetter(name[i]) || name[i] == ' ')
              && exists i, j | 0 <= i < j < |name| :: IsLetter(name[i]) && IsLetter(name[j])
  {
    if ValidName(name) {
      ValidNameHasTwoLetters(name);
    }
    if (forall i | 0 <= i < |name| :: IsLetter(name[i]) || name[i] == ' ')
       && exists i, j | 0 <= i < j < |name| :: IsLetter(name[i]) && IsLetter(name[j])
    {
      var i, j :| 0 <= i < j < |name| && IsLetter(name[i]) && IsLetter(name[j]);
      TwoLettersMakeValidName(name, i, j);
    }
  }

  lemma ValidNameHasTwoLetters(name: string)
    requires ValidName(name)
    ensures forall i | 0 <= i < |name| :: IsLetter(name[i]) || name[i] == ' '
    ensures exists i, j | 0 <= i < j < |name| :: IsLetter(name[i]) && IsLetter(name[j])
  {
    var t := Strip(name);
    var a := StripShape(name);
    LettersOrSpaces(name);
    assert name[a] == t[0] && name[a + |t| - 1] == t[|t| - 1];
    assert IsLetter(name[a]) && IsLetter(name[a + |t| - 1]);
  }

  lemma LettersOrSpaces(name: string)
    requires IsAlpha(RemoveSpaces(name))
    ensures forall i | 0 <= i < |name| :: IsLetter(name[i]) || name[i] == ' '
  {
    var r := RemoveSpaces(name);
    forall i | 0 <= i < |name| ensures IsLetter(name[i]) || name[i] == ' ' {
      if name[i] != ' ' {
        assert name[i] in r;
        var k :| 0 <= k < |r| && r[k] == name[i];
      }
    }
  }

  lemma TwoLettersMakeValidName(name: string, i: nat, j: nat)
    requires forall k | 0 <= k < |name| :: IsLetter(name[k]) || name[k] == ' '
    requires i < j < |name| && IsLetter(name[i]) && IsLetter(name[j])
    ensures ValidName(name)
  {
    StripKeeps(name, i, j);
    OnlyLettersRemain(name, i);
  }

  lemma OnlyLettersRemain(name: string, i: nat)
    requires forall k | 0 <= k < |name| :: IsLetter(name[k]) || name[k] == ' '
    requires i < |name| && IsLetter(name[i])
    ensures IsAlpha(RemoveSpaces(name))
  {
    var r := RemoveSpaces(name);
    assert name[i] in r;
    forall k | 0 <= k < |r| ensures IsLetter(r[k]) {
      assert r[k] in name;
      var m :| 0 <= m < |name| && name[m] == r[k];
    }
  }

  /** A tab anywhere in a name makes it invalid. */
  lemma TabMakesNameInvalid(name: string)
    requires '\t' in name
    ensures !ValidName(name)
  {
  }

  // ---------------------------------------------------------------------
  // Registration and login, as the login window performs them.

  datatype Outcome =
    | AccountCreated
    | LoggedIn
    | MissingInformation
    | InvalidName
    | InvalidPassword
    | AccountExists
    | AccountNotFound
    | NameRequired
    | LoadFailed

  /** The file and the session after one button press, and what the window
      reports. `LoadFailed` stands for the exception `load_users` lets
      escape: the handler stops there, before anything is written. */
  datatype Step = Step(disk: Disk, session: Session, outcome: Outcome)

  /** A record whose name is present and non-empty. Older records fail
      this and have their name filled in at the next login. */
  predicate Named(a: Account)
  {
    a.name.Some? && a.name.value != []
  }

  /** The record registration writes: name, the password that is also its
      key, a fresh identifier, the creation time and no saved secrets. */
  function NewAccount(name: string, key: string, entropy: seq<byte>, now: string): Account
    requires |entropy| == IdBytes
  {
    Account(Some(name), Some(key), Some(GenerateId(entropy)), Some(now), Some([]))
  }

  /** `LoginWindow.returning_user`. Both inputs are stripped first; the
      stripped password is the account key. */
  function ReturningUser(disk: Disk, session: Session, nameInput: string, passwordInput: string,
                         written: bool): (r: Step)
    ensures r.outcome in {LoggedIn, MissingInformation, AccountNotFound, NameRequired, LoadFailed}
    ensures r.outcome != LoggedIn ==> r.disk == disk && r.session == session
    ensures Loads(r.disk) <==> Loads(disk)
    ensures r.outcome == MissingInformation <==> Strip(passwordInput) == []
    ensures r.outcome == LoadFailed <==> Strip(passwordInput) != [] && !Loads(disk)
    ensures r.outcome == AccountNotFound <==>
              Strip(passwordInput) != [] && Loads(disk) && Strip(passwordInput) !in LoadUsers(disk)
    ensures r.outcome == LoggedIn <==>
              var key := Strip(passwordInput);
              key != [] && Loads(disk) && key in LoadUsers(disk)
              && (Named(LoadUsers(disk)[key]) || Strip(nameInput) != [])
    ensures r.outcome == LoggedIn && Named(LoadUsers(disk)[Strip(passwordInput)]) ==>
              var key := Strip(passwordInput);
              var account := LoadUsers(disk)[key];
              && r.disk == disk
              && r.session == Session(Some(account.password.GetOr(key)), Some(account.name.value))
    ensures r.outcome == LoggedIn && !Named(LoadUsers(disk)[Strip(passwordInput)]) ==>
              var key, name := Strip(passwordInput), Strip(nameInput);
              var users := LoadUsers(disk);
              && r.session == Session(Some(key), Some(name))
              && (written ==> LoadUsers(r.disk) == users[key := users[key].(name := Some(name), password := Some(key))])
              && (!written ==> r.disk == disk)
  {
    var key, name := Strip(passwordInput), Strip(nameInput);
    if key == [] then Step(disk, session, MissingInformation)
    else if !Loads(disk) then Step(disk, session, LoadFailed)
    else
      var users := LoadUsers(disk);
      if key !in users then Step(disk, session, AccountNotFound)
      else
        var account := users[key];
        if Named(account) then
          Step(disk, Session(Some(account.password.GetOr(key)), Some(account.name.GetOr(""))), LoggedIn)
        else if name == [] then
          Step(disk, session, NameRequired)
        else
          var updated := account.(name := Some(name), password := Some(key));
          Step(SaveUsers(disk, users[key := updated], written), Session(Some(key), Some(name)), LoggedIn)
  }

  /** `LoginWindow.create_account`. Both inputs are stripped first. When
      the key is taken the window asks whether to sign in instead;
      `signInInstead` is the answer, and a yes runs `ReturningUser` on the
      same inputs. `entropy` is the randomness behind the new identifier
      and `now` the creation time. */
  function CreateAccount(disk: Disk, session: Session, nameInput: string, passwordInput: string,
                         entropy: seq<byte>, now: string, signInInstead: bool, written: bool): (r: Step)
    requires |entropy| == IdBytes
    ensures r.outcome in {MissingInformation, InvalidName, InvalidPassword, AccountExists, LoadFailed} ==>
              r.disk == disk && r.session == session
    ensures Loads(r.disk) <==> Loads(disk)
    ensures r.outcome == MissingInformation <==> Strip(nameInput) == [] || Strip(passwordInput) == []
    ensures r.outcome == InvalidName <==>
              Strip(nameInput) != [] && Strip(passwordInput) != [] && !ValidName(Strip(nameInput))
    ensures r.outcome == InvalidPassword <==>
              Strip(passwordInput) != [] && ValidName(Strip(nameInput)) && !ValidPassword(Strip(passwordInput))
    ensures r.outcome == LoadFailed <==>
              ValidName(Strip(nameInput)) && ValidPassword(Strip(passwordInput)) && !Loads(disk)
    ensures r.outcome == AccountCreated <==>
              && ValidName(Strip(nameInput))
              && ValidPassword(Strip(passwordInput))
              && Loads(disk)
              && Strip(passwordInput) !in LoadUsers(disk)
    ensures r.outcome == AccountCreated ==>
              var name, key := Strip(nameInput), Strip(passwordInput);
              && r.session == Session(Some(key), Some(name))
              && (written ==> LoadUsers(r.disk) == LoadUsers(disk)[key := NewAccount(name, key, entropy, now)])
              && (!written ==> r.disk == disk)
    ensures ValidName(Strip(nameInput)) && ValidPassword(Strip(passwordInput))
            && Loads(disk) && Strip(passwordInput) in LoadUsers(disk) ==>
              r == if signInInstead then ReturningUser(disk, session, nameInput, passwordInput, written)
                   else Step(disk, session, AccountExists)
  {
    var name, key := Strip(nameInput), Strip(passwordInput);
    if name == [] || key == [] then Step(disk, session, MissingInformation)
    else if !ValidName(name) then Step(disk, session, InvalidName)
    else if !ValidPassword(key) then Step(disk, session, InvalidPassword)
    else if !Loads(disk) then Step(disk, session, LoadFailed)
    else
      var users := LoadUsers(disk);
      if key in users then
        if signInInstead then ReturningUser(disk, session, nameInput, passwordInput, written)
        else Step(disk, session, AccountExists)
      else
        Step(SaveUsers(disk, users[key := NewAccount(name, key, entropy, now)], written),
             Session(Some(key), Some(name)), AccountCreated)
  }

  // ---------------------------------------------------------------------
  // Properties across operations.

  /** A successful registration that was written touches only its own key:
      every other account is as it was, and the new record carries the
      name, the key as its password, a 16-digit hex identifier and an empty
      list of saved secrets. */
  lemma RegistrationTouchesOneKey(disk: Disk, session: Session, nameInput: string, passwordInput: string,
                                  entropy: seq<byte>, now: string, signInInstead: bool)
    requires |entropy| == IdBytes
    requires CreateAccount(disk, session, nameInput, passwordInput, entropy, now, signInInstead, true).outcome
             == AccountCreated
    ensures var r := CreateAccount(disk, session, nameInput, passwordInput, entropy, now, signInInstead, true);
            var key := Strip(passwordInput);
            var before, after := LoadUsers(disk), LoadUsers(r.disk);
            && after.Keys == before.Keys + {key}
            && key !in before
            && (forall k | k in before :: after[k] == before[k])
            && after[key].name == Some(Strip(nameInput))
            && after[key].password == Some(key)
            && after[key].userId == Some(GenerateId(entropy))
            && after[key].created == Some(now)
            && after[key].saved == Some([])
  {
  }

  /** Logging in right after a registration that was written finds the new
      account, changes nothing on disk, and signs in as the new user. */
  lemma RegisterThenLogin(disk: Disk, session: Session, nameInput: string, passwordInput: string,
                          entropy: seq<byte>, now: string, signInInstead: bool,
                          laterSession: Session, laterName: string, laterWritten: bool)
    requires |entropy| == IdBytes
    requires CreateAccount(disk, session, nameInput, passwordInput, entropy, now, signInInstead, true).outcome
             == AccountCreated
    ensures var r := CreateAccount(disk, session, nameInput, passwordInput, entropy, now, signInInstead, true);
            ReturningUser(r.disk, laterSession, laterName, passwordInput, laterWritten)
            == Step(r.disk, Session(Some(Strip(passwordInput)), Some(Strip(nameInput))), LoggedIn)
  {
  }

  /** A file that `load_users` cannot decode is never overwritten: both
      buttons stop at the load, or earlier, leaving the file and the
      session as they were. */
  lemma UndecodableFileIsKept(session: Session, nameInput: string, passwordInput: string,
                              entropy: seq<byte>, now: string, signInInstead: bool, written: bool)
    requires |entropy| == IdBytes
    ensures var r := CreateAccount(Undecodable, session, nameInput, passwordInput, entropy, now,
                                   signInInstead, written);
            && r.disk == Undecodable && r.session == session
            && (r.outcome == LoadFailed <==> ValidName(Strip(nameInput)) && ValidPassword(Strip(passwordInput)))
    ensures var r := ReturningUser(Undecodable, session, nameInput, passwordInput, written);
            && r.disk == Undecodable && r.session == session
            && (r.outcome == LoadFailed <==> Strip(passwordInput) != [])
  {
  }

  /** Every record's password field, when present, equals its key. Records
      written by registration and by the login backfill have this shape. */
  predicate WellKeyed(users: Users)
  {
    forall k | k in users :: users[k].password.None? || users[k].password == Some(k)
  }

  lemma CreateAccountKeepsWellKeyed(disk: Disk, session: Session, nameInput: string, passwordInput: string,
                                    entropy: seq<byte>, now: string, signInInstead: bool, written: bool)
    requires |entropy| == IdBytes
    requires Loads(disk) && WellKeyed(LoadUsers(disk))
    ensures WellKeyed(LoadUsers(CreateAccount(disk, session, nameInput, passwordInput, entropy, now,
                                             signInInstead, written).disk))
  {
  }

  lemma ReturningUserKeepsWellKeyed(disk: Disk, session: Session, nameInput: string, passwordInput: string,
                                    written: bool)
    requires Loads(disk) && WellKeyed(LoadUsers(disk))
    ensures WellKeyed(LoadUsers(ReturningUser(disk, session, nameInput, passwordInput, written).disk))
  {
  }

  /** In a well-keyed store, a login signs in as the key that was looked up,
      and that key is still an account afterwards, whether or not the
      backfill was written. */
  lemma LoginSignsInAsKey(disk: Disk, session: Session, nameInput: string, passwordInput: string,
                          written: bool)
    requires Loads(disk) && WellKeyed(LoadUsers(disk))
    requires ReturningUser(disk, session, nameInput, passwordInput, written).outcome == LoggedIn
    ensures var r := ReturningUser(disk, session, nameInput, passwordInput, written);
            && r.session.currentUser == Some(Strip(passwordInput))
            && Strip(passwordInput) in LoadUsers(r.disk)
  {
  }

  /** Without well-keyedness the current user can name no account: a record
      stored under 1234 whose password field says 9999 signs in as 9999. */
  lemma MiskeyedRecordSignsInElsewhere(entropy: seq<byte>)
    requires |entropy| == IdBytes
    ensures var account := Account(Some("Ann"), Some("9999"), None, None, None);
            var disk := Json(map["1234" := account]);
            var r := ReturningUser(disk, SignedOut, "", "1234", true);
            && r.outcome == LoggedIn
            && r.session.currentUser == Some("9999")
            && "9999" !in LoadUsers(r.disk)
  {
  }

  /** The inputs of the scenario below are already stripped and valid. */
  lemma JaneDoeInputs()
    ensures Strip("1234") == "1234" && ValidPassword("1234")
    ensures Strip("Jane Doe") == "Jane Doe" && ValidName("Jane Doe")
  {
    StripOfTrimmed("1234");
    JaneDoeIsValidName();
  }

  lemma JaneDoeIsValidName()
    ensures Strip("Jane Doe") == "Jane Doe" && ValidName("Jane Doe")
  {
    StripOfTrimmed("Jane Doe");
    var r := RemoveSpaces("Jane Doe");
    assert 'J' in r;
    forall i | 0 <= i < |r|
      ensures IsLetter(r[i])
    {
      assert r[i] in "Jane Doe";
    }
  }

  /** Registering "Jane Doe" with password 1234 on an empty store succeeds
      with a generated identifier, and logging in with 1234 alone then
      greets Jane Doe. */
  lemma JaneDoeScenario(entropy: seq<byte>, now: string)
    requires |entropy| == IdBytes
    ensures var r := CreateAccount(Absent, SignedOut, "Jane Doe", "1234", entropy, now, false, true);
            && r.outcome == AccountCreated
            && LoadUsers(r.disk)["1234"].name == Some("Jane Doe")
            && LoadUsers(r.disk)["1234"].userId == Some(GenerateId(entropy))
            && ReturningUser(r.disk, SignedOut, "", "1234", true).session.currentUserName == Some("Jane Doe")
  {
    JaneDoeInputs();
    RegisterThenLogin(Absent, SignedOut, "Jane Doe", "1234", entropy, now, false, SignedOut, "", true);
  }
}
