# Secure Password Generator — a Dafny model of its core

This project models the core of a small desktop password tool. The tool
authenticates one local user against a JSON file of accounts. The user can
then generate random passwords and save them, unencrypted, next to a
website label. The model covers three parts:

- **Password engine** (`src/secure_password_generator.py`). The engine builds
  an alphabet from the ticked character classes: upper case, lower case,
  digits, and a fixed 26-character punctuation set. It draws a password of
  the chosen length from that alphabet and scores it on a six-point rubric
  that maps to Weak / Medium / Strong / Very Strong. It also saves a password
  into the signed-in account's list.
- **Account store** (`src/auth_system.py`). The store maps a 4-digit password,
  which is the account key, to an account record. It covers the lenient load,
  the whole-file save, the 16-hex-digit user id, the name and password
  validators, and the registration and login steps of the login window.
- **Variant store** (`docs/Testing/auth_system2.py`). This store is keyed by
  username and kept in insertion order. Login picks the first record whose
  password matches.

The model is functional. Each step takes the file contents (`Disk`) and the
session (the current user and name) and returns the new ones together with
an outcome. Whatever the source gets from outside comes in as a parameter:
the random bytes behind a user id, the clock, the prompts' answers, and
whether a file write took effect. The random draw of a password character is
a nondeterministic choice (`:|`) from the alphabet.

Files: `optional.dfy` (Option), `ascii_text.dfy` (character classes,
`strip`, `replace(" ", "")`), `password_engine.dfy`, `account_store.dfy`,
`saved_passwords.dfy`, `variant_store.dfy`.

Notes on behaviour the model makes explicit:

- Registration with a key that is already taken does not simply fail. The
  window offers to sign in instead. The model takes the answer as a
  parameter, and a yes behaves exactly like `ReturningUser` on the same
  inputs.
- After a registration whose write was lost, the session still names the new
  key. A later save then finds no such account (`SaveAfterRegistration`).
- Login sets the current user to the record's `password` field and falls back
  to the key only when that field is missing. In stores where that field
  always equals its key (`WellKeyed`, which every write of this code
  preserves), the current user is the key. Otherwise it can name no account
  (`MiskeyedRecordSignsInElsewhere`).
- In the variant store, a user who registers with a password that an earlier
  user already has can never log in as themself (`SharedPasswordLogsInAsFirst`).

## Model

| member | source | states |
|---|---|---|
| `AsciiText.Strip` | src/auth_system.py:200-201 | the stripped text neither starts nor ends with whitespace and is no longer than the input |
| `AsciiText.StripShape` | src/auth_system.py:200-201 | what strip keeps is an infix of the input, and everything dropped on either side is whitespace |
| `AsciiText.StripKeeps` | src/auth_system.py:46 | everything between two non-whitespace characters survives strip |
| `AsciiText.RemoveSpaces` | src/auth_system.py:46 | `replace(" ", "")` leaves no space, and a character is in the result exactly when it is a non-space character of the input |
| `AsciiText.RemoveSpacesCounts` | src/auth_system.py:46 | every non-space character survives `replace(" ", "")` as often as it occurs, and no space does |
| `AsciiText.RemoveSpacesOfConcat` | src/auth_system.py:46 | `replace(" ", "")` works piece by piece over a concatenation, so the surviving characters keep their order |
| `AsciiText.RemoveSpacesOfSpaceFree` | src/auth_system.py:46 | text without spaces is left unchanged |
| `PasswordEngine.Alphabet` | src/secure_password_generator.py:195-203 | the alphabet is empty exactly when no class is ticked; a character is in it exactly when it belongs to a ticked class; its size is 26/26/10/26 per ticked class; no character repeats; classes appear in the order upper, lower, digits, symbols |
| `PasswordEngine.ClassBlocks` | src/secure_password_generator.py:196-203 | each class constant lists its own characters once, and the punctuation set shares none with letters or digits |
| `PasswordEngine.Generate` | src/secure_password_generator.py:194-214 | with no class ticked there is a warning and the shown password is unchanged; otherwise the password has exactly the requested length, every character comes from a ticked class, and the reported strength is that password's strength |
| `PasswordEngine.Score` | src/secure_password_generator.py:217-223 | the score lies in 0..6; it is 6 exactly when the length is at least 12 and all four classes occur; below length 8 it is at most 4 |
| `PasswordEngine.StrengthOf` | src/secure_password_generator.py:217-228 | `calculate_strength`: Weak exactly for scores up to 2, Medium for 3-4, Strong for 5; Very Strong exactly when the password has 12 or more characters and all four classes; below 8 characters never more than Medium |
| `PasswordEngine.StrengthBands` | src/secure_password_generator.py:217-228 | the score lies in 0..6, and a password is Very Strong exactly when it reaches the top score 6 |
| `PasswordEngine.ScoreMonotone` | src/secure_password_generator.py:218-228 | extending a password never lowers its score or its level |
| `PasswordEngine.NewCriterionRaisesScore` | src/secure_password_generator.py:220-223 | appending a character of a class the password lacked raises the score by at least one |
| `PasswordEngine.ScoreWithinSelection` | src/secure_password_generator.py:194-223 | a password drawn from k ticked classes scores at most 2 + k |
| `PasswordEngine.DigitsOnlyStrength` | src/secure_password_generator.py:218-228 | a digits-only password of 8-11 characters scores 2 (Weak), and one of 12 or more scores 3 (Medium) |
| `AccountStore.LoadUsers` | src/auth_system.py:15-23 | a missing file, one that cannot be opened, one that is not JSON, or one holding a false JSON value reads as the empty map; a file that is not UTF-8 is not loaded at all, because its decoding error escapes the handler |
| `AccountStore.SaveUsers` | src/auth_system.py:25-32 | a write that takes effect is read back exactly; a swallowed failure leaves the file as it was |
| `AccountStore.SaveOfLoadIsNoOp` | src/auth_system.py:15-32 | writing back what was read changes nothing the next read sees |
| `AccountStore.ToHex` | src/auth_system.py:34-36 | two lower-case hex digits per byte |
| `AccountStore.HexRoundTrip` | src/auth_system.py:34-36 | the hex id decodes back to the random bytes it was made from |
| `AccountStore.GenerateId` | src/auth_system.py:34-36 | the user id is 16 lower-case hex digits encoding the 8 random bytes |
| `AccountStore.PasswordsAreFourDigitCodes` | src/auth_system.py:38-42 | the contract of `ValidPassword` (`validate_password`): over ASCII, the valid passwords, and so the keys registration can create, are exactly the 10000 codes 0000-9999, each spelled one way (login does not validate, so other keys already in the file can still be signed into) |
| `AccountStore.ValidNameCharacterized` | src/auth_system.py:44-46 | the contract of `ValidName` (`validate_name`): a name is valid exactly when it has only letters and spaces and at least two letters |
| `AccountStore.TabMakesNameInvalid` | src/auth_system.py:44-46 | a tab anywhere in a name makes it invalid |
| `AccountStore.ReturningUser` | src/auth_system.py:262-300 | an empty password, a file that cannot be decoded, an absent key, or a nameless record with no name entered fails and changes nothing; the file stays decodable exactly when it was; login succeeds exactly otherwise; a named record signs in with its password field (falling back to the key) and its name and writes nothing; a nameless record gets the entered name and the key as password, nothing else in the store changes, and the session is the key and that name |
| `AccountStore.CreateAccount` | src/auth_system.py:198-251 | missing input, an invalid name, an invalid password or a file that cannot be decoded changes nothing, and each of these outcomes is reported exactly when its check is the first to fail; an account is created exactly when name and password are valid, the file loads and the key is free; a taken key either changes nothing or, if the user agrees, is a login on the same inputs; a creation inserts the new record at the key only and signs in as the key and the name |
| `AccountStore.UndecodableFileIsKept` | src/auth_system.py:15-23 | neither button ever overwrites a file that is not UTF-8: each stops at the load or earlier, with file and session as they were |
| `AccountStore.RegistrationTouchesOneKey` | src/auth_system.py:239-251 | a written registration adds one key and leaves every other account as it was; the new record has the name, the key as password, the hex id of the drawn bytes, the creation time and no saved secrets |
| `AccountStore.RegisterThenLogin` | src/auth_system.py:239-300 | right after a written registration, a login with the same password succeeds, writes nothing and signs in as the new user |
| `AccountStore.CreateAccountKeepsWellKeyed` | src/auth_system.py:241-247 | registration keeps every record's password field equal to its key |
| `AccountStore.ReturningUserKeepsWellKeyed` | src/auth_system.py:292-296 | the login backfill keeps every record's password field equal to its key |
| `AccountStore.LoginSignsInAsKey` | src/auth_system.py:299-300 | in a well-keyed store a login signs in as the looked-up key, which remains an account |
| `AccountStore.MiskeyedRecordSignsInElsewhere` | src/auth_system.py:299 | a record stored under 1234 whose password field says 9999 signs in as 9999, which is no account |
| `AccountStore.JaneDoeScenario` | src/auth_system.py:198-300 | registering Jane Doe with 1234 on an empty store succeeds with the generated id, and a login with 1234 alone greets Jane Doe |
| `SavedPasswords.SavePassword` | src/secure_password_generator.py:243-270 | an empty password, a missing website, a file that cannot be decoded or an unknown current user changes nothing; a save succeeds exactly otherwise and then changes only the current user's saved list, by appending one entry |
| `SavedPasswords.SaveAppendsOneEntry` | src/secure_password_generator.py:257-270 | a written save grows the list by one and keeps its old entries; the new entry has the website, the entered username (`''` when none was given), the password, the save time and the password's strength; the rest of the record is untouched |
| `SavedPasswords.SavePasswordKeepsWellKeyed` | src/secure_password_generator.py:257-270 | saving never changes any record's password field |
| `SavedPasswords.SaveAfterLoginFindsAccount` | src/secure_password_generator.py:257-258 | after a login into a well-keyed store, saving a password for a website always finds the account |
| `SavedPasswords.SaveAfterRegistration` | src/secure_password_generator.py:257-258 | after a registration, a save finds the account exactly when the registration write took effect |
| `SavedPasswords.RegisterThenSaveScenario` | src/secure_password_generator.py:243-270 | registering 1234 and saving a password for example.com leaves exactly one entry, labelled example.com |
| `VariantStore.ToMap` | docs/Testing/auth_system2.py:11-15 | the dictionary a store stands for has exactly its usernames as keys and, with distinct usernames, each one's record |
| `VariantStore.CreateAccount` | docs/Testing/auth_system2.py:21-31 | an existing username returns false and changes neither store nor current user; a new one is appended after all entries with the password and no saved secrets, the dictionary gains exactly that key, usernames stay distinct, and the current user becomes the username |
| `VariantStore.FirstMatch` | docs/Testing/auth_system2.py:35-36 | finds no position exactly when no record has the password; otherwise the position holds the password and no earlier record does |
| `VariantStore.FirstMatchAppend` | docs/Testing/auth_system2.py:24-36 | adding a user after all others never changes who an existing password logs in as; when no record had the password, the new user is the first match exactly when it has that password |
| `VariantStore.Login` | docs/Testing/auth_system2.py:33-39 | login succeeds exactly when some record has the password and then signs in as the first such username in insertion order; on failure the current user is unchanged; the store is only read |
| `VariantStore.CreateThenLogin` | docs/Testing/auth_system2.py:21-39 | after a successful creation a login with the same password succeeds; it signs in as the new user exactly when no earlier record has that password, and otherwise as the earlier match |
| `VariantStore.SharedPasswordLogsInAsFirst` | docs/Testing/auth_system2.py:33-38 | bob registering with alice's password is created, but that password logs in as alice |

## Left out

- Tkinter presentation is left out, because it is display only: windows, centring, widgets, message boxes, Enter-key navigation, the clipboard, the saved-password viewer, and logout/restart. The prompts' answers are inputs.
- Message texts are left out. This includes the mismatched hint at `src/auth_system.py:223`, which describes an 8-character rule. The validator is modelled, not the message. The variant store keeps its returned messages.
- JSON encoding and real file I/O are left out. The file is one of five cases: absent; unopenable or not JSON; not UTF-8; a false JSON value; or an object of records. The exception `load_users` lets escape on a file that is not UTF-8 is the outcome `LoadFailed`. The handler stops there and writes nothing.
- AccountStore.LoadUsers: a top-level JSON value that is truthy but not an object, such as `[1]`, is not modelled.
- AccountStore.LoadUsers: a record that is not a JSON object, such as `{"1234": null}`, is not modelled. The source raises on it when it reads the record at `src/auth_system.py:286`.
- AccountStore.LoadUsers: record fields holding JSON `null` or a value of an unexpected type are treated as absent. The source differs wherever it uses such a field, as listed below.
  - A `null` password signs in with current user `None` (`src/auth_system.py:299`), where the model falls back to the key.
  - A non-string password, such as `1234`, signs in with that number as the current user (`src/auth_system.py:299`). The next save's lookup then raises `KeyError` (`src/secure_password_generator.py:258`), where the model signs in as the key and the save succeeds.
  - A truthy non-string name, such as `5`, counts as a name (`src/auth_system.py:286`), so login succeeds with it. The model asks for a name or backfills the record instead.
  - A `null` or non-list saved list, such as `"x"` or `{}`, makes `setdefault(...).append` raise (`src/secure_password_generator.py:268`), where the model starts a new list.
- `SaveUsers`: a failed write leaves the file as it was. A write that truncated the file before failing is not modelled.
- The entropy and uniformity of `secrets` are not modelled. `Generate` only guarantees that each character comes from the alphabet. Because the alphabet has no repeated characters, a uniform index draw would be uniform over the characters. The 8 bytes behind a user id are a parameter. `datetime.now()` is an uninterpreted string.
- Python's Unicode semantics of `isupper`, `islower`, `isdigit`, `isalpha` and `isspace` are not modelled. Only ASCII is: a non-ASCII character is none of these. As a result, `ValidNameCharacterized` rejects non-ASCII letters that Python would accept. Likewise, `PasswordsAreFourDigitCodes` leaves out four-character passwords of non-ASCII digits, such as `"١٢٣٤"`, which `validate_password` accepts.
- `PasswordEngine.Generate` is modelled for every length, not only the slider's range of 8 to 64 (`src/secure_password_generator.py:83`). This is a weaker precondition, so the contract is stronger.
- Strength levels are an enumeration. The emoji labels are left out.
- The variant store's I/O and its `LoginWindow` are left out. Its `load_users` raises on a bad file rather than reading leniently. Its window builds a second root window after the main loop.
- AccountStore.LoadUsers: record keys other than the five modelled ones, such as an older `email` field, are not represented. The source edits records in place, so it keeps such keys through the login backfill (`src/auth_system.py:293-296`) and through a save (`src/secure_password_generator.py:268-270`). The model's records have no place for them.
- The variant store's records always have a `password` field. A record without one would raise `KeyError` in `login`.
