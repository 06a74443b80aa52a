# A verified model of the 2FA code screen

The application shows the current six-digit TOTP code for a secret typed by
the user, with a countdown of the seconds left in the current 30-second time
step. It also keeps a list of saved secrets, each with a label. All of its
logic is in `src/App.js`. This project models that logic in Dafny:

- **KeyList** (`key_list.dfy`): the saved-key list as a sequence of
  `Entry(key, name)` values, with the list expressions the handlers use.
  `HasKey` is `some`, `RemoveKey` is `filter` and `Saved` is the guarded
  append. `NameOrDefault` is the fallback to the label `Không có tên`. The
  lemmas cover the save and delete steps: unchanged cases, distinct keys
  preserved, relative order kept, idempotence, and delete undoing a fresh
  save.
- **Countdown** (`countdown.dfy`): `30 - floor(now / 1000 % 30)` over integer
  milliseconds. It is related to the time-step counter T = floor(unixtime / 30)
  of section 4.2 of RFC 6238: the value is always in [1, 30], and it equals the
  seconds until the next step. A later time falls in the same step exactly when
  fewer seconds than that have passed.
- **Totp** (`totp.dfy`): the `generateTOTP` wrapper. The otpauth library is a
  `Generator` parameter, a function from the whitespace-free secret and the
  RFC 6238 time-step counter to an optional code (`None` when the library
  throws). The library is configured with a 30-second period
  (`src/App.js:43`). So the code depends on the time only through the step,
  and stays the same for as long as the countdown says.
  `StripWhitespace` removes exactly the characters of the regular-expression
  class `\s`.
- **TwoFactorApp** (`app.dfy`): the component state (`secretKey`, `savedKeys`,
  `token`, `timeLeft`) as a class. Each handler is a method, and each method's
  postcondition gives the new state in terms of the functions above. `Tick` is
  one run of the refresh effect.
- **Wrappers** (`wrappers.dfy`): the `Option` type.

Three behaviours of the code are worth noting:

- The code does not check for a blank secret. Only `''` skips the library
  (`src/App.js:35`). A secret made only of whitespace therefore reaches the
  library as the empty string. `BlankSecretReachesGenerator` states this.
- Keys are compared as typed. So `"AB CD"` and `"ABCD"` can both be saved,
  although they give the same code (`WhitespaceDoesNotChangeToken`).
- The refresh effect reads the clock twice: once inside the library for the
  code and once for the countdown. `Tick` takes the two readings as separate
  parameters. When both readings fall in the same time step, the code shown
  is the one for the countdown's step. Across a step boundary it is the code
  of the first reading's step.

## Model

| member | source | states |
|---|---|---|
| KeyList.NameOrDefault | src/App.js:105 | the stored name is never empty; a non-empty prompt answer is kept, a cancelled or empty one becomes `Không có tên` |
| KeyList.HasKey | src/App.js:104 | true exactly when some entry's key equals the given key |
| KeyList.RemoveKey | src/App.js:117 | no longer than the input; an entry is kept exactly when it was in the list and its key differs; no entry with the key remains |
| KeyList.Saved | src/App.js:103-108 | earlier entries stay unchanged as a prefix; the list grows by one exactly when the secret is non-empty and not yet saved, and then the new last entry is `{secret, name-or-default}`; afterwards a non-empty secret is always saved |
| KeyList.SaveEmptySecretUnchanged | src/App.js:104 | saving with an empty secret leaves the list unchanged |
| KeyList.SaveExistingKeyUnchanged | src/App.js:104 | saving a secret that is already a key leaves the list unchanged, whatever the name |
| KeyList.SavePreservesDistinct | src/App.js:104-106 | saving keeps all keys distinct |
| KeyList.SaveIdempotent | src/App.js:104-106 | saving the same secret a second time changes nothing |
| KeyList.RemoveKeyAppend | src/App.js:117 | deleting from a concatenation deletes from each part, so the kept entries stay in their relative order |
| KeyList.RemoveKeySingleton | src/App.js:117 | a single entry is kept exactly when its key differs from the deleted key |
| KeyList.RemoveKeyAbsent | src/App.js:117 | deleting a key that is not saved leaves the list unchanged |
| KeyList.RemoveKeyPreservesDistinct | src/App.js:117 | deleting keeps all keys distinct |
| KeyList.RemoveKeyDistinctLength | src/App.js:117 | with distinct keys, deleting a saved key removes exactly one entry, and deleting any other key removes none |
| KeyList.SaveThenRemoveRestores | src/App.js:103-121 | deleting a secret right after it was newly saved restores the earlier list |
| Countdown.TimeLeft | src/App.js:56-59 | the countdown lies in [1, 30] and equals the seconds from now to the start of the next RFC 6238 time step |
| Countdown.SameStepIff | src/App.js:57 | a later time is in the same time step exactly when fewer than `TimeLeft` seconds have passed |
| Countdown.CountdownWithinStep | src/App.js:57 | within one time step the countdown drops by exactly the seconds elapsed |
| Countdown.FullPeriodAtRollover | src/App.js:57 | the countdown shows 30 exactly in the first second of a time step |
| Totp.StripWhitespace | src/App.js:44 | the result has no whitespace, is no longer than the input, and holds exactly the input's non-whitespace characters |
| Totp.StripAppend | src/App.js:44 | removing whitespace works piecewise over concatenation, so the other characters stay in order |
| Totp.StripNoWhitespace | src/App.js:44 | a secret without whitespace reaches the library unchanged |
| Totp.StripAllWhitespace | src/App.js:44 | a secret of only whitespace becomes the empty string |
| Totp.StripIdempotent | src/App.js:44 | removing whitespace twice equals removing it once |
| Totp.StripDropsInsertedWhitespace | src/App.js:44 | one whitespace character inserted anywhere is removed |
| Totp.GenerateTOTP | src/App.js:33-53 | an empty secret gives an empty token; a non-empty token is exactly the library's code for the whitespace-free secret |
| Totp.GeneratorFailureGivesEmptyToken | src/App.js:49-51 | when the library throws, the token is empty |
| Totp.TokenFromStrippedSecret | src/App.js:38-48 | for a non-empty secret, the token is the library's code for the secret without whitespace |
| Totp.SameStepSameToken | src/App.js:38-48 | two times in the same 30-second step give the same token |
| Totp.TokenValidForTimeLeft | src/App.js:38-59 | the token at a time stays the same for the next `TimeLeft` seconds, as the countdown announces |
| Totp.WhitespaceDoesNotChangeToken | src/App.js:44 | two non-empty secrets that differ by one whitespace character give the same token |
| Totp.BlankSecretReachesGenerator | src/App.js:35-44 | a non-empty secret of only whitespace passes the empty check, and the library is called with the empty string |
| TwoFactorApp.App.constructor | src/App.js:23-30 | starts with an empty secret and token, a countdown of 30, and the list loaded from storage |
| TwoFactorApp.App.HandleKeyChange | src/App.js:85-87 | the current secret becomes the typed value; the saved list is unchanged |
| TwoFactorApp.App.SelectSavedKey | src/App.js:111-113 | the current secret becomes the chosen key; the saved list is unchanged |
| TwoFactorApp.App.SaveCurrentKey | src/App.js:103-108 | the list becomes `Saved` of the old list; afterwards a non-empty secret is saved; distinct keys stay distinct |
| TwoFactorApp.App.DeleteKey | src/App.js:116-121 | the list becomes `RemoveKey` of the old list; the secret becomes empty exactly when it was the deleted key and is otherwise unchanged; distinct keys stay distinct |
| TwoFactorApp.App.Tick | src/App.js:62-68 | with an empty secret nothing changes; otherwise the token is `GenerateTOTP` at the library's clock reading, and the countdown is `TimeLeft` at the second reading, which lies in [1, 30]; when both readings are in one step, the token is the one for the countdown's reading |

## Left out

- The otpauth library (Base32 decoding, HMAC-SHA1, dynamic truncation) is not part of this model. It is the `Generator` parameter, so no property of the digits themselves is stated. The model assumes what RFC 6238 prescribes for a 30-second period: the library reads the time only through the counter floor(ms / 1000 / 30), which the model computes as `Countdown.TimeStep`.
- Reading and writing the list in `localStorage`, with JSON (de)serialisation, is I/O. The loaded list is the constructor's parameter. Nothing assumes that its keys are distinct, so distinctness is stated as preserved, not as always true.
- The blocking `prompt()` for a name is UI input. Its answer is the `Option<string>` parameter of `SaveCurrentKey`.
- The `setInterval`/`clearInterval` lifecycle of the refresh effect is scheduling. `Tick` models one run of the effect's body.
- Rendering, the clipboard copy, the snackbar and the progress-ring percentage (`timeLeft / 30 * 100`, floating point) are UI.
- Countdown.TimeLeft: the source computes `Date.now() / 1000 % 30` in floating point. The model uses integer division and remainder on a non-negative millisecond count. These agree for any clock at or after the Unix epoch. Negative times, where the JavaScript remainder keeps the sign, are not modelled.
- Console logging of the library's error is I/O.
