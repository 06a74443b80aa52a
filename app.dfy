/**
 * The component state of the authenticator screen and its event handlers.
 * The handlers overwrite the state in place, so the state is a class whose
 * methods are the handlers; the list expressions they use are the functions
 * of KeyList, Countdown and Totp.
 */
module TwoFactorApp {
  import opened Wrappers
  import opened KeyList
  import opened Countdown
  import opened Totp

  class App {
    /** The secret in the input field, as typed. */
    var secretKey: string
    /** The saved secrets, in the order they were saved. */
    var savedKeys: seq<Entry>
    /** The code on display; empty when none could be made. */
    var token: string
    /** The seconds-left value on display. */
    var timeLeft: int

    /**
     * The initial state: no secret, no token, a full countdown, and the list
     * read back from persistent storage (empty when nothing was stored).
     */
    constructor (loaded: seq<Entry>)
      ensures secretKey == [] && savedKeys == loaded
      ensures token == [] && timeLeft == Period
    {
      secretKey := [];
      savedKeys := loaded;
      token := [];
      timeLeft := Period;
    }

    /** Typing in the input field replaces the current secret. */
    method HandleKeyChange(value: string)
      modifies this`secretKey
      ensures secretKey == value
      ensures savedKeys == old(savedKeys)
    {
      secretKey := value;
    }

    /** Choosing a saved entry makes its key the current secret. */
    method SelectSavedKey(key: string)
      modifies this`secretKey
      ensures secretKey == key
      ensures savedKeys == old(savedKeys)
    {
      secretKey := key;
    }

    /**
     * The save button. `answer` is what the name prompt returned (None when it
     * was cancelled); it is used only when the secret is actually saved.
     */
    method SaveCurrentKey(answer: Option<string>)
      modifies this`savedKeys
      ensures savedKeys == Saved(old(savedKeys), secretKey, answer)
      ensures secretKey != [] ==> HasKey(savedKeys, secretKey)
      ensures DistinctKeys(old(savedKeys)) ==> DistinctKeys(savedKeys)
    {
      if secretKey != [] && !HasKey(savedKeys, secretKey) {
        var keyName := NameOrDefault(answer);
        savedKeys := savedKeys + [Entry(secretKey, keyName)];
      }
      if DistinctKeys(old(savedKeys)) {
        SavePreservesDistinct(old(savedKeys), secretKey, answer);
      }
    }

    /**
     * The delete button of an entry: every entry with that key goes, and the
     * current secret is cleared when it is the deleted key.
     */
    method DeleteKey(keyToDelete: string)
      modifies this`savedKeys, this`secretKey
      ensures savedKeys == RemoveKey(old(savedKeys), keyToDelete)
      ensures !HasKey(savedKeys, keyToDelete)
      ensures old(secretKey) == keyToDelete ==> secretKey == []
      ensures old(secretKey) != keyToDelete ==> secretKey == old(secretKey)
      ensures DistinctKeys(old(savedKeys)) ==> DistinctKeys(savedKeys)
    {
      savedKeys := RemoveKey(savedKeys, keyToDelete);
      if secretKey == keyToDelete {
        secretKey := [];
      }
      if DistinctKeys(old(savedKeys)) {
        RemoveKeyPreservesDistinct(old(savedKeys), keyToDelete);
      }
    }

    /**
     * One run of the refresh effect (immediately on a change of secret, then
     * once a second). Nothing is recomputed while the secret is empty. The
     * clock is read twice: `tokenNowMs` by the library, then `countdownNowMs`
     * for the countdown.
     */
    method Tick(gen: Generator, tokenNowMs: nat, countdownNowMs: nat)
      modifies this`token, this`timeLeft
      ensures secretKey == [] ==> token == old(token) && timeLeft == old(timeLeft)
      ensures secretKey != [] ==> token == GenerateTOTP(secretKey, gen, tokenNowMs)
      ensures secretKey != [] ==> timeLeft == TimeLeft(countdownNowMs) && 1 <= timeLeft <= Period
      ensures secretKey != [] && TimeStep(tokenNowMs) == TimeStep(countdownNowMs) ==>
                token == GenerateTOTP(secretKey, gen, countdownNowMs)
      ensures savedKeys == old(savedKeys)
    {
      if secretKey == [] {
        return;
      }
      token := GenerateTOTP(secretKey, gen, tokenNowMs);
      timeLeft := TimeLeft(countdownNowMs);
      if TimeStep(tokenNowMs) == TimeStep(countdownNowMs) {
        SameStepSameToken(secretKey, gen, tokenNowMs, countdownNowMs);
      }
    }
  }
}
