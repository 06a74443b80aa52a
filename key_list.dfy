/**
 * The list of saved secrets kept by the application: an ordered sequence of
 * `{key, name}` entries in which a key is meant to appear at most once.
 * The list-valued expressions of the save and delete handlers (`some`,
 * spread-append and `filter`) are the functions of this module.
 */
module KeyList {
  import opened Wrappers

  /** One saved secret: the raw secret string as typed, and its label. */
  datatype Entry = Entry(key: string, name: string)

  /** Label stored when the user cancels the name prompt or leaves it empty. */
  const DefaultName: string := "Không có tên"

  /** No two entries share a key. */
  predicate DistinctKeys(entries: seq<Entry>) {
    forall i, j :: 0 <= i < j < |entries| ==> entries[i].key != entries[j].key
  }

  /** `prompt(...) || DefaultName`: a cancelled prompt (None) or an empty answer falls back to the default. */
  function NameOrDefault(answer: Option<string>): (name: string)
    ensures name != []
    ensures answer.Some? && answer.value != [] ==> name == answer.value
    ensures answer.None? || answer.value == [] ==> name == DefaultName
  {
    if answer.Some? && answer.value != [] then answer.value else DefaultName
  }

  /** `entries.some(item => item.key === k)`. */
  function HasKey(entries: seq<Entry>, k: string): (found: bool)
    ensures found <==> exists i :: 0 <= i < |entries| && entries[i].key == k
  {
    if entries == [] then false
    else if entries[0].key == k then true
    else
      var rest := HasKey(entries[1..], k);
      assert forall i :: 1 <= i < |entries| ==> entries[i] == entries[1..][i - 1];
      rest
  }

  /** `entries.filter(item => item.key !== k)`. */
  function RemoveKey(entries: seq<Entry>, k: string): (kept: seq<Entry>)
    ensures |kept| <= |entries|
    ensures forall e :: e in kept <==> e in entries && e.key != k
    ensures !HasKey(kept, k)
  {
    if entries == [] then []
    else if entries[0].key != k then [entries[0]] + RemoveKey(entries[1..], k)
    else RemoveKey(entries[1..], k)
  }

  /**
   * The list after the save handler: the current secret is appended with its
   * label only when it is non-empty and not yet saved.
   */
  function Saved(entries: seq<Entry>, secret: string, answer: Option<string>): (r: seq<Entry>)
    ensures |entries| <= |r| <= |entries| + 1
    ensures r[..|entries|] == entries
    ensures |r| == |entries| + 1 <==> secret != [] && !HasKey(entries, secret)
    ensures |r| == |entries| + 1 ==> r[|entries|] == Entry(secret, NameOrDefault(answer))
    ensures secret != [] ==> HasKey(r, secret)
  {
    if secret != [] && !HasKey(entries, secret) then
      entries + [Entry(secret, NameOrDefault(answer))]
    else
      entries
  }

  // ---------------------------------------------------------------------------
  // Lemmas about the save step

  /** Saving an empty secret leaves the list as it was. */
  lemma SaveEmptySecretUnchanged(entries: seq<Entry>, answer: Option<string>)
    ensures Saved(entries, [], answer) == entries
  {
  }

  /** Saving a secret that is already a key leaves the list as it was, whatever the answer. */
  lemma SaveExistingKeyUnchanged(entries: seq<Entry>, secret: string, answer: Option<string>)
    requires HasKey(entries, secret)
    ensures Saved(entries, secret, answer) == entries
  {
  }

  /** Saving keeps the keys distinct. */
  lemma SavePreservesDistinct(entries: seq<Entry>, secret: string, answer: Option<string>)
    requires DistinctKeys(entries)
    ensures DistinctKeys(Saved(entries, secret, answer))
  {
  }

  /** Saving the same secret a second time changes nothing, whatever the second answer. */
  lemma SaveIdempotent(entries: seq<Entry>, secret: string, l1: Option<string>, l2: Option<string>)
    ensures Saved(Saved(entries, secret, l1), secret, l2) == Saved(entries, secret, l1)
  {
  }

  // ---------------------------------------------------------------------------
  // Lemmas about the delete step

  /** Filtering distributes over concatenation: relative order is kept. */
  lemma {:induction false} RemoveKeyAppend(a: seq<Entry>, b: seq<Entry>, k: string)
    ensures RemoveKey(a + b, k) == RemoveKey(a, k) + RemoveKey(b, k)
  {
    if a == [] {
      assert a + b == b;
    } else {
      assert (a + b)[0] == a[0];
      assert (a + b)[1..] == a[1..] + b;
      RemoveKeyAppend(a[1..], b, k);
    }
  }

  /** Filtering a single entry keeps it exactly when its key differs. */
  lemma RemoveKeySingleton(e: Entry, k: string)
    ensures RemoveKey([e], k) == if e.key == k then [] else [e]
  {
  }

  /** Deleting a key that is not saved leaves the list as it was. */
  lemma {:induction false} RemoveKeyAbsent(entries: seq<Entry>, k: string)
    requires !HasKey(entries, k)
    ensures RemoveKey(entries, k) == entries
  {
    if entries != [] {
      assert !HasKey(entries[1..], k) by {
        forall i | 0 <= i < |entries[1..]| ensures entries[1..][i].key != k {
          assert entries[1..][i] == entries[i + 1];
        }
      }
      RemoveKeyAbsent(entries[1..], k);
      assert entries == [entries[0]] + entries[1..];
    }
  }

  /** A list with distinct keys stays distinct after a delete. */
  lemma {:induction false} RemoveKeyPreservesDistinct(entries: seq<Entry>, k: string)
    requires DistinctKeys(entries)
    ensures DistinctKeys(RemoveKey(entries, k))
  {
    if entries != [] {
      var tail := entries[1..];
      assert DistinctKeys(tail) by {
        forall i, j | 0 <= i < j < |tail| ensures tail[i].key != tail[j].key {
          assert tail[i] == entries[i + 1] && tail[j] == entries[j + 1];
        }
      }
      RemoveKeyPreservesDistinct(tail, k);
      if entries[0].key != k {
        var rest := RemoveKey(tail, k);
        forall e | e in rest ensures e.key != entries[0].key {
          var m :| 0 <= m < |tail| && tail[m] == e;
          assert tail[m] == entries[m + 1];
        }
        ConsDistinct(entries[0], rest);
      }
    }
  }

  /** Prepending an entry whose key is new keeps the keys distinct. */
  lemma ConsDistinct(e: Entry, rest: seq<Entry>)
    requires DistinctKeys(rest)
    requires forall x :: x in rest ==> x.key != e.key
    ensures DistinctKeys([e] + rest)
  {
  }

  /** In a list with distinct keys, deleting a saved key removes exactly one entry. */
  lemma {:induction false} RemoveKeyDistinctLength(entries: seq<Entry>, k: string)
    requires DistinctKeys(entries)
    ensures |RemoveKey(entries, k)| == if HasKey(entries, k) then |entries| - 1 else |entries|
  {
    if !HasKey(entries, k) {
      RemoveKeyAbsent(entries, k);
    } else {
      var i :| 0 <= i < |entries| && entries[i].key == k;
      assert entries == entries[..i] + [entries[i]] + entries[i + 1..];
      assert !HasKey(entries[..i], k) by {
        forall m | 0 <= m < i ensures entries[..i][m].key != k {
          assert entries[..i][m] == entries[m];
        }
      }
      var after := entries[i + 1..];
      assert !HasKey(after, k) by {
        forall m | 0 <= m < |after| ensures after[m].key != k {
          assert after[m] == entries[i + 1 + m];
        }
      }
      RemoveKeyAppend(entries[..i] + [entries[i]], entries[i + 1..], k);
      RemoveKeyAppend(entries[..i], [entries[i]], k);
      RemoveKeyAbsent(entries[..i], k);
      RemoveKeyAbsent(entries[i + 1..], k);
      RemoveKeySingleton(entries[i], k);
    }
  }

  /** Deleting a secret right after it was newly saved gives back the list before the save. */
  lemma SaveThenRemoveRestores(entries: seq<Entry>, secret: string, answer: Option<string>)
    requires !HasKey(entries, secret)
    ensures RemoveKey(Saved(entries, secret, answer), secret) == entries
  {
    if secret != [] {
      var e := Entry(secret, NameOrDefault(answer));
      RemoveKeyAppend(entries, [e], secret);
      RemoveKeySingleton(e, secret);
    }
    RemoveKeyAbsent(entries, secret);
  }
}
