/**
 * The in-memory session store: one process-wide table from an opaque
 * session id to the user record it was recorded for. It has exactly two
 * operations, `SetSession` (insert or overwrite) and `GetSession` (look up),
 * so no entry is ever removed.
 */
module AuthService {
  import opened Wrappers
  import opened Users

  type SessionId = string

  /** One call `setSession(id, user)`. */
  datatype Write = Write(id: SessionId, user: User)

  /** The table held by a store that started empty and then received `writes`, in order. */
  function Replay(writes: seq<Write>): map<SessionId, User>
  {
    if writes == [] then map[]
    else
      var last := writes[|writes| - 1];
      Replay(writes[..|writes| - 1])[last.id := last.user]
  }

  /** Some call in `writes` used the key `k`. */
  predicate Written(writes: seq<Write>, k: SessionId)
  {
    exists i :: 0 <= i < |writes| && writes[i].id == k
  }

  /** A key has an entry exactly when some write used it; in particular, on the empty store every lookup is absent. */
  lemma {:induction false} ReplayHasKeyIffWritten(writes: seq<Write>, k: SessionId)
    ensures k in Replay(writes) <==> Written(writes, k)
  {
    if writes != [] {
      var front := writes[..|writes| - 1];
      ReplayHasKeyIffWritten(front, k);
      if Written(front, k) {
        var i :| 0 <= i < |front| && front[i].id == k;
        assert writes[i].id == k;
      }
      if Written(writes, k) && writes[|writes| - 1].id != k {
        var i :| 0 <= i < |writes| && writes[i].id == k;
        assert front[i].id == k;
      }
    }
  }

  /** Last write wins: the entry for a key is the user of the latest write to that key. */
  lemma {:induction false} ReplayLastWriteWins(writes: seq<Write>, i: nat)
    requires i < |writes|
    requires forall j :: i < j < |writes| ==> writes[j].id != writes[i].id
    ensures writes[i].id in Replay(writes)
    ensures Replay(writes)[writes[i].id] == writes[i].user
  {
    if i < |writes| - 1 {
      var front := writes[..|writes| - 1];
      assert front[i] == writes[i];
      forall j | i < j < |front|
        ensures front[j].id != front[i].id
      {
        assert front[j] == writes[j];
      }
      ReplayLastWriteWins(front, i);
    }
  }

  /** Keys only accumulate: every key of an earlier state is still a key after more writes. */
  lemma {:induction false} ReplayKeysGrow(writes: seq<Write>, n: nat)
    requires n <= |writes|
    ensures Replay(writes[..n]).Keys <= Replay(writes).Keys
  {
    if n < |writes| {
      var front := writes[..|writes| - 1];
      assert front[..n] == writes[..n];
      ReplayKeysGrow(front, n);
    } else {
      assert writes[..n] == writes;
    }
  }

  /** Writes to other keys never disturb an entry: a write sequence that avoids `k` keeps its entry. */
  lemma {:induction false} ReplayOtherKeysUnchanged(before: seq<Write>, after: seq<Write>, k: SessionId)
    requires forall j :: 0 <= j < |after| ==> after[j].id != k
    ensures k in Replay(before + after) <==> k in Replay(before)
    ensures k in Replay(before) ==> Replay(before + after)[k] == Replay(before)[k]
  {
    if after == [] {
      assert before + after == before;
    } else {
      var front := after[..|after| - 1];
      assert (before + after)[..|before + after| - 1] == before + front;
      assert (before + after)[|before + after| - 1] == after[|after| - 1];
      forall j | 0 <= j < |front|
        ensures front[j].id != k
      {
        assert front[j] == after[j];
      }
      ReplayOtherKeysUnchanged(before, front, k);
    }
  }

  class SessionStore {
    var records: map<SessionId, User>
    /** Every `SetSession` call this store has received, oldest first. */
    ghost var writes: seq<Write>

    ghost predicate Valid()
      reads this
    {
      records == Replay(writes)
    }

    /** The module-level `new Map()`: the store starts empty. */
    constructor ()
      ensures Valid()
      ensures writes == [] && records == map[]
    {
      records := map[];
      writes := [];
    }

    /** `setSession(id, user)`: `id` now maps to `user`, overwriting any earlier entry; every other key is unchanged. */
    method SetSession(id: SessionId, user: User)
      requires Valid()
      modifies this
      ensures Valid()
      ensures writes == old(writes) + [Write(id, user)]
      ensures records == old(records)[id := user]
    {
      writes := writes + [Write(id, user)];
      assert writes[..|writes| - 1] == old(writes);
      records := records[id := user];
    }

    /** `getSession(id)`: the user recorded for `id`, or absent. Being a function, it changes nothing. */
    function GetSession(id: SessionId): (r: Option<User>)
      reads this
      ensures r.Some? <==> id in records
      ensures r.Some? ==> r.value == records[id]
    {
      if id in records then Some(records[id]) else None
    }
  }

  /** A key that no call ever used reads as absent. */
  lemma NeverSetIsAbsent(store: SessionStore, k: SessionId)
    requires store.Valid()
    ensures store.GetSession(k) == None <==> !Written(store.writes, k)
  {
    ReplayHasKeyIffWritten(store.writes, k);
  }

  /** A lookup returns the user of the latest write to that key. */
  lemma GetReturnsLatestWrite(store: SessionStore, i: nat)
    requires store.Valid()
    requires i < |store.writes|
    requires forall j :: i < j < |store.writes| ==> store.writes[j].id != store.writes[i].id
    ensures store.GetSession(store.writes[i].id) == Some(store.writes[i].user)
  {
    ReplayLastWriteWins(store.writes, i);
  }
}
