/** The master/detail retained-state eviction policy of the master/detail
    sample (`MasterDetailStateClearStrategy.clearStatesNotIn`).

    On every navigation the store of saved states is trimmed to the keys
    that the new history still needs: the keys it holds, and the master key
    of every master/detail key it holds. */
module MasterDetail {
  import opened Wrappers

  /** A navigation key. `MasterDetail` keys stand for `MasterDetailPath`
      instances; `master` is what `getMaster()` returns (possibly null).
      A master path whose `getMaster()` returns itself cannot be written as
      an inductive value; it is encoded as `MasterDetail(id, None)`. This
      gives the same eviction result: as a master of itself it would only
      protect its own state, which `newState.contains` keeps anyway. */
  datatype Key<I> =
    | Plain(id: I)
    | MasterDetail(id: I, master: Option<Key<I>>)

  /** Some master/detail key of `newState` names `key` as its master: the
      `isMasterOf` flag of the inner loop. */
  predicate IsMasterIn<I(==)>(key: Key<I>, newState: seq<Key<I>>) {
    exists i :: 0 <= i < |newState| && newState[i].MasterDetail? && newState[i].master == Some(key)
  }

  /** The state of `key` survives a navigation to `newState`. */
  predicate Retained<I(==)>(key: Key<I>, newState: seq<Key<I>>) {
    key in newState || IsMasterIn(key, newState)
  }

  /** The saved states that survive a navigation to `newState`. */
  function Cleared<I(==), S>(states: map<Key<I>, S>, newState: seq<Key<I>>): (r: map<Key<I>, S>)
    ensures r.Keys <= states.Keys
    ensures forall k :: k in r ==> r[k] == states[k] && Retained(k, newState)
    ensures forall k :: k in states && Retained(k, newState) ==> k in r
  {
    map k | k in states && Retained(k, newState) :: states[k]
  }

  /** The key-to-saved-state map that the navigation engine keeps, `S` being
      the opaque saved state. */
  class StateStore<I(==), S> {
    var keyStateMap: map<Key<I>, S>

    constructor (states: map<Key<I>, S>)
      ensures keyStateMap == states
    {
      keyStateMap := states;
    }

    /** `clearStatesNotIn(keyStateMap, stateChange)`: walks the keys and
        removes each one that `newState` neither contains nor names as a
        master. The walk visits the keys in no particular order. */
    method ClearStatesNotIn(newState: seq<Key<I>>)
      modifies this
      ensures keyStateMap == Cleared(old(keyStateMap), newState)
    {
      var pending := keyStateMap.Keys;
      while pending != {}
        invariant pending <= keyStateMap.Keys <= old(keyStateMap).Keys
        invariant forall k :: k in keyStateMap ==> keyStateMap[k] == old(keyStateMap)[k]
        invariant forall k :: k in old(keyStateMap) && k !in pending ==>
          (k in keyStateMap <==> Retained(k, newState))
        decreases pending
      {
        var key :| key in pending;
        var isMasterOf := false;
        var i := 0;
        while i < |newState|
          invariant 0 <= i <= |newState|
          invariant !isMasterOf ==> forall j :: 0 <= j < i ==> !(newState[j].MasterDetail? && newState[j].master == Some(key))
          invariant isMasterOf ==> IsMasterIn(key, newState)
        {
          var newKey := newState[i];
          if newKey.MasterDetail? {
            if newKey.master == Some(key) {
              isMasterOf := true;
              break;
            }
          }
          i := i + 1;
        }
        if key !in newState && !isMasterOf {
          keyStateMap := keyStateMap - {key};
        }
        pending := pending - {key};
      }
    }
  }

  /** After the clear, every remaining key is in `newState` or is the master
      of one of its master/detail keys. */
  lemma RemainingKeysAreNeeded<I, S>(states: map<Key<I>, S>, newState: seq<Key<I>>, k: Key<I>)
    requires k in Cleared(states, newState)
    ensures k in newState || exists i :: 0 <= i < |newState| && newState[i].MasterDetail? && newState[i].master == Some(k)
  {
  }

  /** No key that `newState` contains loses its state. */
  lemma HistoryKeysKept<I, S>(states: map<Key<I>, S>, newState: seq<Key<I>>, i: int)
    requires 0 <= i < |newState| && newState[i] in states
    ensures newState[i] in Cleared(states, newState)
    ensures Cleared(states, newState)[newState[i]] == states[newState[i]]
  {
  }

  /** A master keeps its state while one of its details is in `newState`,
      even when the master itself is not. */
  lemma MastersKept<I, S>(states: map<Key<I>, S>, newState: seq<Key<I>>, i: int, id: I, master: Key<I>)
    requires 0 <= i < |newState| && newState[i] == MasterDetail(id, Some(master))
    requires master in states
    ensures master in Cleared(states, newState)
  {
  }

  /** A plain key protects itself and nothing else: adding it to `newState`
      keeps exactly its own state in addition. */
  lemma PlainKeysProtectOnlyThemselves<I, S>(states: map<Key<I>, S>, newState: seq<Key<I>>, id: I)
    ensures Cleared(states, newState + [Plain(id)]) ==
      if Plain(id) in states then Cleared(states, newState)[Plain(id) := states[Plain(id)]]
      else Cleared(states, newState)
  {
    var s' := newState + [Plain(id)];
    forall k | k != Plain(id)
      ensures Retained(k, s') <==> Retained(k, newState)
    {
      if IsMasterIn(k, s') {
        var i :| 0 <= i < |s'| && s'[i].MasterDetail? && s'[i].master == Some(k);
        assert i < |newState| && newState[i] == s'[i];
      }
      if IsMasterIn(k, newState) {
        var i :| 0 <= i < |newState| && newState[i].MasterDetail? && newState[i].master == Some(k);
        assert s'[i] == newState[i];
      }
    }
  }

  /** Clearing only removes entries: the keys shrink and no surviving state
      is replaced. */
  lemma ClearOnlyRemoves<I, S>(states: map<Key<I>, S>, newState: seq<Key<I>>)
    ensures Cleared(states, newState).Keys <= states.Keys
    ensures forall k :: k in Cleared(states, newState) ==> Cleared(states, newState)[k] == states[k]
    ensures |Cleared(states, newState)| <= |states|
  {
    var r := Cleared(states, newState);
    assert r.Keys <= states.Keys;
    SubsetCardinality(r.Keys, states.Keys);
  }

  lemma {:induction false} SubsetCardinality<T>(a: set<T>, b: set<T>)
    requires a <= b
    ensures |a| <= |b|
    decreases |b|
  {
    if a != {} {
      var x :| x in a;
      SubsetCardinality(a - {x}, b - {x});
    }
  }

  /** Each key's fate depends on that key and `newState` only, not on the
      other keys of the store. */
  lemma FateIsPerKey<I, S>(states: map<Key<I>, S>, others: map<Key<I>, S>, newState: seq<Key<I>>, k: Key<I>)
    requires k in states && k in others
    ensures k in Cleared(states, newState) <==> k in Cleared(others, newState)
  {
  }

  /** Only which keys `newState` holds matters, not their order or
      repetitions. */
  lemma OrderOfNewStateIrrelevant<I, S>(states: map<Key<I>, S>, newState: seq<Key<I>>, other: seq<Key<I>>)
    requires forall k :: k in newState <==> k in other
    ensures Cleared(states, newState) == Cleared(states, other)
  {
    forall k | k in states
      ensures Retained(k, newState) <==> Retained(k, other)
    {
      if IsMasterIn(k, newState) {
        var i :| 0 <= i < |newState| && newState[i].MasterDetail? && newState[i].master == Some(k);
        assert newState[i] in other;
      }
      if IsMasterIn(k, other) {
        var i :| 0 <= i < |other| && other[i].MasterDetail? && other[i].master == Some(k);
        assert other[i] in newState;
      }
    }
  }

  /** Clearing twice against the same `newState` is clearing once. */
  lemma ClearIdempotent<I, S>(states: map<Key<I>, S>, newState: seq<Key<I>>)
    ensures Cleared(Cleared(states, newState), newState) == Cleared(states, newState)
  {
  }
}
