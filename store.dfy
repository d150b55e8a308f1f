/**
 * The credential store's behaviour as functions over the stored list:
 * the lookup filter, the counter upsert, the primary-key invariant, and the
 * properties that connect them.
 */
module Store {
  import opened Authenticators

  /**
   * The filter of a lookup. A query carrying a user name matches on the user
   * name only (its credential ID is ignored); otherwise a query carrying a
   * credential ID matches on the credential ID; a query carrying neither
   * matches nothing. An entry whose compared field is absent never matches.
   */
  predicate Matches(query: Authenticator, entry: Authenticator)
  {
    if query.userName.Some? then entry.userName == query.userName
    else if query.credID.Some? then entry.credID == query.credID
    else false
  }

  /** `s` is `t` with some elements dropped and the rest kept in order. */
  predicate IsSubsequence(s: seq<Authenticator>, t: seq<Authenticator>)
    decreases |t|
  {
    s == [] ||
    (t != [] && ((s[0] == t[0] && IsSubsequence(s[1..], t[1..])) || IsSubsequence(s, t[1..])))
  }

  /**
   * The stored entries a query matches, in stored order: the stream filter
   * and collect of the lookup.
   */
  function Select(db: seq<Authenticator>, query: Authenticator): (r: seq<Authenticator>)
    ensures IsSubsequence(r, db)
    ensures forall e :: multiset(r)[e] == if Matches(query, e) then multiset(db)[e] else 0
    ensures forall e :: e in r <==> e in db && Matches(query, e)
  {
    if db == [] then []
    else
      var tail := Select(db[1..], query);
      assert db == [db[0]] + db[1..];
      if Matches(query, db[0]) then [db[0]] + tail else tail
  }

  /** Some stored entry carries the credential ID `id`. */
  predicate HasCredential(db: seq<Authenticator>, id: string)
  {
    exists i :: 0 <= i < |db| && db[i].credID == Some(id)
  }

  /**
   * The stored list after every entry whose credential ID is `id` has had its
   * counter overwritten with `counter`.
   */
  function SetCounters(db: seq<Authenticator>, id: string, counter: int): (r: seq<Authenticator>)
    ensures |r| == |db|
    ensures forall i :: 0 <= i < |db| ==>
      r[i].credID == db[i].credID && r[i].userName == db[i].userName && r[i].rest == db[i].rest
    ensures forall i :: 0 <= i < |db| ==>
      r[i].counter == if db[i].credID == Some(id) then counter else db[i].counter
  {
    if db == [] then []
    else
      var head := if db[0].credID == Some(id) then db[0].(counter := counter) else db[0];
      [head] + SetCounters(db[1..], id, counter)
  }

  /**
   * The stored list after an upsert of `a`, keyed by its credential ID: when
   * some entry carries that ID, the counters of all such entries are
   * overwritten, unconditionally; otherwise `a` is appended.
   */
  function Upsert(db: seq<Authenticator>, a: Authenticator): seq<Authenticator>
    requires a.credID.Some?
  {
    var id := a.credID.value;
    if HasCredential(db, id) then SetCounters(db, id, a.counter) else db + [a]
  }

  /** The primary-key invariant: every entry has a credential ID, and no two share one. */
  predicate WellKeyed(db: seq<Authenticator>)
  {
    && (forall i :: 0 <= i < |db| ==> db[i].credID.Some?)
    && (forall i, j :: 0 <= i < j < |db| ==> db[i].credID != db[j].credID)
  }

  // ---------------------------------------------------------------- lookup

  /** Looking up a concatenation looks up each part. */
  lemma {:induction false} SelectAppend(xs: seq<Authenticator>, ys: seq<Authenticator>, query: Authenticator)
    ensures Select(xs + ys, query) == Select(xs, query) + Select(ys, query)
  {
    if xs == [] {
      assert xs + ys == ys;
    } else {
      var zs := xs + ys;
      assert zs[0] == xs[0] && zs[1..] == xs[1..] + ys;
      SelectAppend(xs[1..], ys, query);
    }
  }

  /** With a user name in the query, its credential ID plays no part. */
  lemma {:induction false} SelectIgnoresCredID(db: seq<Authenticator>, query: Authenticator, credID: Option<string>)
    requires query.userName.Some?
    ensures Select(db, query) == Select(db, query.(credID := credID))
  {
    if db != [] {
      SelectIgnoresCredID(db[1..], query, credID);
    }
  }

  /** Under the primary-key invariant a lookup by credential ID finds at most one entry. */
  lemma {:induction false} SelectByCredIDAtMostOne(db: seq<Authenticator>, query: Authenticator)
    requires WellKeyed(db)
    requires query.userName.None? && query.credID.Some?
    ensures |Select(db, query)| <= 1
  {
    if db != [] {
      var tail := db[1..];
      assert WellKeyed(tail) by {
        forall i, j | 0 <= i < j < |tail| ensures tail[i].credID != tail[j].credID {
          assert tail[i] == db[i + 1] && tail[j] == db[j + 1];
        }
      }
      SelectByCredIDAtMostOne(tail, query);
    }
  }

  // ---------------------------------------------------------------- upsert

  /** A credential ID not yet stored is inserted: one entry appended, the others kept. */
  lemma UpsertInsertsFresh(db: seq<Authenticator>, a: Authenticator)
    requires a.credID.Some? && !HasCredential(db, a.credID.value)
    ensures var r := Upsert(db, a);
      |r| == |db| + 1 && r[..|db|] == db && r[|db|] == a
  {
  }

  /**
   * A credential ID already stored is updated in place: every entry carrying
   * it gets the incoming counter and keeps its other fields, every other entry
   * is untouched, and nothing is appended.
   */
  lemma UpsertUpdatesExisting(db: seq<Authenticator>, a: Authenticator)
    requires a.credID.Some? && HasCredential(db, a.credID.value)
    ensures var r := Upsert(db, a);
      && |r| == |db|
      && (forall i :: 0 <= i < |db| && db[i].credID == a.credID ==> r[i] == db[i].(counter := a.counter))
      && (forall i :: 0 <= i < |db| && db[i].credID != a.credID ==> r[i] == db[i])
  {
  }

  /** Upserts keep the primary-key invariant. */
  lemma UpsertPreservesWellKeyed(db: seq<Authenticator>, a: Authenticator)
    requires a.credID.Some? && WellKeyed(db)
    ensures WellKeyed(Upsert(db, a))
  {
  }

  /** Upserting the same record twice is the same as upserting it once. */
  lemma UpsertIdempotent(db: seq<Authenticator>, a: Authenticator)
    requires a.credID.Some?
    ensures Upsert(Upsert(db, a), a) == Upsert(db, a)
  {
    var id := a.credID.value;
    var once := Upsert(db, a);
    if !HasCredential(db, id) {
      assert once[|db|].credID == Some(id);
    } else {
      var k :| 0 <= k < |db| && db[k].credID == Some(id);
      assert once[k].credID == Some(id);
    }
    var twice := Upsert(once, a);
    assert |twice| == |once|;
    forall i | 0 <= i < |once| ensures twice[i] == once[i] {
      if !HasCredential(db, id) && i == |db| {
        assert once[i] == a;
      }
    }
  }

  // ------------------------------------------------------ lookup after upsert

  /**
   * After an upsert of `a`, a lookup by its credential ID (no user name) finds
   * at least one entry, every entry it finds carries `a`'s counter, and under
   * the primary-key invariant it finds exactly one.
   */
  lemma {:induction false} SelectAfterUpsert(db: seq<Authenticator>, a: Authenticator, query: Authenticator)
    requires a.credID.Some?
    requires query.userName.None? && query.credID == a.credID
    ensures var r := Select(Upsert(db, a), query);
      && r != []
      && (forall e :: e in r ==> e.counter == a.counter)
      && (WellKeyed(db) ==> |r| == 1)
  {
    var id := a.credID.value;
    var up := Upsert(db, a);
    var r := Select(up, query);
    var k: nat;
    if HasCredential(db, id) {
      k :| 0 <= k < |db| && db[k].credID == Some(id);
    } else {
      k := |db|;
    }
    assert up[k].credID == Some(id);
    assert up[k] in up;
    assert up[k] in r;
    forall e | e in r ensures e.counter == a.counter {
      var j :| 0 <= j < |up| && up[j] == e;
    }
    if WellKeyed(db) {
      UpsertPreservesWellKeyed(db, a);
      SelectByCredIDAtMostOne(up, query);
    }
  }

  /** A fresh credential ID, once inserted, is found by its ID as exactly the inserted record. */
  lemma SelectAfterInsert(db: seq<Authenticator>, a: Authenticator, query: Authenticator)
    requires a.credID.Some? && !HasCredential(db, a.credID.value)
    requires query.userName.None? && query.credID == a.credID
    ensures Select(Upsert(db, a), query) == [a]
  {
    SelectAppend(db, [a], query);
    assert Select([a], query) == [a] by {
      assert [a][1..] == [];
    }
  }

  /**
   * A user who registers two authenticators with different credential IDs
   * finds both when looking up by user name.
   */
  lemma SelectBothDevices(db: seq<Authenticator>, a1: Authenticator, a2: Authenticator, query: Authenticator)
    requires a1.credID.Some? && a2.credID.Some? && a1.credID != a2.credID
    requires !HasCredential(db, a1.credID.value) && !HasCredential(db, a2.credID.value)
    requires query.userName.Some? && a1.userName == query.userName && a2.userName == query.userName
    ensures var r := Select(Upsert(Upsert(db, a1), a2), query);
      a1 in r && a2 in r
  {
  }

  /**
   * There is no clone detection: an authentication that reports a lower
   * counter than the stored one is accepted, and the stored counter goes down.
   * Register C1 for alice with counter 0, authenticate with 5, replay with 3:
   * the store ends with counter 3.
   */
  lemma LowerCounterIsAccepted()
    ensures
      var registered := Authenticator(Some("C1"), Some("alice"), 0, Details("pk", "aaguid", "none", 0));
      var db1 := Upsert([], registered);
      var db2 := Upsert(db1, registered.(counter := 5));
      var db3 := Upsert(db2, registered.(counter := 3));
      db2 == [registered.(counter := 5)] && db3 == [registered.(counter := 3)]
  {
  }
}
