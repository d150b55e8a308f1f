/** The relying party's in-memory credential store. */
module InMemoryStores {
  import opened Authenticators
  import opened Store

  /** A list of authenticator records, looked up by the WebAuthn engine and upserted after each ceremony. */
  class InMemoryStore {
    var database: seq<Authenticator>

    constructor ()
      ensures database == [] && WellKeyed(database)
    {
      database := [];
    }

    /**
     * The lookup: the stored entries the query matches, in stored order. It
     * reads the store and changes nothing.
     */
    function Fetcher(query: Authenticator): (r: seq<Authenticator>)
      reads this
      ensures IsSubsequence(r, database)
      ensures forall e :: multiset(r)[e] == if Matches(query, e) then multiset(database)[e] else 0
      ensures query.userName.Some? ==>
        forall e :: e in r <==> e in database && e.userName == query.userName
      ensures query.userName.None? && query.credID.Some? ==>
        forall e :: e in r <==> e in database && e.credID == query.credID
      ensures query.userName.None? && query.credID.None? ==> r == []
    {
      var r := Select(database, query);
      assert r != [] ==> r[0] in r;
      r
    }

    /**
     * The upsert keyed by credential ID: overwrite the counter of every entry
     * carrying the incoming credential ID, counting them, and append the
     * incoming record when none did.
     */
    method Updater(authenticator: Authenticator)
      requires authenticator.credID.Some?
      modifies this
      ensures database == Upsert(old(database), authenticator)
      ensures old(WellKeyed(database)) ==> WellKeyed(database)
    {
      ghost var before := database;
      var id := authenticator.credID.value;
      var updated: nat := 0;
      var i := 0;
      while i < |database|
        invariant 0 <= i <= |database| == |before|
        invariant forall k :: 0 <= k < i ==>
          database[k] == if before[k].credID == Some(id) then before[k].(counter := authenticator.counter) else before[k]
        invariant forall k :: i <= k < |database| ==> database[k] == before[k]
        invariant updated > 0 <==> exists k :: 0 <= k < i && before[k].credID == Some(id)
      {
        if database[i].credID == Some(id) {
          database := database[i := database[i].(counter := authenticator.counter)];
          updated := updated + 1;
        }
        i := i + 1;
      }
      if updated > 0 {
        assert HasCredential(before, id);
        assert database == SetCounters(before, id, authenticator.counter);
      } else {
        assert database == before;
        database := database + [authenticator];
      }
      if WellKeyed(before) {
        UpsertPreservesWellKeyed(before, authenticator);
      }
    }
  }
}
