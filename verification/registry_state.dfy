/** The pending-blob table shared by registry writes and garbage collection (registrystate). */
module RegistryState {
  import opened ManifestGraph

  /** 24 hours, in nanoseconds. */
  const PENDING_BLOB_TTL: int := 24 * 3600 * 1_000_000_000

  predicate Expired(createdAt: int, now: int) {
    now - createdAt > PENDING_BLOB_TTL
  }

  /** The entries of `pending` that a collection at `now` still honours. */
  function FreshPending(pending: map<Digest, int>, now: int): map<Digest, int> {
    map d | d in pending && !Expired(pending[d], now) :: pending[d]
  }

  class State {
    var pending: map<Digest, int>

    constructor ()
      ensures pending == map[]
    {
      pending := map[];
    }

    method AddPending(digest: Digest, now: int)
      modifies this
      ensures pending == old(pending)[digest := now]
    {
      pending := pending[digest := now];
    }

    method MarkPublished(digests: seq<Digest>)
      modifies this
      ensures pending == old(pending) - (set d | d in digests)
    {
      for i := 0 to |digests|
        invariant pending == old(pending) - (set d | d in digests[..i])
      {
        assert digests[..i + 1] == digests[..i] + [digests[i]];
        pending := pending - {digests[i]};
      }
      assert digests[..|digests|] == digests;
    }

    /** Drops the entries older than 24 hours, in any iteration order, and returns the others. */
    method PendingDigests(now: int) returns (result: set<Digest>)
      modifies this
      ensures pending == FreshPending(old(pending), now)
      ensures result == pending.Keys
      ensures forall d :: d in pending <==> d in old(pending) && now - old(pending)[d] <= 86_400_000_000_000
      ensures forall d :: d in pending ==> pending[d] == old(pending)[d]
    {
      result := {};
      var todo := pending.Keys;
      while todo != {}
        invariant todo <= old(pending).Keys
        invariant pending == map d | d in old(pending)
                                     && (d in todo || !Expired(old(pending)[d], now)) :: old(pending)[d]
        invariant result == pending.Keys - todo
        decreases todo
      {
        var digest :| digest in todo;
        todo := todo - {digest};
        if Expired(pending[digest], now) {
          pending := pending - {digest};
        } else {
          result := result + {digest};
        }
      }
    }
  }
}
