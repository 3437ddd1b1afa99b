/**
 * The session registry (`sessionManager`): a dictionary from sanitised phone number to the
 * authentication state loaded for it, next to the set of per-number storage partitions (the
 * directories under the auth directory). Entries are created on first access and removed,
 * together with their partition, by an explicit clear.
 */
module Registry {
  import opened Phone

  /** What `useMultiFileAuthState(sessionDir)` hands back: the state bound to one partition.
      `serial` numbers the calls, so that two loads of the same partition stay distinguishable. */
  datatype AuthHandle = AuthHandle(partition: string, serial: nat)

  class SessionManager {
    /** `sessions`: sanitised number to loaded authentication state. */
    var sessions: map<string, AuthHandle>
    /** The persisted partitions: one per sanitised number that has a directory. */
    var partitions: set<string>
    /** How many times `createSession` has run. */
    var created: nat

    /** Every key is a sanitised number whose partition exists, and every stored handle was
        loaded from that key's partition by an earlier `createSession`. */
    ghost predicate Valid()
      reads this
    {
      && sessions.Keys <= partitions
      && forall k :: k in sessions ==>
           AllDigits(k) && sessions[k].partition == k && sessions[k].serial < created
    }

    /** An empty registry over whatever partitions earlier runs left on disk. */
    constructor (persisted: set<string>)
      ensures Valid()
      ensures sessions == map[] && partitions == persisted && created == 0
    {
      sessions := map[];
      partitions := persisted;
      created := 0;
    }

    /** `createSession`: makes the partition if it is missing and loads its state; the
        dictionary itself is not touched. */
    method CreateSession(key: string) returns (h: AuthHandle)
      requires Valid()
      modifies this
      ensures Valid()
      ensures h == AuthHandle(key, old(created))
      ensures sessions == old(sessions)
      ensures partitions == old(partitions) + {key}
      ensures created == old(created) + 1
    {
      partitions := partitions + {key};
      h := AuthHandle(key, created);
      created := created + 1;
    }

    /** `getSession`: the entry for the sanitised number, created on first access. An existing
        entry is returned as stored and nothing is created; otherwise exactly that key is added,
        holding a freshly loaded handle. */
    method GetSession(phoneNumber: string) returns (h: AuthHandle)
      requires Valid()
      modifies this
      ensures Valid()
      ensures Sanitize(phoneNumber) in sessions && h == sessions[Sanitize(phoneNumber)]
      ensures h.partition == Sanitize(phoneNumber)
      ensures Sanitize(phoneNumber) in old(sessions) ==>
        h == old(sessions)[Sanitize(phoneNumber)] &&
        sessions == old(sessions) && partitions == old(partitions) && created == old(created)
      ensures Sanitize(phoneNumber) !in old(sessions) ==>
        h == AuthHandle(Sanitize(phoneNumber), old(created)) &&
        sessions == old(sessions)[Sanitize(phoneNumber) := h] &&
        partitions == old(partitions) + {Sanitize(phoneNumber)} &&
        created == old(created) + 1
    {
      var key := Sanitize(phoneNumber);
      if key !in sessions {
        var loaded := CreateSession(key);
        sessions := sessions[key := loaded];
      }
      h := sessions[key];
    }

    /** `clearSession`: drops exactly the sanitised number's entry and its partition; every other
        entry and partition stays, and clearing an absent number changes nothing. */
    method ClearSession(phoneNumber: string)
      requires Valid()
      modifies this
      ensures Valid()
      ensures sessions == old(sessions) - {Sanitize(phoneNumber)}
      ensures partitions == old(partitions) - {Sanitize(phoneNumber)}
      ensures created == old(created)
      ensures Sanitize(phoneNumber) !in old(partitions) ==>
        sessions == old(sessions) && partitions == old(partitions)
    {
      var key := Sanitize(phoneNumber);
      sessions := sessions - {key};
      partitions := partitions - {key};
    }
  }

  /** Two raw numbers with the same digits reach the same entry: the second lookup creates
      nothing and returns the handle the first one stored. */
  method SameDigitsSameSession(m: SessionManager, a: string, b: string)
      returns (ha: AuthHandle, hb: AuthHandle)
    requires m.Valid()
    requires Sanitize(a) == Sanitize(b)
    modifies m
    ensures m.Valid()
    ensures ha == hb
    ensures m.created <= old(m.created) + 1
  {
    ha := m.GetSession(a);
    hb := m.GetSession(b);
  }

  /** Clearing twice is the same as clearing once. */
  method ClearTwice(m: SessionManager, p: string)
    requires m.Valid()
    modifies m
    ensures m.Valid()
    ensures m.sessions == old(m.sessions) - {Sanitize(p)}
    ensures m.partitions == old(m.partitions) - {Sanitize(p)}
    ensures m.created == old(m.created)
  {
    m.ClearSession(p);
    ghost var afterOnce := m.sessions;
    ghost var partitionsOnce := m.partitions;
    m.ClearSession(p);
    assert m.sessions == afterOnce && m.partitions == partitionsOnce;
  }

  /** After a clear, the next lookup starts over: it loads a handle that differs from every
      handle stored before, in a partition created anew. */
  method ClearThenGet(m: SessionManager, p: string) returns (h: AuthHandle)
    requires m.Valid()
    modifies m
    ensures m.Valid()
    ensures h == AuthHandle(Sanitize(p), old(m.created))
    ensures forall k :: k in old(m.sessions) ==> old(m.sessions)[k] != h
    ensures m.sessions == (old(m.sessions) - {Sanitize(p)})[Sanitize(p) := h]
    ensures m.partitions == old(m.partitions) + {Sanitize(p)}
  {
    m.ClearSession(p);
    h := m.GetSession(p);
  }
}
