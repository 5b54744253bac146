/** The session bookkeeping of packages/auth/src/sessions.js. */
module Sessions {
  import opened Base
  import Hex

  /** `sessionID`: the canonical string key of a challenge, its hexadecimal text. */
  function SessionID(challenge: Bytes): (id: string)
    ensures |id| == 2 * |challenge|
    ensures Hex.Decode(id) == Some(challenge)
  {
    Hex.DecodeEncode(challenge);
    Hex.Encode(challenge)
  }

  /** Distinct challenges never share a session key. */
  lemma SessionIDInjective(a: Bytes, b: Bytes)
    ensures SessionID(a) == SessionID(b) <==> a == b
  {
    if SessionID(a) == SessionID(b) {
      Hex.EncodeInjective(a, b);
    }
  }

  /** Character pair `i` of a session key is the hexadecimal text of byte `i`. */
  lemma SessionIDAt(challenge: Bytes, i: nat)
    requires i < |challenge|
    ensures SessionID(challenge)[2 * i..2 * i + 2] == Hex.ByteToHex(challenge[i])
  {
    var id := Hex.Encode(challenge);
    assert id == SessionID(challenge);
    assert id[2 * i] == Hex.Digit(challenge[i] / 16);
    assert id[2 * i + 1] == Hex.Digit(challenge[i] % 16);
    assert id[2 * i..2 * i + 2] == [id[2 * i], id[2 * i + 1]];
  }

  /** What the store keeps per session; the timer handle is not modelled. */
  datatype Session = Session(challenge: Bytes, metadata: Bytes)

  type SessionMap = map<string, Session>

  /** Every key is the session key of the challenge stored under it. */
  predicate KeysMatch(m: SessionMap) {
    forall id :: id in m ==> id == SessionID(m[id].challenge)
  }

  /** The map after `sessions.set(sessionID(challenge), {challenge, metadata})`;
      omitted metadata is stored as empty bytes. */
  function Added(m: SessionMap, challenge: Bytes, metadata: Option<Bytes>): (m': SessionMap)
    ensures SessionID(challenge) in m'
    ensures m'[SessionID(challenge)].challenge == challenge
    ensures metadata.Some? ==> m'[SessionID(challenge)].metadata == metadata.value
    ensures metadata.None? ==> m'[SessionID(challenge)].metadata == []
    ensures m'.Keys == m.Keys + {SessionID(challenge)}
    ensures forall id :: id in m && id != SessionID(challenge) ==> m'[id] == m[id]
  {
    m[SessionID(challenge) := Session(challenge, metadata.GetOr([]))]
  }

  /** The map after the expiry callback for `id` ran: the entry is deleted
      when present, and nothing happens when it is absent. */
  function Expired(m: SessionMap, id: string): (m': SessionMap)
    ensures m'.Keys == m.Keys - {id}
    ensures forall k :: k in m' ==> m'[k] == m[k]
  {
    if id !in m then m else m - {id}
  }

  lemma AddPreservesKeysMatch(m: SessionMap, challenge: Bytes, metadata: Option<Bytes>)
    requires KeysMatch(m)
    ensures KeysMatch(Added(m, challenge, metadata))
  {
  }

  lemma ExpirePreservesKeysMatch(m: SessionMap, id: string)
    requires KeysMatch(m)
    ensures KeysMatch(Expired(m, id))
  {
  }

  /** Firing an expiry a second time changes nothing. */
  lemma ExpireIdempotent(m: SessionMap, id: string)
    ensures Expired(Expired(m, id), id) == Expired(m, id)
  {
  }

  /** Expiries of different keys do not interfere. */
  lemma ExpireCommutes(m: SessionMap, a: string, b: string)
    ensures Expired(Expired(m, a), b) == Expired(Expired(m, b), a)
  {
  }

  /** Expiring a session just added removes exactly that key: every other
      session, including ones added before, is as it was. */
  lemma AddThenExpire(m: SessionMap, challenge: Bytes, metadata: Option<Bytes>)
    ensures Expired(Added(m, challenge, metadata), SessionID(challenge)) == m - {SessionID(challenge)}
  {
  }

  /** In a consistent map, looking a session up by the key of a challenge
      gives back a session for that very challenge. */
  lemma LookupFindsChallenge(m: SessionMap, challenge: Bytes)
    requires KeysMatch(m) && SessionID(challenge) in m
    ensures m[SessionID(challenge)].challenge == challenge
  {
    SessionIDInjective(challenge, m[SessionID(challenge)].challenge);
  }

  /** The `Map` of sessions that `addSession` and its expiry callbacks update in place. */
  class SessionStore {
    var sessions: SessionMap

    ghost predicate Valid()
      reads this
    {
      KeysMatch(sessions)
    }

    constructor ()
      ensures sessions == map[] && Valid()
    {
      sessions := map[];
    }

    /** `addSession` without its timer: stores the session under its key,
        replacing any earlier session with the same key. */
    method AddSession(challenge: Bytes, metadata: Option<Bytes>)
      modifies this
      ensures sessions == Added(old(sessions), challenge, metadata)
      ensures old(Valid()) ==> Valid()
    {
      var identifier := SessionID(challenge);
      var stored := if metadata.Some? then metadata.value else [];
      sessions := sessions[identifier := Session(challenge, stored)];
      if old(Valid()) {
        AddPreservesKeysMatch(old(sessions), challenge, metadata);
      }
    }

    /** The body of the expiry callback armed by `addSession` for `id`. */
    method Expire(id: string)
      modifies this
      ensures sessions == Expired(old(sessions), id)
      ensures old(Valid()) ==> Valid()
    {
      if id !in sessions {
        return;
      }
      sessions := sessions - {id};
    }
  }
}
