/**
 * The older JavaScript client (index.js). Its decoders are the same code as the
 * TypeScript client's and are modelled once, in modules InfoResponse, PlayerResponse
 * and RuleResponse; what differs is
 * request construction: `pack` appends the challenge only when it is truthy.
 */
module LegacyQuery {
  import opened Wrappers
  import opened Bytes
  import opened NodeBuffer
  import Query

  /** `pack(header, payload, challenge)` with `if (challenge)`: a token of 0 is falsy and is left out. */
  function Pack(header: uint8, payload: Option<Bytes>, challenge: Option<int32>): Bytes {
    Query.Preamble() + [header] + Query.Data(payload)
      + (if challenge.Some? && challenge.value != 0 then IntLEBytes(challenge.value, 4) else [])
      + Query.Preamble()
  }

  /** For every token but 0 the two clients build the same request; a 0 token is sent as no token at all. */
  lemma PackAgainstQuery(header: uint8, payload: Option<Bytes>, challenge: Option<int32>)
    ensures challenge != Some(0) ==> Pack(header, payload, challenge) == Query.Pack(header, payload, challenge)
    ensures challenge == Some(0) ==> Pack(header, payload, challenge) == Query.Pack(header, payload, None)
    ensures challenge == Some(0) ==> Pack(header, payload, challenge) != Query.Pack(header, payload, challenge)
  {
    if challenge == Some(0) {
      assert |Pack(header, payload, challenge)| + 4 == |Query.Pack(header, payload, challenge)|;
    }
  }

  /** `challenge(remote, header, payload)`: the same decision as the TypeScript `solicit`, built with this `pack`. */
  function Challenge(header: uint8, payload: Option<Bytes>, first: Bytes, second: Bytes): Query.Exchange {
    var request := Pack(header, payload, None);
    if Query.IsChallenge(first) then
      match ReadInt32LE(first, 5)
      case Ok(token) => Query.Exchange([request, Pack(header, payload, Some(token))], Ok(second))
      case Err(e) => Query.Exchange([request], Err(e))
    else
      Query.Exchange([request], Ok(first))
  }

  /**
   * The two handshakes send the same requests and resolve with the same response, except that a
   * challenge token of 0 makes this one re-send its first request unchanged.
   */
  lemma ChallengeAgainstSolicit(header: uint8, payload: Option<Bytes>, first: Bytes, second: Bytes)
    ensures Challenge(header, payload, first, second).outcome == Query.Solicit(header, payload, first, second).outcome
    ensures !(Query.IsChallenge(first) && ReadInt32LE(first, 5) == Ok(0)) ==>
      Challenge(header, payload, first, second) == Query.Solicit(header, payload, first, second)
    ensures Query.IsChallenge(first) && ReadInt32LE(first, 5) == Ok(0) ==>
      Challenge(header, payload, first, second).sent == [Pack(header, payload, None), Pack(header, payload, None)]
  {
    PackAgainstQuery(header, payload, None);
    if Query.IsChallenge(first) && ReadInt32LE(first, 5).Ok? {
      PackAgainstQuery(header, payload, Some(ReadInt32LE(first, 5).value));
    }
  }

  /** The peer test of `send`'s listener: `rinfo.address !== remote.address || remote.port !== rinfo.port` means ignore. */
  predicate Ignores(remote: Query.AddressInfo, rinfo: Query.AddressInfo) {
    rinfo.address != remote.address || remote.port != rinfo.port
  }

  /** The JavaScript client ignores exactly the datagrams the TypeScript `validate` rejects. */
  lemma IgnoresIffNotValidate(remote: Query.AddressInfo, rinfo: Query.AddressInfo, request: Bytes, response: Bytes)
    ensures Ignores(remote, rinfo) <==> !Query.Validate(remote, rinfo, request, response)
    ensures !Ignores(remote, rinfo) <==> rinfo.address == remote.address && rinfo.port == remote.port
  {
  }
}
