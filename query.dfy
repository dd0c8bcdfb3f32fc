/**
 * Request construction, the challenge handshake and the peer filter of the
 * TypeScript client (class SourceQuerySocket), for Valve's A2S_INFO,
 * A2S_PLAYER and A2S_RULES queries. The socket itself is not modelled: the
 * responses the server sends are parameters.
 */
module Query {
  import opened Wrappers
  import opened Bytes
  import opened NodeBuffer

  /** The request-kind bytes the client sends. */
  const InfoRequest: uint8 := 0x54     // 'T'
  const PlayersRequest: uint8 := 0x55  // 'U'
  const RulesRequest: uint8 := 0x56    // 'V'
  /** Byte 4 of a response that carries a challenge token. */
  const ChallengeResponse: uint8 := 0x41  // 'A'

  /** `Buffer.alloc(4).writeInt32LE(-1, 0)`: the simple-packet marker. */
  function Preamble(): (r: Bytes)
    ensures r == [0xFF, 0xFF, 0xFF, 0xFF]
  {
    Pow256Values();
    IntLEBytes(-1, 4)
  }

  /** `payload ? payload + NUL : empty`: both an absent and an empty payload are falsy. */
  function Data(payload: Option<Bytes>): Bytes {
    if payload.Some? && payload.value != [] then payload.value + [0] else []
  }

  /**
   * `pack(header, payload, challenge)`: marker, kind byte, optional NUL-terminated payload,
   * the challenge when it is not undefined, and then the marker a second time.
   */
  function Pack(header: uint8, payload: Option<Bytes>, challenge: Option<int32>): Bytes {
    Preamble() + [header] + Data(payload)
      + (if challenge.Some? then IntLEBytes(challenge.value, 4) else [])
      + Preamble()
  }

  /** The layout of a request: where each part sits and how long the whole is. */
  lemma PackLayout(header: uint8, payload: Option<Bytes>, challenge: Option<int32>)
    ensures var r := Pack(header, payload, challenge);
      && |r| == 4 + 1 + (if payload.Some? && payload.value != [] then |payload.value| + 1 else 0)
                + (if challenge.Some? then 4 else 0) + 4
      && r[..4] == [0xFF, 0xFF, 0xFF, 0xFF]
      && r[4] == header
      && r[5..5 + |Data(payload)|] == Data(payload)
      && r[|r| - 4..] == [0xFF, 0xFF, 0xFF, 0xFF]
  {
    var r := Pack(header, payload, challenge);
    var d := Data(payload);
    var c := if challenge.Some? then IntLEBytes(challenge.value, 4) else [];
    assert r == Preamble() + [header] + d + c + Preamble();
    assert r[5..5 + |d|] == d;
    assert r[|r| - 4..] == Preamble();
  }

  /** A non-empty payload is copied verbatim after the kind byte and followed by a NUL. */
  lemma PackPayload(header: uint8, payload: Bytes, challenge: Option<int32>)
    requires payload != []
    ensures var r := Pack(header, Some(payload), challenge);
      r[5..5 + |payload|] == payload && r[5 + |payload|] == 0
  {
    PackLayout(header, Some(payload), challenge);
  }

  /** The challenge written by `pack` reads back with `readInt32LE` right after the payload, for every int32. */
  lemma PackChallengeReadsBack(header: uint8, payload: Option<Bytes>, challenge: int32)
    ensures ReadInt32LE(Pack(header, payload, Some(challenge)), 5 + |Data(payload)|) == Ok(challenge)
  {
    var d := Data(payload);
    var p := Preamble() + [header] + d;
    assert Pack(header, payload, Some(challenge)) == p + IntLEBytes(challenge, 4) + Preamble();
    ReadInt32LEWritten(p, challenge, Preamble());
  }

  /** `response.slice(4, 5).toString() === 'A'` */
  predicate IsChallenge(response: Bytes) {
    Slice(response, 4, 5) == [ChallengeResponse]
  }

  lemma IsChallengeByte(response: Bytes)
    ensures IsChallenge(response) <==> |response| > 4 && response[4] == ChallengeResponse
  {
  }

  /** What one query puts on the wire, and what it resolves with. */
  datatype Exchange = Exchange(sent: seq<Bytes>, outcome: Result<Bytes>)

  /**
   * `solicit(einfo, header, payload)` as a decision on the server's replies: `first` answers the
   * initial request and `second` answers the re-sent one, if the client sends it.
   */
  function Solicit(header: uint8, payload: Option<Bytes>, first: Bytes, second: Bytes): Exchange {
    var request := Pack(header, payload, None);
    if IsChallenge(first) then
      match ReadInt32LE(first, 5)
      case Ok(token) => Exchange([request, Pack(header, payload, Some(token))], Ok(second))
      case Err(e) => Exchange([request], Err(e))
    else
      Exchange([request], Ok(first))
  }

  /**
   * A challenge reply holding a full token makes the client re-send the same request with that token
   * appended, and the query resolves with the reply to that second request.
   */
  lemma SolicitChallenged(header: uint8, payload: Option<Bytes>, first: Bytes, second: Bytes)
    requires |first| >= 9 && first[4] == ChallengeResponse
    ensures ReadInt32LE(first, 5).Ok?
    ensures var token := ReadInt32LE(first, 5).value;
      Solicit(header, payload, first, second)
        == Exchange([Pack(header, payload, None), Pack(header, payload, Some(token))], Ok(second))
  {
    IsChallengeByte(first);
  }

  /** Any other first reply is final: one request is sent and the reply is returned unchanged. */
  lemma SolicitDirect(header: uint8, payload: Option<Bytes>, first: Bytes, second: Bytes)
    requires !(|first| > 4 && first[4] == ChallengeResponse)
    ensures Solicit(header, payload, first, second) == Exchange([Pack(header, payload, None)], Ok(first))
  {
    IsChallengeByte(first);
  }

  /** A challenge reply too short to hold the token makes `readInt32LE(5)` throw after the first request. */
  lemma SolicitTruncatedChallenge(header: uint8, payload: Option<Bytes>, first: Bytes, second: Bytes)
    requires 4 < |first| < 9 && first[4] == ChallengeResponse
    ensures Solicit(header, payload, first, second) == Exchange([Pack(header, payload, None)], Err(RangeError))
  {
    IsChallengeByte(first);
  }

  /** The handshake sends a second request exactly when the first reply is a complete challenge. */
  lemma SolicitSendsTwice(header: uint8, payload: Option<Bytes>, first: Bytes, second: Bytes)
    ensures |Solicit(header, payload, first, second).sent| == 2
      <==> |first| >= 9 && first[4] == ChallengeResponse
  {
    IsChallengeByte(first);
  }

  /** The sender or target of a datagram (Node's `AddressInfo`). */
  datatype AddressInfo = AddressInfo(address: string, family: string, port: int)

  /** `validate(einfo, rinfo, request, response)`: is this datagram the target's reply? */
  function Validate(einfo: AddressInfo, rinfo: AddressInfo, request: Bytes, response: Bytes): (r: bool)
    ensures r <==> rinfo.port == einfo.port && rinfo.address == einfo.address
  {
    if rinfo.port != einfo.port then false
    else if rinfo.address != einfo.address then false
    else true
  }

  /** Only address and port decide: the address family and both payloads are ignored. */
  lemma ValidateIgnoresPayload(einfo: AddressInfo, rinfo: AddressInfo, family: string,
                               request: Bytes, response: Bytes, request': Bytes, response': Bytes)
    ensures Validate(einfo, rinfo, request, response)
      == Validate(einfo.(family := family), rinfo, request', response')
  {
  }

  /** A datagram as the socket's `message` event delivers it. */
  datatype Datagram = Datagram(message: Bytes, rinfo: AddressInfo)

  /**
   * The `message` listener of `send`: datagrams that fail `validate` are ignored, and the first one that
   * passes resolves the request (and removes the listener). Returns its position in the arrival order.
   */
  function Accept(einfo: AddressInfo, request: Bytes, arrivals: seq<Datagram>): (r: Option<nat>)
    ensures r.Some? ==> (
      && r.value < |arrivals|
      && Validate(einfo, arrivals[r.value].rinfo, request, arrivals[r.value].message)
      && forall j :: 0 <= j < r.value ==> !Validate(einfo, arrivals[j].rinfo, request, arrivals[j].message))
    ensures r.None? <==>
      forall j :: 0 <= j < |arrivals| ==> !Validate(einfo, arrivals[j].rinfo, request, arrivals[j].message)
  {
    if arrivals == [] then None
    else if Validate(einfo, arrivals[0].rinfo, request, arrivals[0].message) then Some(0)
    else match Accept(einfo, request, arrivals[1..])
      case None => None
      case Some(i) => Some(i + 1)
  }

  /** The bind options the constructor copies. */
  datatype BindOptions = BindOptions(port: Option<int>, address: Option<string>, exclusive: Option<bool>, fd: Option<int>)

  /** An opaque handle for the UDP socket the client creates lazily. */
  type SocketHandle = nat

  /** The state of a SourceQuerySocket that outlives a query: its bind options and its socket, if any. */
  class SourceQuerySocket {
    var port: Option<int>
    var address: Option<string>
    var exclusive: Option<bool>
    var fd: Option<int>
    var socket: Option<SocketHandle>

    /** Copies each option that is defined; no socket exists yet. */
    constructor (options: BindOptions)
      ensures port == options.port && address == options.address
      ensures exclusive == options.exclusive && fd == options.fd
      ensures socket == None
    {
      port := options.port;
      address := options.address;
      exclusive := options.exclusive;
      fd := options.fd;
      socket := None;
    }

    /** `close()`: forgets the socket (closing it is I/O); the bind options stay. Closing twice is harmless. */
    method Close()
      modifies this`socket
      ensures socket == None
    {
      socket := None;
    }
  }
}
