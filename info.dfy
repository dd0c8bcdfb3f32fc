/**
 * The A2S_INFO decoder of the query client (`info`, index.ts and index.js). The reply is
 * read with a moving `offset` cursor into a `result` record filled field by field: a fixed
 * part (protocol, four strings, id, player counts, server type, environment, visibility,
 * VAC, version) and then an optional trailer whose fields are selected by the bits of an
 * "extra data flag" (EDF) byte. Reads past the end of the buffer throw a RangeError, which
 * here is an `Err(RangeError)` result. Strings stay byte strings.
 */
module InfoResponse {
  import opened Wrappers
  import opened Bytes
  import opened NodeBuffer

  /** JavaScript `v & mask` for a mask below 0x100: only the low eight bits of v's two's complement count. */
  predicate BitSet(v: int, mask: bv8) {
    ((v % 256) as bv8) & mask != 0
  }

  /** Is the bit `mask` set in the raw byte b? */
  predicate Flag(b: uint8, mask: bv8) {
    (b as bv8) & mask != 0
  }

  /** Testing a bit of the signed `readInt8` value is testing the same bit of the raw byte. */
  lemma BitSetOfInt8(b: Bytes, mask: bv8)
    requires |b| > 0
    ensures ReadInt8(b, 0).Ok? && (BitSet(ReadInt8(b, 0).value, mask) <==> Flag(b[0], mask))
  {
    Pow256Values();
    var v := ReadInt8(b, 0).value;
    assert v == ToSigned(UIntLE(b[0..1]), 1);
    assert UIntLE(b[0..1]) == b[0];
    ModInRange(v, 256);
  }

  /** The SourceTV spectator port and name. */
  datatype SourceTv = SourceTv(port: int16, name: Bytes)

  /** The optional fields after `version`; `None` is a property the source never sets. */
  datatype Extra = Extra(
    port: Option<int16>,
    steamId: Option<uint64>,
    tv: Option<SourceTv>,
    keywords: Option<Bytes>,
    gameId: Option<uint64>)

  const NoExtra := Extra(None, None, None, None, None)

  /** An A2S_INFO reply as the source's `result` object holds it. */
  datatype Info = Info(
    header: Bytes,
    protocol: int8,
    name: Bytes,
    mapName: Bytes,
    folder: Bytes,
    game: Bytes,
    id: int16,
    players: int8,
    maxPlayers: int8,
    bots: int8,
    serverType: Bytes,
    environment: Bytes,
    visibility: int8,
    vac: int8,
    version: Bytes,
    extra: Extra)

  /** `result` before any field is set. Every fixed field is overwritten before a reply is returned. */
  const Unset := Info([], 0, [], [], [], [], 0, 0, 0, 0, [], [], 0, 0, [], NoExtra)

  /** The EDF bits, in the order the fields they select follow each other. */
  const PortFlag: bv8 := 0x80
  const SteamIdFlag: bv8 := 0x10
  const SourceTvFlag: bv8 := 0x40
  const KeywordsFlag: bv8 := 0x20
  const GameIdFlag: bv8 := 0x01

  /** The number of bytes a trailer occupies: the EDF byte and every field that is present. */
  function ExtraSize(x: Extra): nat {
    1
      + (if x.port.Some? then 2 else 0)
      + (if x.steamId.Some? then 8 else 0)
      + (if x.tv.Some? then 2 + |x.tv.value.name| + 1 else 0)
      + (if x.keywords.Some? then |x.keywords.value| + 1 else 0)
      + (if x.gameId.Some? then 8 else 0)
  }

  /*
   * The specification: one function per stretch of the reply, each returning the
   * record so far and the cursor after it.
   */

  /** Header byte, protocol and the four strings name, map, folder and game. */
  function InfoHead(query: Bytes): (r: Result<(Info, nat)>)
    ensures r.Ok? <==> |query| >= 6
    ensures r.Err? ==> r.error == RangeError
    ensures r.Ok? ==> r.value.0.extra == NoExtra && |r.value.0.header| == 1
    ensures r.Ok? ==> r.value.1 == 6 + |r.value.0.name| + |r.value.0.mapName| + |r.value.0.folder| + |r.value.0.game| + 4
  {
    var protocol :- ReadInt8(query, 5);
    var name := ReadCString(query, 6);
    var mapName := ReadCString(query, name.1);
    var folder := ReadCString(query, mapName.1);
    var game := ReadCString(query, folder.1);
    Ok((Unset.(header := Slice(query, 4, 5), protocol := protocol, name := name.0, mapName := mapName.0,
               folder := folder.0, game := game.0), game.1))
  }

  /** From `id` to `version`: seven fixed-width reads, two one-byte slices and a string. */
  function InfoFixed(query: Bytes, info: Info, o: nat): (r: Result<(Info, nat)>)
    ensures r.Ok? <==> |query| >= o + 9
    ensures r.Err? ==> r.error == RangeError
    ensures r.Ok? ==> (
      && r.value.0 == info.(id := r.value.0.id, players := r.value.0.players,
                           maxPlayers := r.value.0.maxPlayers, bots := r.value.0.bots,
                           serverType := r.value.0.serverType, environment := r.value.0.environment,
                           visibility := r.value.0.visibility, vac := r.value.0.vac,
                           version := r.value.0.version)
      && |r.value.0.serverType| == 1 && |r.value.0.environment| == 1
      && r.value.1 == o + 9 + |r.value.0.version| + 1)
  {
    var id :- ReadInt16LE(query, o);
    var players :- ReadInt8(query, o + 2);
    var maxPlayers :- ReadInt8(query, o + 3);
    var bots :- ReadInt8(query, o + 4);
    var serverType := Slice(query, o + 5, o + 6);
    var environment := Slice(query, o + 6, o + 7);
    var visibility :- ReadInt8(query, o + 7);
    var vac :- ReadInt8(query, o + 8);
    var version := ReadCString(query, o + 9);
    Ok((info.(id := id, players := players, maxPlayers := maxPlayers, bots := bots, serverType := serverType,
              environment := environment, visibility := visibility, vac := vac, version := version.0),
        version.1))
  }

  /** A 16-bit field read only when its bit is set; returns the field and the cursor after it. */
  function OptionalInt16(b: Bytes, offset: nat, present: bool): (r: Result<(Option<int16>, nat)>)
    ensures r.Err? <==> present && |b| < offset + 2
    ensures r.Err? ==> r.error == RangeError
    ensures r.Ok? ==> (r.value.0.Some? <==> present) && r.value.1 == if present then offset + 2 else offset
  {
    if !present then Ok((None, offset))
    else
      var v :- ReadInt16LE(b, offset);
      Ok((Some(v), offset + 2))
  }

  /** A 64-bit field read only when its bit is set. */
  function OptionalUInt64(b: Bytes, offset: nat, present: bool): (r: Result<(Option<uint64>, nat)>)
    ensures r.Err? <==> present && |b| < offset + 8
    ensures r.Err? ==> r.error == RangeError
    ensures r.Ok? ==> (r.value.0.Some? <==> present) && r.value.1 == if present then offset + 8 else offset
  {
    if !present then Ok((None, offset))
    else
      var v :- ReadBigUInt64LE(b, offset);
      Ok((Some(v), offset + 8))
  }

  /** The spectator port and name, read only when the 0x40 bit is set. */
  function OptionalSourceTv(b: Bytes, offset: nat, present: bool): (r: Result<(Option<SourceTv>, nat)>)
    ensures r.Err? <==> present && |b| < offset + 2
    ensures r.Err? ==> r.error == RangeError
    ensures r.Ok? ==> (
      && (r.value.0.Some? <==> present)
      && r.value.1 == if present then offset + 2 + |r.value.0.value.name| + 1 else offset)
  {
    if !present then Ok((None, offset))
    else
      var port :- ReadInt16LE(b, offset);
      var name := ReadCString(b, offset + 2);
      Ok((Some(SourceTv(port, name.0)), name.1))
  }

  /** The keyword string, read only when the 0x20 bit is set. It cannot throw. */
  function OptionalCString(b: Bytes, offset: nat, present: bool): (r: (Option<Bytes>, nat))
    ensures r.0.Some? <==> present
    ensures r.1 == if present then offset + |r.0.value| + 1 else offset
  {
    if !present then (None, offset)
    else
      var s := ReadCString(b, offset);
      (Some(s.0), s.1)
  }

  /**
   * The trailer `extra = query.slice(offset)`: nothing when it is empty, otherwise the EDF byte and
   * then port, steam id, SourceTV, keywords and game id, each present iff its bit is set.
   * Also returns the trailer cursor at the end.
   */
  function ParseExtra(extra: Bytes): (r: Result<(Extra, nat)>)
    ensures extra == [] ==> r == Ok((NoExtra, 0))
    ensures r.Err? ==> r.error == RangeError
    ensures r.Ok? && extra != [] ==> r.value.1 == ExtraSize(r.value.0)
  {
    if |extra| < 1 then Ok((NoExtra, 0))
    else
      var edf := ReadInt8(extra, 0).value;
      var port :- OptionalInt16(extra, 1, BitSet(edf, PortFlag));
      var steamId :- OptionalUInt64(extra, port.1, BitSet(edf, SteamIdFlag));
      var tv :- OptionalSourceTv(extra, steamId.1, BitSet(edf, SourceTvFlag));
      var keywords := OptionalCString(extra, tv.1, BitSet(edf, KeywordsFlag));
      var gameId :- OptionalUInt64(extra, keywords.1, BitSet(edf, GameIdFlag));
      Ok((Extra(port.0, steamId.0, tv.0, keywords.0, gameId.0), gameId.1))
  }

  /** The trailer's fields, without the cursor. */
  function ExtraOf(extra: Bytes): (r: Result<Extra>)
    ensures r.Err? ==> r.error == RangeError
    ensures extra == [] ==> r == Ok(NoExtra)
  {
    var x :- ParseExtra(extra);
    Ok(x.0)
  }

  /** The whole A2S_INFO decoder as a function of the reply. */
  function ParseInfo(query: Bytes): (r: Result<Info>)
    ensures |query| < 6 ==> r == Err(RangeError)
    ensures r.Err? ==> r.error == RangeError
    ensures r.Ok? ==> |r.value.header| == 1 && |r.value.serverType| == 1 && |r.value.environment| == 1
  {
    var head :- InfoHead(query);
    var fixed :- InfoFixed(query, head.0, head.1);
    var extra :- ExtraOf(SliceFrom(query, fixed.1));
    Ok(fixed.0.(extra := extra))
  }

  /**
   * Each optional field of a decoded trailer is present exactly when its bit is set in the
   * EDF byte, and an empty trailer has none of them.
   */
  lemma ExtraGating(extra: Bytes)
    requires ParseExtra(extra).Ok?
    ensures var x := ParseExtra(extra).value.0;
      && (extra == [] ==> x == NoExtra)
      && (extra != [] ==> (
        && (x.port.Some? <==> Flag(extra[0], PortFlag))
        && (x.steamId.Some? <==> Flag(extra[0], SteamIdFlag))
        && (x.tv.Some? <==> Flag(extra[0], SourceTvFlag))
        && (x.keywords.Some? <==> Flag(extra[0], KeywordsFlag))
        && (x.gameId.Some? <==> Flag(extra[0], GameIdFlag))))
  {
    if extra != [] {
      BitSetOfInt8(extra, PortFlag);
      BitSetOfInt8(extra, SteamIdFlag);
      BitSetOfInt8(extra, SourceTvFlag);
      BitSetOfInt8(extra, KeywordsFlag);
      BitSetOfInt8(extra, GameIdFlag);
    }
  }

  /*
   * The decoder as the source writes it: a cursor that moves over the reply.
   */

  /** Lines filling header to game. */
  method DecodeHead(query: Bytes) returns (r: Result<(Info, nat)>)
    ensures r == InfoHead(query)
  {
    var result := Unset;
    var offset: nat := 4;

    result := result.(header := Slice(query, offset, offset + 1));
    offset := offset + 1;

    var protocol :- ReadInt8(query, offset);
    result := result.(protocol := protocol);
    offset := offset + 1;

    var name := ReadCString(query, offset);
    result := result.(name := name.0);
    offset := name.1;
    var mapName := ReadCString(query, offset);
    result := result.(mapName := mapName.0);
    offset := mapName.1;
    var folder := ReadCString(query, offset);
    result := result.(folder := folder.0);
    offset := folder.1;
    var game := ReadCString(query, offset);
    result := result.(game := game.0);
    offset := game.1;
    return Ok((result, offset));
  }

  /** Lines filling id to version. */
  method DecodeFixed(query: Bytes, info: Info, start: nat) returns (r: Result<(Info, nat)>)
    ensures r == InfoFixed(query, info, start)
  {
    var result := info;
    var offset := start;

    var id :- ReadInt16LE(query, offset);
    result := result.(id := id);
    offset := offset + 2;
    var players :- ReadInt8(query, offset);
    result := result.(players := players);
    offset := offset + 1;
    var maxPlayers :- ReadInt8(query, offset);
    result := result.(maxPlayers := maxPlayers);
    offset := offset + 1;
    var bots :- ReadInt8(query, offset);
    result := result.(bots := bots);
    offset := offset + 1;
    result := result.(serverType := Slice(query, offset, offset + 1));
    offset := offset + 1;
    result := result.(environment := Slice(query, offset, offset + 1));
    offset := offset + 1;
    var visibility :- ReadInt8(query, offset);
    result := result.(visibility := visibility);
    offset := offset + 1;
    var vac :- ReadInt8(query, offset);
    result := result.(vac := vac);
    offset := offset + 1;

    var version := ReadCString(query, offset);
    result := result.(version := version.0);
    offset := version.1;
    return Ok((result, offset));
  }

  /** One `if (edf & mask) { field = readInt16LE(offset); offset += 2 }` block. */
  method DecodeOptionalInt16(b: Bytes, offset: nat, present: bool) returns (r: Result<(Option<int16>, nat)>)
    ensures r == OptionalInt16(b, offset, present)
  {
    if !present {
      return Ok((None, offset));
    }
    var v :- ReadInt16LE(b, offset);
    return Ok((Some(v), offset + 2));
  }

  /** The same block for a `readBigUInt64LE` field. */
  method DecodeOptionalUInt64(b: Bytes, offset: nat, present: bool) returns (r: Result<(Option<uint64>, nat)>)
    ensures r == OptionalUInt64(b, offset, present)
  {
    if !present {
      return Ok((None, offset));
    }
    var v :- ReadBigUInt64LE(b, offset);
    return Ok((Some(v), offset + 8));
  }

  /** The SourceTV block: the port, then the name. */
  method DecodeOptionalSourceTv(b: Bytes, offset: nat, present: bool) returns (r: Result<(Option<SourceTv>, nat)>)
    ensures r == OptionalSourceTv(b, offset, present)
  {
    if !present {
      return Ok((None, offset));
    }
    var port :- ReadInt16LE(b, offset);
    var name := ReadCString(b, offset + 2);
    return Ok((Some(SourceTv(port, name.0)), name.1));
  }

  /** The trailer: the EDF byte, then each optional block in wire order, each moving the cursor. */
  method DecodeExtra(extra: Bytes) returns (r: Result<Extra>)
    ensures r == ExtraOf(extra)
  {
    var offset: nat := 0;
    if |extra| < 1 {
      return Ok(NoExtra);
    }

    var edf := ReadInt8(extra, offset).value;
    offset := offset + 1;

    var port :- DecodeOptionalInt16(extra, offset, BitSet(edf, PortFlag));
    var steamId :- DecodeOptionalUInt64(extra, port.1, BitSet(edf, SteamIdFlag));
    var tv :- DecodeOptionalSourceTv(extra, steamId.1, BitSet(edf, SourceTvFlag));
    var keywords := OptionalCString(extra, tv.1, BitSet(edf, KeywordsFlag));
    var gameId :- DecodeOptionalUInt64(extra, keywords.1, BitSet(edf, GameIdFlag));
    ParseExtraSteps(extra, Extra(port.0, steamId.0, tv.0, keywords.0, gameId.0), port.1, steamId.1, tv.1, keywords.1, gameId.1);
    return Ok(Extra(port.0, steamId.0, tv.0, keywords.0, gameId.0));
  }

  /** `info(address, port)` once the reply is in: the fixed part, then the trailer sliced off after it. */
  method DecodeInfo(query: Bytes) returns (r: Result<Info>)
    ensures r == ParseInfo(query)
  {
    var head :- DecodeHead(query);
    var fixed :- DecodeFixed(query, head.0, head.1);
    var extra := SliceFrom(query, fixed.1);
    var fields :- DecodeExtra(extra);
    return Ok(fixed.0.(extra := fields));
  }

  /*
   * The reply a server sends, as the reference the decoder is checked against.
   */

  /** A string the wire format can carry: it has no NUL byte inside. */
  predicate NulFree(s: Bytes) {
    0 !in s
  }

  predicate WellFormedExtra(x: Extra) {
    && (x.tv.Some? ==> NulFree(x.tv.value.name))
    && (x.keywords.Some? ==> NulFree(x.keywords.value))
  }

  /** A reply record that some byte string decodes to: one-byte slices and NUL-free strings. */
  predicate WellFormedInfo(info: Info) {
    && |info.header| == 1 && |info.serverType| == 1 && |info.environment| == 1
    && NulFree(info.name) && NulFree(info.mapName) && NulFree(info.folder) && NulFree(info.game)
    && NulFree(info.version)
    && WellFormedExtra(info.extra)
  }

  /** The EDF byte with exactly the bits of the fields that are present. */
  function EdfByte(x: Extra): uint8 {
    var bits: bv8 :=
      (if x.port.Some? then PortFlag else 0)
      | (if x.steamId.Some? then SteamIdFlag else 0)
      | (if x.tv.Some? then SourceTvFlag else 0)
      | (if x.keywords.Some? then KeywordsFlag else 0)
      | (if x.gameId.Some? then GameIdFlag else 0);
    bits as int
  }

  lemma EdfByteFlags(x: Extra)
    ensures Flag(EdfByte(x), PortFlag) <==> x.port.Some?
    ensures Flag(EdfByte(x), SteamIdFlag) <==> x.steamId.Some?
    ensures Flag(EdfByte(x), SourceTvFlag) <==> x.tv.Some?
    ensures Flag(EdfByte(x), KeywordsFlag) <==> x.keywords.Some?
    ensures Flag(EdfByte(x), GameIdFlag) <==> x.gameId.Some?
  {
  }

  function CString(s: Bytes): Bytes {
    s + [0]
  }

  function OptionalInt16Bytes(v: Option<int16>): Bytes {
    if v.Some? then IntLEBytes(v.value, 2) else []
  }

  function OptionalUInt64Bytes(v: Option<uint64>): Bytes {
    if v.Some? then UIntLEBytes(v.value, 8) else []
  }

  function OptionalSourceTvBytes(v: Option<SourceTv>): Bytes {
    if v.Some? then IntLEBytes(v.value.port, 2) + CString(v.value.name) else []
  }

  function OptionalCStringBytes(v: Option<Bytes>): Bytes {
    if v.Some? then CString(v.value) else []
  }

  /** A trailer: the EDF byte and the present fields in wire order. */
  function EncodeExtra(x: Extra): (b: Bytes)
    ensures |b| == ExtraSize(x)
  {
    [EdfByte(x)] + OptionalInt16Bytes(x.port) + OptionalUInt64Bytes(x.steamId)
      + OptionalSourceTvBytes(x.tv) + OptionalCStringBytes(x.keywords) + OptionalUInt64Bytes(x.gameId)
  }

  lemma OptionalInt16Written(b: Bytes, p: Bytes, o: nat, present: bool, v: Option<int16>)
    requires p + OptionalInt16Bytes(v) <= b
    requires o == |p| && present == v.Some?
    ensures OptionalInt16(b, o, present) == Ok((v, |p| + |OptionalInt16Bytes(v)|))
  {
    if v.Some? {
      ReadInt16LEAt(b, p, v.value);
    }
  }

  lemma OptionalUInt64Written(b: Bytes, p: Bytes, o: nat, present: bool, v: Option<uint64>)
    requires p + OptionalUInt64Bytes(v) <= b
    requires o == |p| && present == v.Some?
    ensures OptionalUInt64(b, o, present) == Ok((v, |p| + |OptionalUInt64Bytes(v)|))
  {
    if v.Some? {
      ReadBigUInt64LEAt(b, p, v.value);
    }
  }

  lemma SourceTvAt(b: Bytes, p: Bytes, tv: SourceTv)
    requires NulFree(tv.name)
    requires p + OptionalSourceTvBytes(Some(tv)) <= b
    ensures OptionalSourceTv(b, |p|, true) == Ok((Some(tv), |p| + |OptionalSourceTvBytes(Some(tv))|))
  {
    var q := p + IntLEBytes(tv.port, 2);
    Regroup(p, IntLEBytes(tv.port, 2), tv.name);
    PrefixShrink(b, q, tv.name + [0]);
    PrefixShrink(b, p, IntLEBytes(tv.port, 2));
    ReadInt16LEAt(b, p, tv.port);
    ReadCStringAt(b, q, tv.name);
    assert |q| == |p| + 2;
  }

  lemma Regroup(p: Bytes, a: Bytes, s: Bytes)
    ensures p + (a + CString(s)) == p + a + (s + [0]) == p + a + s + [0]
  {
  }

  lemma OptionalSourceTvWritten(b: Bytes, p: Bytes, o: nat, present: bool, v: Option<SourceTv>)
    requires v.Some? ==> NulFree(v.value.name)
    requires p + OptionalSourceTvBytes(v) <= b
    requires o == |p| && present == v.Some?
    ensures OptionalSourceTv(b, o, present) == Ok((v, |p| + |OptionalSourceTvBytes(v)|))
  {
    if v.Some? {
      SourceTvAt(b, p, v.value);
    }
  }

  lemma OptionalCStringWritten(b: Bytes, p: Bytes, o: nat, present: bool, v: Option<Bytes>)
    requires v.Some? ==> NulFree(v.value)
    requires p + OptionalCStringBytes(v) <= b
    requires o == |p| && present == v.Some?
    ensures OptionalCString(b, o, present) == (v, |p| + |OptionalCStringBytes(v)|)
  {
    if v.Some? {
      assert p + OptionalCStringBytes(v) == p + v.value + [0];
      ReadCStringAt(b, p, v.value);
    }
  }

  /** ParseExtra once each step is known: the fields are the steps' fields and the cursor the last step's. */
  lemma ParseExtraSteps(extra: Bytes, x: Extra, o1: nat, o2: nat, o3: nat, o4: nat, o5: nat)
    requires |extra| > 0
    requires var edf := ReadInt8(extra, 0).value;
      && OptionalInt16(extra, 1, BitSet(edf, PortFlag)) == Ok((x.port, o1))
      && OptionalUInt64(extra, o1, BitSet(edf, SteamIdFlag)) == Ok((x.steamId, o2))
      && OptionalSourceTv(extra, o2, BitSet(edf, SourceTvFlag)) == Ok((x.tv, o3))
      && OptionalCString(extra, o3, BitSet(edf, KeywordsFlag)) == (x.keywords, o4)
      && OptionalUInt64(extra, o4, BitSet(edf, GameIdFlag)) == Ok((x.gameId, o5))
    ensures ParseExtra(extra) == Ok((x, o5))
  {
  }

  /** The EDF byte a trailer starts with selects exactly the fields that are present. */
  lemma EncodedEdf(x: Extra)
    ensures var b := EncodeExtra(x); var edf := ReadInt8(b, 0).value;
      && |b| > 0 && b[0] == EdfByte(x)
      && BitSet(edf, PortFlag) == x.port.Some?
      && BitSet(edf, SteamIdFlag) == x.steamId.Some?
      && BitSet(edf, SourceTvFlag) == x.tv.Some?
      && BitSet(edf, KeywordsFlag) == x.keywords.Some?
      && BitSet(edf, GameIdFlag) == x.gameId.Some?
  {
    var b := EncodeExtra(x);
    assert b[0] == EdfByte(x);
    EdfByteFlags(x);
    BitSetOfInt8(b, PortFlag);
    BitSetOfInt8(b, SteamIdFlag);
    BitSetOfInt8(b, SourceTvFlag);
    BitSetOfInt8(b, KeywordsFlag);
    BitSetOfInt8(b, GameIdFlag);
  }

  /**
   * Any buffer that starts with an EDF byte selecting exactly x's fields, followed by those
   * fields in wire order, decodes to x.
   */
  lemma ExtraReadsBack(b: Bytes, x: Extra, edf: int8, p0: Bytes, p1: Bytes, p2: Bytes, p3: Bytes, p4: Bytes)
    requires WellFormedExtra(x)
    requires |b| > 0 && |p0| == 1 && ReadInt8(b, 0) == Ok(edf)
    requires BitSet(edf, PortFlag) == x.port.Some?
    requires BitSet(edf, SteamIdFlag) == x.steamId.Some?
    requires BitSet(edf, SourceTvFlag) == x.tv.Some?
    requires BitSet(edf, KeywordsFlag) == x.keywords.Some?
    requires BitSet(edf, GameIdFlag) == x.gameId.Some?
    requires p1 == p0 + OptionalInt16Bytes(x.port) && p1 <= b
    requires p2 == p1 + OptionalUInt64Bytes(x.steamId) && p2 <= b
    requires p3 == p2 + OptionalSourceTvBytes(x.tv) && p3 <= b
    requires p4 == p3 + OptionalCStringBytes(x.keywords) && p4 <= b
    requires b == p4 + OptionalUInt64Bytes(x.gameId)
    ensures ParseExtra(b) == Ok((x, |b|))
  {
    FrontReadsBack(b, x, edf, p0, p1, p2, p3);
    BackReadsBack(b, x, edf, p3, p4);
    ParseExtraSteps(b, x, |p1|, |p2|, |p3|, |p4|, |b|);
  }

  /** The port, steam id and SourceTV blocks of ExtraReadsBack. */
  lemma FrontReadsBack(b: Bytes, x: Extra, edf: int8, p0: Bytes, p1: Bytes, p2: Bytes, p3: Bytes)
    requires WellFormedExtra(x) && |p0| == 1
    requires BitSet(edf, PortFlag) == x.port.Some?
    requires BitSet(edf, SteamIdFlag) == x.steamId.Some?
    requires BitSet(edf, SourceTvFlag) == x.tv.Some?
    requires p1 == p0 + OptionalInt16Bytes(x.port) && p1 <= b
    requires p2 == p1 + OptionalUInt64Bytes(x.steamId) && p2 <= b
    requires p3 == p2 + OptionalSourceTvBytes(x.tv) && p3 <= b
    ensures OptionalInt16(b, 1, BitSet(edf, PortFlag)) == Ok((x.port, |p1|))
    ensures OptionalUInt64(b, |p1|, BitSet(edf, SteamIdFlag)) == Ok((x.steamId, |p2|))
    ensures OptionalSourceTv(b, |p2|, BitSet(edf, SourceTvFlag)) == Ok((x.tv, |p3|))
  {
    OptionalInt16Written(b, p0, 1, BitSet(edf, PortFlag), x.port);
    OptionalUInt64Written(b, p1, |p1|, BitSet(edf, SteamIdFlag), x.steamId);
    OptionalSourceTvWritten(b, p2, |p2|, BitSet(edf, SourceTvFlag), x.tv);
  }

  /** The keywords and game id blocks of ExtraReadsBack. */
  lemma BackReadsBack(b: Bytes, x: Extra, edf: int8, p3: Bytes, p4: Bytes)
    requires WellFormedExtra(x)
    requires BitSet(edf, KeywordsFlag) == x.keywords.Some?
    requires BitSet(edf, GameIdFlag) == x.gameId.Some?
    requires p4 == p3 + OptionalCStringBytes(x.keywords) && p4 <= b
    requires b == p4 + OptionalUInt64Bytes(x.gameId)
    ensures OptionalCString(b, |p3|, BitSet(edf, KeywordsFlag)) == (x.keywords, |p4|)
    ensures OptionalUInt64(b, |p4|, BitSet(edf, GameIdFlag)) == Ok((x.gameId, |b|))
  {
    OptionalCStringWritten(b, p3, |p3|, BitSet(edf, KeywordsFlag), x.keywords);
    OptionalUInt64Written(b, p4, |p4|, BitSet(edf, GameIdFlag), x.gameId);
  }

  /** Every EDF subset: the trailer decodes back to the fields it was built from, consuming all of it. */
  lemma ExtraRoundTrip(x: Extra)
    requires WellFormedExtra(x)
    ensures ParseExtra(EncodeExtra(x)) == Ok((x, |EncodeExtra(x)|))
  {
    var b := EncodeExtra(x);
    var p0 := [EdfByte(x)];
    var p1 := p0 + OptionalInt16Bytes(x.port);
    var p2 := p1 + OptionalUInt64Bytes(x.steamId);
    var p3 := p2 + OptionalSourceTvBytes(x.tv);
    var p4 := p3 + OptionalCStringBytes(x.keywords);
    assert b == p4 + OptionalUInt64Bytes(x.gameId);
    EncodedEdf(x);
    ExtraReadsBack(b, x, ReadInt8(b, 0).value, p0, p1, p2, p3, p4);
  }

  /** The part of a reply up to and including `game`. */
  function EncodeHead(info: Info): Bytes {
    [0xFF, 0xFF, 0xFF, 0xFF] + info.header + IntLEBytes(info.protocol, 1)
      + info.name + [0] + info.mapName + [0] + info.folder + [0] + info.game + [0]
  }

  /** A reply up to and including `version`: the head, then `id` to `version`. */
  function EncodeBody(info: Info): Bytes {
    EncodeHead(info) + IntLEBytes(info.id, 2) + IntLEBytes(info.players, 1) + IntLEBytes(info.maxPlayers, 1)
      + IntLEBytes(info.bots, 1) + info.serverType + info.environment
      + IntLEBytes(info.visibility, 1) + IntLEBytes(info.vac, 1) + info.version + [0]
  }

  /** A whole A2S_INFO reply with a trailer, which always carries its EDF byte. */
  function EncodeInfo(info: Info): Bytes {
    EncodeBody(info) + EncodeExtra(info.extra)
  }

  /** InfoHead once each read is known. */
  lemma HeadSteps(b: Bytes, info: Info, o2: nat, o3: nat, o4: nat, o5: nat)
    requires Slice(b, 4, 5) == info.header && ReadInt8(b, 5) == Ok(info.protocol)
    requires ReadCString(b, 6) == (info.name, o2)
    requires ReadCString(b, o2) == (info.mapName, o3)
    requires ReadCString(b, o3) == (info.folder, o4)
    requires ReadCString(b, o4) == (info.game, o5)
    ensures InfoHead(b) == Ok((Unset.(header := info.header, protocol := info.protocol, name := info.name,
                                      mapName := info.mapName, folder := info.folder, game := info.game), o5))
  {
  }

  /** Any buffer that starts with the encoded head decodes it. */
  lemma HeadReadsBack(b: Bytes, info: Info, p0: Bytes, p1: Bytes, p2: Bytes, p3: Bytes, p4: Bytes, p5: Bytes)
    requires WellFormedInfo(info)
    requires p0 == [0xFF, 0xFF, 0xFF, 0xFF] + info.header
    requires p1 == p0 + IntLEBytes(info.protocol, 1) && p1 <= b
    requires p2 == p1 + info.name + [0] && p2 <= b
    requires p3 == p2 + info.mapName + [0] && p3 <= b
    requires p4 == p3 + info.folder + [0] && p4 <= b
    requires p5 == p4 + info.game + [0] && p5 <= b
    ensures InfoHead(b) == Ok((Unset.(header := info.header, protocol := info.protocol, name := info.name,
                                      mapName := info.mapName, folder := info.folder, game := info.game), |p5|))
  {
    PrefixShrink(b, p0, IntLEBytes(info.protocol, 1));
    SliceAt(b, [0xFF, 0xFF, 0xFF, 0xFF], info.header);
    ReadInt8At(b, p0, info.protocol);
    ReadCStringAt(b, p1, info.name);
    ReadCStringAt(b, p2, info.mapName);
    ReadCStringAt(b, p3, info.folder);
    ReadCStringAt(b, p4, info.game);
    HeadSteps(b, info, |p2|, |p3|, |p4|, |p5|);
  }

  /** Any buffer with the encoded fixed part at |q0| decodes it, leaving the other fields of the record alone. */
  lemma FixedReadsBack(b: Bytes, info: Info, base: Info, q0: Bytes, q1: Bytes, q2: Bytes, q3: Bytes, q4: Bytes,
                       q5: Bytes, q6: Bytes, q7: Bytes, q8: Bytes, q9: Bytes)
    requires WellFormedInfo(info)
    requires q1 == q0 + IntLEBytes(info.id, 2) && q1 <= b
    requires q2 == q1 + IntLEBytes(info.players, 1) && q2 <= b
    requires q3 == q2 + IntLEBytes(info.maxPlayers, 1) && q3 <= b
    requires q4 == q3 + IntLEBytes(info.bots, 1) && q4 <= b
    requires q5 == q4 + info.serverType && q5 <= b
    requires q6 == q5 + info.environment && q6 <= b
    requires q7 == q6 + IntLEBytes(info.visibility, 1) && q7 <= b
    requires q8 == q7 + IntLEBytes(info.vac, 1) && q8 <= b
    requires q9 == q8 + info.version + [0] && q9 <= b
    ensures InfoFixed(b, base, |q0|) == Ok((base.(id := info.id, players := info.players, maxPlayers := info.maxPlayers,
                                                  bots := info.bots, serverType := info.serverType,
                                                  environment := info.environment, visibility := info.visibility,
                                                  vac := info.vac, version := info.version), |q9|))
  {
    ReadInt16LEAt(b, q0, info.id);
    ReadInt8At(b, q1, info.players);
    ReadInt8At(b, q2, info.maxPlayers);
    ReadInt8At(b, q3, info.bots);
    SliceAt(b, q4, info.serverType);
    SliceAt(b, q5, info.environment);
    ReadInt8At(b, q6, info.visibility);
    ReadInt8At(b, q7, info.vac);
    ReadCStringAt(b, q8, info.version);
  }

  /** ParseInfo once each stage is known. */
  lemma InfoSteps(b: Bytes, head: Info, o1: nat, fixed: Info, o2: nat, x: Extra)
    requires InfoHead(b) == Ok((head, o1))
    requires InfoFixed(b, head, o1) == Ok((fixed, o2))
    requires ExtraOf(SliceFrom(b, o2)) == Ok(x)
    ensures ParseInfo(b) == Ok(fixed.(extra := x))
  {
  }

  /** Any buffer that starts with an encoded body decodes the fields up to `version`. */
  lemma BodyReadsBack(b: Bytes, info: Info)
    requires WellFormedInfo(info)
    requires EncodeBody(info) <= b
    ensures var head := Unset.(header := info.header, protocol := info.protocol, name := info.name,
                               mapName := info.mapName, folder := info.folder, game := info.game);
      && InfoHead(b) == Ok((head, |EncodeHead(info)|))
      && InfoFixed(b, head, |EncodeHead(info)|) == Ok((info.(extra := NoExtra), |EncodeBody(info)|))
  {
    var p0 := [0xFF, 0xFF, 0xFF, 0xFF] + info.header;
    var p1 := p0 + IntLEBytes(info.protocol, 1);
    var p2 := p1 + info.name + [0];
    var p3 := p2 + info.mapName + [0];
    var p4 := p3 + info.folder + [0];
    var p5 := p4 + info.game + [0];
    var q1 := p5 + IntLEBytes(info.id, 2);
    var q2 := q1 + IntLEBytes(info.players, 1);
    var q3 := q2 + IntLEBytes(info.maxPlayers, 1);
    var q4 := q3 + IntLEBytes(info.bots, 1);
    var q5 := q4 + info.serverType;
    var q6 := q5 + info.environment;
    var q7 := q6 + IntLEBytes(info.visibility, 1);
    var q8 := q7 + IntLEBytes(info.vac, 1);
    var q9 := q8 + info.version + [0];
    assert p5 == EncodeHead(info);
    assert q9 == EncodeBody(info);
    PrefixShrink(b, q8 + info.version, [0]);
    PrefixShrink(b, q8, info.version);
    PrefixShrink(b, q7, IntLEBytes(info.vac, 1));
    PrefixShrink(b, q6, IntLEBytes(info.visibility, 1));
    PrefixShrink(b, q5, info.environment);
    PrefixShrink(b, q4, info.serverType);
    PrefixShrink(b, q3, IntLEBytes(info.bots, 1));
    PrefixShrink(b, q2, IntLEBytes(info.maxPlayers, 1));
    PrefixShrink(b, q1, IntLEBytes(info.players, 1));
    PrefixShrink(b, p5, IntLEBytes(info.id, 2));
    PrefixShrink(b, p4 + info.game, [0]);
    PrefixShrink(b, p4, info.game);
    PrefixShrink(b, p3 + info.folder, [0]);
    PrefixShrink(b, p3, info.folder);
    PrefixShrink(b, p2 + info.mapName, [0]);
    PrefixShrink(b, p2, info.mapName);
    PrefixShrink(b, p1 + info.name, [0]);
    PrefixShrink(b, p1, info.name);
    var head := Unset.(header := info.header, protocol := info.protocol, name := info.name,
                       mapName := info.mapName, folder := info.folder, game := info.game);
    HeadReadsBack(b, info, p0, p1, p2, p3, p4, p5);
    FixedReadsBack(b, info, head, p5, q1, q2, q3, q4, q5, q6, q7, q8, q9);
  }

  /** Every well-formed A2S_INFO reply with a trailer decodes to the record it was built from. */
  lemma InfoRoundTrip(info: Info)
    requires WellFormedInfo(info)
    ensures ParseInfo(EncodeInfo(info)) == Ok(info)
  {
    var body := EncodeBody(info);
    var x := EncodeExtra(info.extra);
    var b := EncodeInfo(info);
    PrefixShrink(b, body, x);
    BodyReadsBack(b, info);
    assert SliceFrom(b, |body|) == x;
    ExtraRoundTrip(info.extra);
    var head := Unset.(header := info.header, protocol := info.protocol, name := info.name,
                       mapName := info.mapName, folder := info.folder, game := info.game);
    InfoSteps(b, head, |EncodeHead(info)|, info.(extra := NoExtra), |body|, info.extra);
  }

  /** A reply that ends right after `version` has no trailer: it decodes to the record with no optional field. */
  lemma BareInfoRoundTrip(info: Info)
    requires WellFormedInfo(info) && info.extra == NoExtra
    ensures ParseInfo(EncodeBody(info)) == Ok(info)
  {
    var b := EncodeBody(info);
    BodyReadsBack(b, info);
    assert SliceFrom(b, |b|) == [];
    var head := Unset.(header := info.header, protocol := info.protocol, name := info.name,
                       mapName := info.mapName, folder := info.folder, game := info.game);
    InfoSteps(b, head, |EncodeHead(info)|, info, |b|, NoExtra);
  }
}
