/**
 * The A2S_PLAYER decoder of the query client (`players`, index.ts and index.js): a signed
 * count byte, then that many records of index, NUL-terminated name, score and duration,
 * read with a moving cursor and pushed onto `result` in order. A negative count gives no
 * records; a read past the end throws a RangeError, which here is an `Err(RangeError)` result.
 */
module PlayerResponse {
  import opened Wrappers
  import opened Bytes
  import opened NodeBuffer
  import opened RecordLoop

  /** One player record. The duration is a 32-bit float, kept as its four raw bytes. */
  datatype Player = Player(index: int8, name: Bytes, score: int32, duration: Bytes)

  /** The loop body: one record at offset o, and the cursor after it. */
  function ReadPlayer(q: Bytes, o: nat): (r: Result<(Player, nat)>)
    ensures r.Err? ==> r.error == RangeError
    ensures r.Ok? ==> r.value.1 == o + 1 + |r.value.0.name| + 1 + 8 <= |q|
    ensures r.Ok? ==> 0 !in r.value.0.name && |r.value.0.duration| == 4
  {
    var index :- ReadInt8(q, o);
    var name := ReadCString(q, o + 1);
    var score :- ReadInt32LE(q, name.1);
    var duration :- ReadFloatLE(q, name.1 + 4);
    Ok((Player(index, name.0, score, duration), name.1 + 8))
  }

  /** The first n records from offset o, in wire order, and the cursor after them. */
  function PlayerRecords(q: Bytes, o: nat, n: nat): (r: Result<(seq<Player>, nat)>)
    ensures r.Err? ==> r.error == RangeError
    ensures r.Ok? ==> |r.value.0| == n && o <= r.value.1
    ensures r.Ok? && n > 0 ==> r.value.1 <= |q|
  {
    if n == 0 then Ok(([], o))
    else
      var prev :- PlayerRecords(q, o, n - 1);
      var player :- ReadPlayer(q, prev.1);
      Ok((prev.0 + [player.0], player.1))
  }

  /** The whole A2S_PLAYER decoder as a function of the reply. */
  function ParsePlayers(q: Bytes): (r: Result<seq<Player>>)
    ensures r.Err? ==> r.error == RangeError
    ensures |q| < 6 ==> r == Err(RangeError)
    ensures r.Ok? ==> |q| >= 6 && |r.value| == Iterations(ReadInt8(q, 5).value)
  {
    var count :- ReadInt8(q, 5);
    var records :- PlayerRecords(q, 6, Iterations(count));
    Ok(records.0)
  }

  /** Once a record fails to decode, so does every longer run of records. */
  lemma {:induction false} PlayerRecordsFail(q: Bytes, o: nat, i: nat, n: nat)
    requires i <= n && PlayerRecords(q, o, i).Err?
    ensures PlayerRecords(q, o, n).Err?
    decreases n - i
  {
    if i < n {
      PlayerRecordsFail(q, o, i + 1, n);
    }
  }

  /** A zero or negative count: no records, whatever follows the count byte. */
  lemma NoPlayers(q: Bytes)
    requires |q| >= 6 && ReadInt8(q, 5).value <= 0
    ensures ParsePlayers(q) == Ok([])
  {
  }

  /** One more record after the first n. */
  lemma PlayerRecordsSnoc(q: Bytes, o: nat, n: nat, ps: seq<Player>, o1: nat, player: Player, o2: nat)
    requires PlayerRecords(q, o, n) == Ok((ps, o1))
    requires ReadPlayer(q, o1) == Ok((player, o2))
    ensures PlayerRecords(q, o, n + 1) == Ok((ps + [player], o2))
  {
  }

  /** A record that fails inside the loop fails the whole reply. */
  lemma PlayersFail(q: Bytes, i: nat, ps: seq<Player>, o: nat)
    requires ReadInt8(q, 5).Ok? && i < Iterations(ReadInt8(q, 5).value)
    requires PlayerRecords(q, 6, i) == Ok((ps, o)) && ReadPlayer(q, o).Err?
    ensures ParsePlayers(q) == Err(RangeError)
  {
    PlayerRecordsFail(q, 6, i + 1, Iterations(ReadInt8(q, 5).value));
  }

  /** After the last iteration the records read are the reply's. */
  lemma PlayersDone(q: Bytes, count: int8, ps: seq<Player>, o: nat)
    requires ReadInt8(q, 5) == Ok(count)
    requires PlayerRecords(q, 6, Iterations(count)) == Ok((ps, o))
    ensures ParsePlayers(q) == Ok(ps)
  {
  }

  /** The loop body: one record read field by field. */
  method DecodePlayer(q: Bytes, start: nat) returns (r: Result<(Player, nat)>)
    ensures r == ReadPlayer(q, start)
  {
    var offset := start;
    var index :- ReadInt8(q, offset);
    offset := offset + 1;
    var name := ReadCString(q, offset);
    offset := name.1;
    var score :- ReadInt32LE(q, offset);
    offset := offset + 4;
    var duration :- ReadFloatLE(q, offset);
    offset := offset + 4;
    return Ok((Player(index, name.0, score, duration), offset));
  }

  /** `players(address, port)` once the reply is in: a `for` loop that pushes one record per iteration. */
  method DecodePlayers(q: Bytes) returns (r: Result<seq<Player>>)
    ensures r == ParsePlayers(q)
  {
    var offset: nat := 5;
    var count :- ReadInt8(q, offset);
    offset := offset + 1;

    var result: seq<Player> := [];
    var i := 0;
    while i < count
      invariant 0 <= i <= Iterations(count)
      invariant PlayerRecords(q, 6, i) == Ok((result, offset))
    {
      if ReadPlayer(q, offset).Err? {
        PlayersFail(q, i, result, offset);
      }
      var player :- DecodePlayer(q, offset);
      PlayerRecordsSnoc(q, 6, i, result, offset, player.0, player.1);
      result := result + [player.0];
      offset := player.1;
      i := i + 1;
    }
    assert i == Iterations(count);
    PlayersDone(q, count, result, offset);
    return Ok(result);
  }

  /* The reply a server sends, as the reference the decoder is checked against. */

  /** A record some bytes decode to: a NUL-free name and a four-byte duration. */
  predicate WellFormedPlayer(p: Player) {
    0 !in p.name && |p.duration| == 4
  }

  function EncodePlayer(p: Player): Bytes {
    IntLEBytes(p.index, 1) + p.name + [0] + IntLEBytes(p.score, 4) + p.duration
  }

  function EncodePlayerRecords(ps: seq<Player>): Bytes {
    if ps == [] then [] else EncodePlayerRecords(ps[..|ps| - 1]) + EncodePlayer(ps[|ps| - 1])
  }

  /** An A2S_PLAYER reply: marker, kind byte 'D', count and the records. */
  function EncodePlayers(ps: seq<Player>): Bytes
    requires |ps| < 0x80
  {
    [0xFF, 0xFF, 0xFF, 0xFF, 0x44] + IntLEBytes(|ps|, 1) + EncodePlayerRecords(ps)
  }

  lemma PlayerAt(b: Bytes, p: Bytes, player: Player)
    requires WellFormedPlayer(player)
    requires p + EncodePlayer(player) <= b
    ensures ReadPlayer(b, |p|) == Ok((player, |p + EncodePlayer(player)|))
  {
    var p1 := p + IntLEBytes(player.index, 1);
    var p2 := p1 + player.name + [0];
    var p3 := p2 + IntLEBytes(player.score, 4);
    assert p + EncodePlayer(player) == p3 + player.duration;
    PrefixShrink(b, p3, player.duration);
    PrefixShrink(b, p2, IntLEBytes(player.score, 4));
    PrefixShrink(b, p1 + player.name, [0]);
    PrefixShrink(b, p1, player.name);
    PrefixShrink(b, p, IntLEBytes(player.index, 1));
    ReadInt8At(b, p, player.index);
    ReadCStringAt(b, p1, player.name);
    ReadInt32LEAt(b, p2, player.score);
    ReadFloatLEAt(b, p3, player.duration);
  }

  /** Any buffer holding encoded records right after a prefix p decodes them all, in order. */
  lemma {:induction false} PlayerRecordsAt(b: Bytes, p: Bytes, ps: seq<Player>)
    requires forall i :: 0 <= i < |ps| ==> WellFormedPlayer(ps[i])
    requires p + EncodePlayerRecords(ps) <= b
    ensures PlayerRecords(b, |p|, |ps|) == Ok((ps, |p + EncodePlayerRecords(ps)|))
  {
    if ps != [] {
      var init, last := ps[..|ps| - 1], ps[|ps| - 1];
      var q := p + EncodePlayerRecords(init);
      assert p + EncodePlayerRecords(ps) == q + EncodePlayer(last);
      PrefixShrink(b, q, EncodePlayer(last));
      PlayerRecordsAt(b, p, init);
      PlayerAt(b, q, last);
      SnocSplit(ps);
    }
  }

  /** Up to 127 well-formed records survive encoding and decoding unchanged. */
  lemma PlayersRoundTrip(ps: seq<Player>)
    requires |ps| < 0x80
    requires forall i :: 0 <= i < |ps| ==> WellFormedPlayer(ps[i])
    ensures ParsePlayers(EncodePlayers(ps)) == Ok(ps)
  {
    var b := EncodePlayers(ps);
    var p := [0xFF, 0xFF, 0xFF, 0xFF, 0x44] + IntLEBytes(|ps|, 1);
    PrefixShrink(b, p, EncodePlayerRecords(ps));
    PrefixShrink(b, [0xFF, 0xFF, 0xFF, 0xFF, 0x44], IntLEBytes(|ps|, 1));
    ReadInt8At(b, [0xFF, 0xFF, 0xFF, 0xFF, 0x44], |ps|);
    PlayerRecordsAt(b, p, ps);
  }
}
