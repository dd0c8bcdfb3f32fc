/**
 * The A2S_RULES decoder of the query client (`rules`, index.ts and index.js): a 32-bit
 * header whose value -2 marks a split reply the client does not support, a kind byte that
 * is skipped, a signed 16-bit count, then that many name/value pairs of NUL-terminated
 * strings. The string reads never throw, so once the count is in, the decoder succeeds.
 */
module RuleResponse {
  import opened Wrappers
  import opened Bytes
  import opened NodeBuffer
  import opened RecordLoop

  datatype Rule = Rule(name: Bytes, value: Bytes)

  /** The loop body: a name and a value at offset o, and the cursor after both. */
  function ReadRule(q: Bytes, o: nat): (r: (Rule, nat))
    ensures r.1 == o + |r.0.name| + 1 + |r.0.value| + 1
    ensures 0 !in r.0.name && 0 !in r.0.value
  {
    var name := ReadCString(q, o);
    var value := ReadCString(q, name.1);
    (Rule(name.0, value.0), value.1)
  }

  /** The first n pairs from offset o, in wire order, and the cursor after them. */
  function RuleRecords(q: Bytes, o: nat, n: nat): (r: (seq<Rule>, nat))
    ensures |r.0| == n && o + 2 * n <= r.1
  {
    if n == 0 then ([], o)
    else
      var prev := RuleRecords(q, o, n - 1);
      var rule := ReadRule(q, prev.1);
      (prev.0 + [rule.0], rule.1)
  }

  /** The whole A2S_RULES decoder as a function of the reply. */
  function ParseRules(q: Bytes): (r: Result<seq<Rule>>)
    ensures |q| < 4 ==> r == Err(RangeError)
    ensures r == Err(UnsupportedResponse) <==> ReadInt32LE(q, 0) == Ok(-2)
    ensures r.Ok? <==> |q| >= 7 && ReadInt32LE(q, 0) != Ok(-2)
    ensures r.Ok? ==> |r.value| == Iterations(ReadInt16LE(q, 5).value)
  {
    var header :- ReadInt32LE(q, 0);
    if header == -2 then Err(UnsupportedResponse)
    else
      var count :- ReadInt16LE(q, 5);
      Ok(RuleRecords(q, 7, Iterations(count)).0)
  }

  /** The header reads as -2 exactly when the reply starts with the bytes FE FF FF FF. */
  lemma SplitHeader(q: Bytes)
    requires |q| >= 4
    ensures ReadInt32LE(q, 0) == Ok(-2) <==> q[..4] == [0xFE, 0xFF, 0xFF, 0xFF]
  {
    Pow256Values();
    var marker: Bytes := [0xFE, 0xFF, 0xFF, 0xFF];
    assert UIntLEBytes(0xFF, 1) == [0xFF] + UIntLEBytes(0, 0);
    assert UIntLEBytes(0xFF_FFFF, 3) == [0xFF] + UIntLEBytes(0xFFFF, 2);
    assert UIntLEBytes(0xFFFF_FFFE, 4) == marker;
    UIntLERoundTrip(0xFFFF_FFFE, 4);
    assert q[0..0 + 4] == q[..4];
    if ReadInt32LE(q, 0) == Ok(-2) {
      UIntLEBytesOfUIntLE(q[..4]);
    }
  }

  /** Past the end of the reply every pair decodes as two empty strings and the cursor moves by two. */
  lemma RuleAfterEnd(q: Bytes, o: nat)
    requires o >= |q|
    ensures ReadRule(q, o) == (Rule([], []), o + 2)
  {
    ReadCStringUnterminated(q, o);
    ReadCStringUnterminated(q, o + 1);
  }

  /** One more pair after the first n. */
  lemma RuleRecordsSnoc(q: Bytes, o: nat, n: nat, rs: seq<Rule>, o1: nat, rule: Rule, o2: nat)
    requires RuleRecords(q, o, n) == (rs, o1)
    requires ReadRule(q, o1) == (rule, o2)
    ensures RuleRecords(q, o, n + 1) == (rs + [rule], o2)
  {
  }

  /** After the last iteration the pairs read are the reply's. */
  lemma RulesDone(q: Bytes, count: int16, rs: seq<Rule>, o: nat)
    requires ReadInt32LE(q, 0).Ok? && ReadInt32LE(q, 0) != Ok(-2)
    requires ReadInt16LE(q, 5) == Ok(count)
    requires RuleRecords(q, 7, Iterations(count)) == (rs, o)
    ensures ParseRules(q) == Ok(rs)
  {
  }

  /** The loop body: a name, then a value, each moving the cursor past its terminator. */
  method DecodeRule(q: Bytes, start: nat) returns (rule: Rule, offset: nat)
    ensures (rule, offset) == ReadRule(q, start)
  {
    offset := start;
    var name := ReadCString(q, offset);
    offset := name.1;
    var value := ReadCString(q, offset);
    offset := value.1;
    rule := Rule(name.0, value.0);
  }

  /** `rules(address, port)` once the reply is in: a `for` loop that pushes one pair per iteration. */
  method DecodeRules(q: Bytes) returns (r: Result<seq<Rule>>)
    ensures r == ParseRules(q)
  {
    var offset: nat := 0;
    var header :- ReadInt32LE(q, offset);
    if header == -2 {
      return Err(UnsupportedResponse);
    }
    offset := offset + 4;
    offset := offset + 1;
    var count :- ReadInt16LE(q, offset);
    offset := offset + 2;

    var result: seq<Rule> := [];
    var i := 0;
    while i < count
      invariant 0 <= i <= Iterations(count)
      invariant RuleRecords(q, 7, i) == (result, offset)
    {
      var rule, next := DecodeRule(q, offset);
      RuleRecordsSnoc(q, 7, i, result, offset, rule, next);
      result := result + [rule];
      offset := next;
      i := i + 1;
    }
    assert i == Iterations(count);
    RulesDone(q, count, result, offset);
    return Ok(result);
  }

  /* The reply a server sends, as the reference the decoder is checked against. */

  predicate WellFormedRule(rule: Rule) {
    0 !in rule.name && 0 !in rule.value
  }

  function EncodeRule(rule: Rule): Bytes {
    rule.name + [0] + rule.value + [0]
  }

  function EncodeRuleRecords(rs: seq<Rule>): Bytes {
    if rs == [] then [] else EncodeRuleRecords(rs[..|rs| - 1]) + EncodeRule(rs[|rs| - 1])
  }

  /** An A2S_RULES reply: the single-packet header -1, kind byte 'E', count and the pairs. */
  function EncodeRules(rs: seq<Rule>): Bytes
    requires |rs| < 0x8000
  {
    IntLEBytes(-1, 4) + [0x45] + IntLEBytes(|rs|, 2) + EncodeRuleRecords(rs)
  }

  lemma RuleAt(b: Bytes, p: Bytes, rule: Rule)
    requires WellFormedRule(rule)
    requires p + EncodeRule(rule) <= b
    ensures ReadRule(b, |p|) == (rule, |p + EncodeRule(rule)|)
  {
    var p1 := p + rule.name + [0];
    assert p + EncodeRule(rule) == p1 + rule.value + [0];
    PrefixShrink(b, p1 + rule.value, [0]);
    PrefixShrink(b, p1, rule.value);
    ReadCStringAt(b, p, rule.name);
    ReadCStringAt(b, p1, rule.value);
  }

  /** Any buffer holding encoded pairs right after a prefix p decodes them all, in order. */
  lemma {:induction false} RuleRecordsAt(b: Bytes, p: Bytes, rs: seq<Rule>)
    requires forall i :: 0 <= i < |rs| ==> WellFormedRule(rs[i])
    requires p + EncodeRuleRecords(rs) <= b
    ensures RuleRecords(b, |p|, |rs|) == (rs, |p + EncodeRuleRecords(rs)|)
  {
    if rs != [] {
      var init, last := rs[..|rs| - 1], rs[|rs| - 1];
      var q := p + EncodeRuleRecords(init);
      assert p + EncodeRuleRecords(rs) == q + EncodeRule(last);
      PrefixShrink(b, q, EncodeRule(last));
      RuleRecordsAt(b, p, init);
      RuleAt(b, q, last);
      SnocSplit(rs);
    }
  }

  /** Up to 32767 well-formed pairs survive encoding and decoding unchanged. */
  lemma RulesRoundTrip(rs: seq<Rule>)
    requires |rs| < 0x8000
    requires forall i :: 0 <= i < |rs| ==> WellFormedRule(rs[i])
    ensures ParseRules(EncodeRules(rs)) == Ok(rs)
  {
    var b := EncodeRules(rs);
    var p0 := IntLEBytes(-1, 4) + [0x45];
    var p := p0 + IntLEBytes(|rs|, 2);
    PrefixShrink(b, p, EncodeRuleRecords(rs));
    PrefixShrink(b, p0, IntLEBytes(|rs|, 2));
    PrefixShrink(b, IntLEBytes(-1, 4), [0x45]);
    assert [] + IntLEBytes(-1, 4) == IntLEBytes(-1, 4);
    ReadInt32LEAt(b, [], -1);
    ReadInt16LEAt(b, p0, |rs|);
    RuleRecordsAt(b, p, rs);
  }
}
