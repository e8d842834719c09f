/** The item list of a Read Var or Write Var job, as the server decodes it. */
module VarSpecs {
  import opened Octets
  import opened Message

  const SPEC_TYPE: byte := 0x12
  const SYNTAX_S7ANY: byte := 0x10
  const SYNTAX_DBREAD: byte := 0xB0
  const ANY_BODY_SIZE := 10

  type u24 = v: int | 0 <= v < 0x100_0000

  /** One item. Syntaxes other than S7ANY leave the address fields zero. */
  datatype VarSpec = VarSpec(syntax: byte, transport: byte, count: u16, db: u16, area: byte, startBit: u24)

  /** One range of a DBREAD item. */
  datatype DBRange = DBRange(length: byte, db: u16, start: u16)

  //
  // The layout: an item is the specification type, a length byte and a body of that length.
  //

  function SyntaxOf(body: bytes): byte {
    if body == [] then 0 else body[0]
  }

  /** The bodies a job may hold: S7ANY has a fixed length, DBREAD one set by its number of ranges. */
  predicate ValidBody(body: bytes) {
    && |body| < 0x100
    && (SyntaxOf(body) == SYNTAX_S7ANY ==> |body| == ANY_BODY_SIZE)
    && (SyntaxOf(body) == SYNTAX_DBREAD ==> |body| >= 2 && body[1] > 0 && |body| == 2 + 5 * (body[1] as int))
  }

  predicate AllValid(bodies: seq<bytes>) {
    forall i :: 0 <= i < |bodies| ==> ValidBody(bodies[i])
  }

  function SpecOf(body: bytes): VarSpec
    requires ValidBody(body)
  {
    if SyntaxOf(body) == SYNTAX_S7ANY then
      VarSpec(SYNTAX_S7ANY, body[1], U16(body, 2), U16(body, 4), body[6],
              (body[7] as int) * 0x1_0000 + (body[8] as int) * 0x100 + body[9])
    else
      VarSpec(SyntaxOf(body), 0, 0, 0, 0, 0)
  }

  function RangeAt(body: bytes, i: nat): DBRange
    requires 2 + 5 * (i + 1) <= |body|
  {
    var at := 2 + 5 * i;
    DBRange(body[at], U16(body, at + 1), U16(body, at + 3))
  }

  /** The ranges of a DBREAD body; none for any other syntax. */
  function RangesOf(body: bytes): seq<DBRange>
    requires ValidBody(body)
  {
    if SyntaxOf(body) == SYNTAX_DBREAD then
      seq(body[1], i requires 0 <= i < body[1] as int => RangeAt(body, i))
    else
      []
  }

  function SpecsOf(bodies: seq<bytes>): seq<VarSpec>
    requires AllValid(bodies)
  {
    seq(|bodies|, i requires 0 <= i < |bodies| => SpecOf(bodies[i]))
  }

  function AllRangesOf(bodies: seq<bytes>): seq<seq<DBRange>>
    requires AllValid(bodies)
  {
    seq(|bodies|, i requires 0 <= i < |bodies| => RangesOf(bodies[i]))
  }

  function Item(body: bytes): bytes
    requires |body| < 0x100
  {
    var head: bytes := [SPEC_TYPE, |body|];
    head + body
  }

  function JoinItems(bodies: seq<bytes>): bytes
    requires AllValid(bodies)
  {
    if bodies == [] then [] else Item(bodies[0]) + JoinItems(bodies[1..])
  }

  /** The reference: param is the function code, an item count and exactly that many valid items. */
  ghost predicate WellFormed(param: bytes, fn: byte, bodies: seq<bytes>) {
    && 0 < |bodies| < 0x100
    && AllValid(bodies)
    && param == [fn, |bodies|] + JoinItems(bodies)
  }

  //
  // The decoder.
  //

  /** Cuts n items off param from an offset, behind those already done; the last must end the section. */
  function SplitFrom(param: bytes, off: nat, n: nat, done: seq<bytes>): Option<seq<bytes>>
    requires off <= |param|
    decreases n
  {
    if n == 0 then (if off == |param| then Some(done) else None)
    else if off + 2 > |param| || param[off] != SPEC_TYPE then None
    else
      var end := off + 2 + param[off + 1];
      if end > |param| || !ValidBody(param[off + 2..end]) then None
      else SplitFrom(param, end, n - 1, done + [param[off + 2..end]])
  }

  function ParseBodies(param: bytes, fn: byte): Option<seq<bytes>> {
    if |param| < 2 || param[0] != fn || param[1] == 0 then None else SplitFrom(param, 2, param[1], [])
  }

  lemma {:induction false} SplitSound(param: bytes, off: nat, n: nat, done: seq<bytes>) returns (bodies: seq<bytes>)
    requires off <= |param| && SplitFrom(param, off, n, done).Some?
    ensures SplitFrom(param, off, n, done).value == done + bodies
    ensures |bodies| == n && AllValid(bodies) && param[off..] == JoinItems(bodies)
    decreases n
  {
    if n == 0 {
      bodies := [];
    } else {
      var end := off + 2 + param[off + 1];
      var body := param[off + 2..end];
      var rest := SplitSound(param, end, n - 1, done + [body]);
      bodies := [body] + rest;
      assert param[off..] == Item(body) + param[end..];
    }
  }

  lemma ItemParts(body: bytes, rest: bytes)
    requires |body| < 0x100
    ensures var s := Item(body) + rest;
      && |s| == 2 + |body| + |rest| && s[0] == SPEC_TYPE && s[1] as int == |body|
      && s[2..2 + |body|] == body && s[2 + |body|..] == rest
  {
  }

  /** The item at an offset where a join of items begins. */
  lemma ItemAt(param: bytes, off: nat, bodies: seq<bytes>)
    requires off <= |param| && bodies != [] && AllValid(bodies)
    requires param[off..] == JoinItems(bodies)
    ensures off + 2 + |bodies[0]| <= |param|
    ensures param[off] == SPEC_TYPE && param[off + 1] as int == |bodies[0]|
    ensures param[off + 2..off + 2 + |bodies[0]|] == bodies[0]
    ensures param[off + 2 + |bodies[0]|..] == JoinItems(bodies[1..])
  {
    hide Item;
    var s, n := param[off..], |bodies[0]|;
    ItemParts(bodies[0], JoinItems(bodies[1..]));
    assert s == Item(bodies[0]) + JoinItems(bodies[1..]);
    assert param[off] == s[0] && param[off + 1] == s[1];
    assert param[off + 2..off + 2 + n] == s[2..2 + n];
    assert param[off + 2 + n..] == s[2 + n..];
  }

  lemma {:induction false} SplitComplete(param: bytes, off: nat, done: seq<bytes>, bodies: seq<bytes>)
    requires off <= |param| && AllValid(bodies) && param[off..] == JoinItems(bodies)
    ensures SplitFrom(param, off, |bodies|, done) == Some(done + bodies)
    decreases |bodies|
  {
    hide ValidBody;
    if bodies == [] {
      assert done + bodies == done;
    } else {
      ItemAt(param, off, bodies);
      SplitComplete(param, off + 2 + |bodies[0]|, done + [bodies[0]], bodies[1..]);
      assert done + [bodies[0]] + bodies[1..] == done + bodies;
    }
  }

  /** The decoder accepts exactly the well-formed parameter sections, and finds their items. */
  lemma ParseIffWellFormed(param: bytes, fn: byte, bodies: seq<bytes>)
    ensures ParseBodies(param, fn) == Some(bodies) <==> WellFormed(param, fn, bodies)
  {
    if ParseBodies(param, fn).Some? {
      var split := SplitSound(param, 2, param[1], []);
      assert [] + split == split;
      assert param == [param[0], param[1]] + param[2..];
    }
    if WellFormed(param, fn, bodies) {
      assert param[2..] == JoinItems(bodies);
      SplitComplete(param, 2, [], bodies);
      assert [] + bodies == bodies;
    }
  }

  /** A list with one item is decoded exactly when its body is a 10-byte S7ANY one, a DBREAD one with that many 5-byte
      ranges, at least one, or of another syntax. */
  lemma OneItemAccepted(fn: byte, body: bytes)
    requires |body| < 0x100
    ensures ParseBodies([fn, 1, 0x12, |body|] + body, fn).Some? <==>
      || body == [] || body[0] !in {0x10, 0xB0}
      || (body[0] == 0x10 && |body| == 10)
      || (body[0] == 0xB0 && |body| >= 7 && |body| == 2 + 5 * (body[1] as int))
  {
    var param := [fn, 1, 0x12, |body|] + body;
    assert param[4..] == body;
  }

  function RangeOctets(ranges: seq<DBRange>): (r: bytes)
    ensures |r| == 5 * |ranges|
  {
    if ranges == [] then []
    else
      var init, last := ranges[..|ranges| - 1], ranges[|ranges| - 1];
      RangeOctets(init)
      + [last.length, last.db / 0x100, last.db % 0x100, last.start / 0x100, last.start % 0x100]
  }

  /** The body of a DBREAD item: the syntax, how many ranges, and length, data block and start byte of each. */
  function DbReadBody(ranges: seq<DBRange>): bytes
    requires |ranges| <= 50
  {
    [0xB0, |ranges|] + RangeOctets(ranges)
  }

  lemma {:induction false} RangeInPlace(ranges: seq<DBRange>, i: nat)
    requires i < |ranges|
    ensures RangeOctets(ranges)[5 * i..5 * i + 5]
         == [ranges[i].length, ranges[i].db / 0x100, ranges[i].db % 0x100, ranges[i].start / 0x100,
             ranges[i].start % 0x100]
    decreases |ranges|
  {
    var n := |ranges| - 1;
    var init, all := RangeOctets(ranges[..n]), RangeOctets(ranges);
    if i < n {
      RangeInPlace(ranges[..n], i);
      assert all[5 * i..5 * i + 5] == init[5 * i..5 * i + 5];
    }
  }

  /** The server decodes such a body to exactly those ranges. */
  lemma DbReadBodyDecodes(ranges: seq<DBRange>)
    requires 0 < |ranges| <= 50
    ensures ValidBody(DbReadBody(ranges)) && RangesOf(DbReadBody(ranges)) == ranges
  {
    var body := DbReadBody(ranges);
    forall i | 0 <= i < |ranges| ensures RangeAt(body, i) == ranges[i] {
      RangeInPlace(ranges, i);
      var five := RangeOctets(ranges)[5 * i..5 * i + 5];
      assert forall j :: 0 <= j < 5 ==> body[2 + 5 * i + j] == five[j];
      assert body[2 + 5 * i] == five[0] && body[2 + 5 * i + 1] == five[1] && body[2 + 5 * i + 2] == five[2];
    }
  }

  /** The decoded specifications of a job; None for a malformed one. */
  function ParsedSpecs(param: bytes, fn: byte): Option<seq<VarSpec>> {
    match ParseBodies(param, fn)
    case None => None
    case Some(bodies) => ParseIffWellFormed(param, fn, bodies); Some(SpecsOf(bodies))
  }

  /** The decoded DBREAD ranges of a Read Var job, one list per item. */
  function ParsedRanges(param: bytes): Option<seq<seq<DBRange>>> {
    match ParseBodies(param, FUNC_READ)
    case None => None
    case Some(bodies) => ParseIffWellFormed(param, FUNC_READ, bodies); Some(AllRangesOf(bodies))
  }

  /** Decodes the ranges of a DBREAD item body. */
  method ParseDBRead(body: bytes) returns (r: Option<seq<DBRange>>)
    requires |body| < 0x100 && SyntaxOf(body) == SYNTAX_DBREAD
    ensures r.Some? <==> ValidBody(body)
    ensures r.Some? ==> r.value == RangesOf(body)
  {
    if |body| < 2 {
      return None;
    }
    var n := body[1] as int;
    if n == 0 || |body| != 2 + n * 5 {
      return None;
    }
    var out: seq<DBRange> := [];
    for i := 0 to n
      invariant |out| == i && forall j :: 0 <= j < i ==> out[j] == RangeAt(body, j)
    {
      var at := 2 + i * 5;
      out := out + [DBRange(body[at], U16(body, at + 1), U16(body, at + 3))];
    }
    assert out == RangesOf(body);
    return Some(out);
  }

  /** Decodes one item body; None when it is malformed. */
  method ParseItem(body: bytes) returns (r: Option<VarSpec>)
    requires |body| < 0x100
    ensures r.Some? <==> ValidBody(body)
    ensures r.Some? ==> r.value == SpecOf(body)
  {
    var spec := VarSpec(if |body| >= 1 then body[0] else 0, 0, 0, 0, 0, 0);
    if spec.syntax == SYNTAX_S7ANY {
      if |body| != ANY_BODY_SIZE {
        return None;
      }
      spec := VarSpec(SYNTAX_S7ANY, body[1], U16(body, 2), U16(body, 4), body[6],
                      (body[7] as int) * 0x1_0000 + (body[8] as int) * 0x100 + body[9]);
    }
    if spec.syntax == SYNTAX_DBREAD {
      var ranges := ParseDBRead(body);
      if ranges.None? {
        return None;
      }
    }
    return Some(spec);
  }

  /** Decodes the item list of a job. */
  method ParseVarSpecs(param: bytes, fn: byte) returns (r: Option<seq<VarSpec>>)
    ensures r == ParsedSpecs(param, fn)
  {
    hide ValidBody, SpecOf;
    if |param| < 2 || param[0] != fn || param[1] == 0 {
      return None;
    }
    var n := param[1] as int;
    var specs: seq<VarSpec> := [];
    var off := 2;
    ghost var done: seq<bytes> := [];
    for i := 0 to n
      invariant off <= |param|
      invariant AllValid(done) && specs == SpecsOf(done)
      invariant ParseBodies(param, fn) == SplitFrom(param, off, n - i, done)
    {
      if off + 2 > |param| || param[off] != SPEC_TYPE {
        return None;
      }
      var end := off + 2 + param[off + 1];
      if end > |param| {
        return None;
      }
      var spec := ParseItem(param[off + 2..end]);
      if spec.None? {
        return None;
      }
      specs := specs + [spec.value];
      done := done + [param[off + 2..end]];
      off := end;
    }
    if off != |param| {
      return None;
    }
    return Some(specs);
  }

  lemma {:induction false} SplitKeepsDone(param: bytes, off: nat, n: nat, done: seq<bytes>)
    requires off <= |param| && SplitFrom(param, off, n, done).Some?
    ensures var all := SplitFrom(param, off, n, done).value;
            |all| == |done| + n && forall j :: 0 <= j < |done| ==> all[j] == done[j]
    decreases n
  {
    if n > 0 {
      var end := off + 2 + param[off + 1];
      SplitKeepsDone(param, end, n - 1, done + [param[off + 2..end]]);
    }
  }

  lemma SpecSyntax(body: bytes)
    requires ValidBody(body)
    ensures SpecOf(body).syntax == SyntaxOf(body)
    ensures SyntaxOf(body) != SYNTAX_DBREAD ==> RangesOf(body) == []
  {
  }

  /** One round of the second pass: the next item is the one the first pass found there. */
  lemma SplitStep(param: bytes, off: nat, n: nat, done: seq<bytes>)
    requires off <= |param| && n > 0 && SplitFrom(param, off, n, done).Some?
    ensures off + 2 <= |param| && off + 2 + param[off + 1] <= |param|
    ensures var end := off + 2 + param[off + 1];
      var body := param[off + 2..end];
      var all := SplitFrom(param, off, n, done).value;
      && ValidBody(body) && SplitFrom(param, end, n - 1, done + [body]) == Some(all)
      && |done| < |all| && all[|done|] == body
  {
    hide ValidBody;
    var end := off + 2 + param[off + 1];
    SplitKeepsDone(param, end, n - 1, done + [param[off + 2..end]]);
  }

  lemma RangesSnoc(done: seq<bytes>, body: bytes)
    requires AllValid(done) && ValidBody(body)
    ensures AllValid(done + [body]) && AllRangesOf(done + [body]) == AllRangesOf(done) + [RangesOf(body)]
  {
    hide ValidBody, RangesOf;
  }

  lemma FoundSpecs(param: bytes)
    requires ParsedSpecs(param, FUNC_READ).Some?
    ensures |param| >= 2 && SplitFrom(param, 2, param[1], []).Some? && AllValid([]) && AllRangesOf([]) == []
    ensures var all, specs := SplitFrom(param, 2, param[1], []).value, ParsedSpecs(param, FUNC_READ).value;
      && |all| == |specs| == param[1] as int && AllValid(all) && ParsedRanges(param) == Some(AllRangesOf(all))
      && forall i :: 0 <= i < |all| ==> specs[i] == SpecOf(all[i])
  {
    hide ValidBody, SpecOf, RangesOf;
    SplitKeepsDone(param, 2, param[1], []);
    ParseIffWellFormed(param, FUNC_READ, ParseBodies(param, FUNC_READ).value);
  }

  /** Decodes, per item of a Read Var job, the ranges of a DBREAD item and none for any other item. */
  method ParseReadVarDBRead(param: bytes) returns (r: Option<seq<seq<DBRange>>>)
    ensures r == ParsedRanges(param)
  {
    hide RangesOf, SpecOf, ValidBody, SplitFrom, AllRangesOf;
    var specs := ParseVarSpecs(param, FUNC_READ);
    if specs.None? {
      return None;
    }
    FoundSpecs(param);
    ghost var bodies := SplitFrom(param, 2, param[1], []).value;
    ghost var done: seq<bytes> := [];
    var out: seq<seq<DBRange>> := [];
    var off := 2;
    for i := 0 to |specs.value|
      invariant off <= |param| && |done| == i && done == bodies[..i]
      invariant SplitFrom(param, off, |specs.value| - i, done) == Some(bodies)
      invariant AllValid(done) && out == AllRangesOf(done)
    {
      SplitStep(param, off, |specs.value| - i, done);
      var end := off + 2 + param[off + 1];
      ghost var body := param[off + 2..end];
      SpecSyntax(body);
      RangesSnoc(done, body);
      done := done + [body];
      var ranges: seq<DBRange> := [];
      if specs.value[i].syntax == SYNTAX_DBREAD {
        var parsed := ParseDBRead(param[off + 2..end]);
        ranges := parsed.value;
      }
      out := out + [ranges];
      off := end;
    }
    assert done == bodies;
    return Some(out);
  }

  /** Ranges come with exactly the items the item list calls DBREAD, at most 50 to an item. */
  lemma RangesAtDBReadItems(param: bytes)
    ensures ParsedRanges(param).Some? <==> ParsedSpecs(param, FUNC_READ).Some?
    ensures ParsedRanges(param).Some? ==>
      var specs, ranges := ParsedSpecs(param, FUNC_READ).value, ParsedRanges(param).value;
      && 0 < |specs| < 0x100 && |ranges| == |specs|
      && forall i :: 0 <= i < |specs| ==>
           (ranges[i] != [] <==> specs[i].syntax == SYNTAX_DBREAD) && |ranges[i]| <= 50
  {
    if ParseBodies(param, FUNC_READ).Some? {
      var bodies := ParseBodies(param, FUNC_READ).value;
      ParseIffWellFormed(param, FUNC_READ, bodies);
      forall i | 0 <= i < |bodies|
        ensures RangesOf(bodies[i]) != [] <==> SpecOf(bodies[i]).syntax == SYNTAX_DBREAD
        ensures |RangesOf(bodies[i])| <= 50
      {
        assert ValidBody(bodies[i]);
      }
    }
  }
}
