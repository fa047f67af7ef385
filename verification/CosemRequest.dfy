/** The second layer: readers that walk the flat result list of a request by fixed offsets. */
module CosemRequest {
  import opened Bytes
  import opened Wrappers
  import opened AsnGrammar
  import opened AsnSpec
  import AsnParser

  /** A read of the result list; `Outside` is an index past its end. */
  datatype Read<+T> = Got(value: T) | Outside

  /** What the program stores for one attribute of a list request. Times are read only when
      the access selector is set. */
  datatype MethodDesc = MethodDesc(classId: nat, obis: seq<byte>, attr: byte, times: Option<(nat, nat)>)

  /** The descriptors pushed so far, and whether the reader returned true. */
  datatype ListData = ListData(ok: bool, descs: seq<MethodDesc>)

  predicate OccursAt(hay: string, needle: string, i: int) {
    0 <= i && i + |needle| <= |hay| && hay[i..i + |needle|] == needle
  }

  predicate Contains(hay: string, needle: string) {
    exists i | 0 <= i <= |hay| :: OccursAt(hay, needle, i)
  }

  /** Storage beyond an item's bytes is zero. */
  function ByteAt(item: Item, i: nat): byte {
    if i < |item.bytes| then item.bytes[i] else 0
  }

  function Uint16(item: Item): nat {
    ByteAt(item, 0) as int * 256 + ByteAt(item, 1)
  }

  function Obis(item: Item): seq<byte> {
    seq(6, i requires 0 <= i => ByteAt(item, i))
  }

  predicate IsTimeString(item: Item) {
    item.tid == OctetString && |item.bytes| == 12
  }

  function FindItem(rs: seq<Item>, des: string, begin: nat): (pos: int)
    ensures pos == -1 || begin <= pos < |rs|
    ensures pos >= 0 ==> Contains(rs[pos].des, des)
    ensures forall i | begin <= i < (if pos < 0 then |rs| else pos) :: !Contains(rs[i].des, des)
    decreases |rs| - begin
  {
    if begin >= |rs| then -1
    else if Contains(rs[begin].des, des) then begin
    else FindItem(rs, des, begin + 1)
  }

  function OfType(rs: seq<Item>, tid: TypeId): (r: seq<Item>) {
    if rs == [] then []
    else (if rs[0].tid == tid then [rs[0]] else []) + OfType(rs[1..], tid)
  }

  function Selector(rs: seq<Item>): nat {
    var pos := FindItem(rs, "unsigned8", 0);
    if pos == -1 then 0
    else if rs[pos].tid == Unsigned8 then ByteAt(rs[pos], 0)
    else 0
  }

  /** The time `offset` items after the selector: 7 for the start, 8 for the end. */
  function TimeAfterSelector(rs: seq<Item>, offset: nat, toTime: seq<byte> -> nat): Read<nat> {
    var pos := FindItem(rs, "unsigned8", 0);
    if pos == -1 then Got(0)
    else if pos + offset >= |rs| then Outside
    else
      var item := rs[pos + offset];
      if IsTimeString(item) || item.tid == DateTime then Got(toTime(item.bytes)) else Got(0)
  }

  /** The two times from `pos` on, `None` when neither pair of time types is there. */
  function TimesAt(rs: seq<Item>, pos: nat, toTime: seq<byte> -> nat): Read<Option<(nat, nat)>> {
    if pos >= |rs| then Outside
    else if IsTimeString(rs[pos]) && pos + 1 >= |rs| then Outside
    else if IsTimeString(rs[pos]) && IsTimeString(rs[pos + 1]) then
      Got(Some((toTime(rs[pos].bytes), toTime(rs[pos + 1].bytes))))
    else if rs[pos].tid == DateTime then
      if pos + 1 >= |rs| then Outside else Got(Some((toTime(rs[pos].bytes), toTime(rs[pos + 1].bytes))))
    else Got(None)
  }

  /** `count` list entries from `pos` on. */
  function Entries(rs: seq<Item>, pos: nat, count: nat, toTime: seq<byte> -> nat): Read<ListData>
    decreases count
  {
    if count == 0 then Got(ListData(true, []))
    else if pos + 4 > |rs| then Outside
    else
      var desc := MethodDesc(Uint16(rs[pos]), Obis(rs[pos + 1]), ByteAt(rs[pos + 2], 0), None);
      if ByteAt(rs[pos + 3], 0) == 0 then Push(desc, Entries(rs, pos + 4, count - 1, toTime))
      else
        match TimesAt(rs, pos + 11, toTime)
        case Outside => Outside
        case Got(None) => Got(ListData(false, []))
        case Got(Some(times)) => Push(desc.(times := Some(times)), Entries(rs, pos + 14, count - 1, toTime))
  }

  function Push(desc: MethodDesc, r: Read<ListData>): Read<ListData> {
    if r.Outside? then Outside else Got(ListData(r.value.ok, [desc] + r.value.descs))
  }

  function ListEntries(rs: seq<Item>, toTime: seq<byte> -> nat): Read<ListData> {
    var pos := FindItem(rs, "attribute_descriptor_list", 0);
    if pos == -1 then Got(ListData(false, []))
    else Entries(rs, pos + 1, ByteAt(rs[pos], 0), toTime)
  }

  /** Parsing one block after another until the buffer is used up or a parse does not advance. */
  function ParseBlocks(tid: TypeId, s: seq<byte>): (o: Outcome)
    ensures o.Parsed? ==> o.consumed <= |s|
    ensures !o.Rejected?
    decreases |s|
  {
    if s == [] then Parsed(0, [])
    else
      match ParseRoot(tid, s)
      case Parsed(n, items) =>
        if n == 0 then Parsed(0, items) else After(n, items, ParseBlocks(tid, s[n..]))
      case Rejected(items) => Parsed(0, items)
      case OutOfBounds => OutOfBounds
  }

  /** What the readers answer when what they look for is not there: selector 0, time 0, and no
      list. The first item whose description mentions `unsigned8` counts, if it is of that type. */
  lemma WithoutSelector(rs: seq<Item>, offset: nat, toTime: seq<byte> -> nat)
    ensures (forall i | 0 <= i < |rs| :: !Contains(rs[i].des, "unsigned8")) ==>
              Selector(rs) == 0 && TimeAfterSelector(rs, offset, toTime) == Got(0)
    ensures FindItem(rs, "unsigned8", 0) >= 0 && rs[FindItem(rs, "unsigned8", 0)].tid != Unsigned8 ==> Selector(rs) == 0
  {
  }

  /** The item so many places after the selector gives a time exactly if it is a date-time or an
      octet string of twelve bytes, 0 otherwise, and nothing outside the list. */
  lemma TimeExactly(rs: seq<Item>, offset: nat, toTime: seq<byte> -> nat)
    requires FindItem(rs, "unsigned8", 0) >= 0
    ensures var i := FindItem(rs, "unsigned8", 0) + offset;
            TimeAfterSelector(rs, offset, toTime)
            == if i >= |rs| then Outside
               else if rs[i].tid == DateTime || (rs[i].tid == OctetString && |rs[i].bytes| == 12)
               then Got(toTime(rs[i].bytes)) else Got(0)
  {
  }

  lemma WithoutList(rs: seq<Item>, toTime: seq<byte> -> nat)
    requires forall i | 0 <= i < |rs| :: !Contains(rs[i].des, "attribute_descriptor_list")
    ensures ListEntries(rs, toTime) == Got(ListData(false, []))
  {
  }

  function Prepend(descs: seq<MethodDesc>, r: Read<ListData>): Read<ListData> {
    if r.Outside? then Outside else Got(ListData(r.value.ok, descs + r.value.descs))
  }

  lemma PrependPush(descs: seq<MethodDesc>, desc: MethodDesc, r: Read<ListData>)
    ensures Prepend(descs, Push(desc, r)) == Prepend(descs + [desc], r)
  {
    if r.Got? { assert descs + ([desc] + r.value.descs) == descs + [desc] + r.value.descs; }
  }

  lemma PrependNothing(descs: seq<MethodDesc>, r: Read<ListData>)
    ensures Prepend([], r) == r
    ensures r.Got? && r.value.descs == [] ==> Prepend(descs, r) == Got(ListData(r.value.ok, descs))
  {
    if r.Got? { assert [] + r.value.descs == r.value.descs; }
    assert descs + [] == descs;
  }

  lemma OfTypeNone(tid: TypeId)
    ensures OfType([], tid) == []
  {
  }

  lemma OfTypeStep(rs: seq<Item>, tid: TypeId, i: nat)
    requires i < |rs|
    ensures OfType(rs[i..], tid) == (if rs[i].tid == tid then [rs[i]] else []) + OfType(rs[i + 1..], tid)
  {
    assert rs[i..][0] == rs[i] && rs[i..][1..] == rs[i + 1..];
  }

  lemma PduHasRule()
    ensures !RuleOf(CosemPdu, "").NoRule?
  {
  }

  class Request {
    var results: seq<Item>

    constructor ()
      ensures results == []
    {
      results := [];
    }

    /** Returns the parser's return value; `inside` is false after a read outside the buffer
        and where the grammar table has no parser to call. */
    method ParseBlock(buf: seq<byte>, root: TypeId) returns (inside: bool, code: int)
      modifies this
      ensures match ParseRoot(root, buf)
              case Parsed(n, items) => inside && code == n && results == old(results) + items
              case Rejected(items) => inside && code == -1 && results == old(results) + items
              case OutOfBounds => !inside
    {
      hide RuleOf, Parse, AsnParser.Agrees;
      if RuleOf(root, "").NoRule? { return false, 0; }
      var parser := new AsnParser.Parser();
      parser.results := results;
      var r := parser.Parse(root, "", buf);
      AsnParser.AgreesCases(Parse(root, "", buf), r, results, parser.results);
      if r == AsnParser.Undefined { return false, 0; }
      results := parser.results;
      return true, r.code;
    }

    /** Clears the list, then parses one PDU, which must use up the whole buffer. */
    method ParseRequest(buf: seq<byte>) returns (inside: bool, ok: bool)
      modifies this
      ensures match Parse(CosemPdu, "", buf)
              case Parsed(n, items) => inside && ok == (n == |buf|) && results == items
              case Rejected(items) => inside && !ok && results == items
              case OutOfBounds => !inside
    {
      hide Parse, RuleOf;
      PduHasRule();
      results := [];
      var code;
      inside, code := ParseBlock(buf, CosemPdu);
      ghost var o := Parse(CosemPdu, "", buf);
      if !o.OutOfBounds? { assert [] + o.items == o.items; }
      ok := inside && code >= |buf|;
    }

    method ParseBlockLoop(buf: seq<byte>, root: TypeId) returns (inside: bool, pos: int)
      modifies this
      ensures match ParseBlocks(root, buf)
              case Parsed(n, items) => inside && pos == n && results == old(results) + items
              case Rejected(items) => false
              case OutOfBounds => !inside
    {
      hide ParseRoot;
      inside, pos := true, 0;
      ghost var goal := After(0, results, ParseBlocks(root, buf));
      assert buf[pos..] == buf;
      while pos < |buf|
        invariant 0 <= pos <= |buf| && inside
        invariant goal == After(pos, results, ParseBlocks(root, buf[pos..]))
      {
        ghost var o, before := ParseRoot(root, buf[pos..]), results;
        var code;
        inside, code := ParseBlock(buf[pos..], root);
        if !inside { return; }
        if code <= 0 { break; }
        AsnParser.AfterAfter(pos, before, code, o.items, ParseBlocks(root, buf[pos..][code..]));
        assert buf[pos..][code..] == buf[pos + code..];
        pos := pos + code;
      }
      assert results + [] == results;
    }

    method Find(des: string, begin: nat) returns (pos: int)
      ensures pos == FindItem(results, des, begin)
    {
      pos := begin;
      while pos < |results|
        invariant begin <= pos
        invariant FindItem(results, des, begin) == FindItem(results, des, pos)
        decreases |results| - pos
      {
        var hit := ContainsAt(results[pos].des, des);
        if hit { return; }
        pos := pos + 1;
      }
      return -1;
    }

    static method ContainsAt(hay: string, needle: string) returns (found: bool)
      ensures found == Contains(hay, needle)
    {
      var i := 0;
      while i + |needle| <= |hay|
        invariant 0 <= i
        invariant forall k | 0 <= k < i :: !OccursAt(hay, needle, k)
      {
        if hay[i..i + |needle|] == needle {
          assert OccursAt(hay, needle, i);
          return true;
        }
        i := i + 1;
      }
      return false;
    }

    method ExtractResults(tid: TypeId) returns (found: bool, rs: seq<Item>)
      ensures rs == OfType(results, tid)
      ensures found == (rs != [])
    {
      hide OfType;
      rs := [];
      var i := 0;
      assert results[i..] == results && [] + OfType(results, tid) == OfType(results, tid);
      OfTypeNone(tid);
      while i < |results|
        invariant 0 <= i <= |results|
        invariant OfType(results, tid) == rs + OfType(results[i..], tid)
      {
        OfTypeStep(results, tid, i);
        ghost var rest := OfType(results[i + 1..], tid);
        assert rs + ([results[i]] + rest) == rs + [results[i]] + rest && [] + rest == rest;
        if results[i].tid == tid { rs := rs + [results[i]]; }
        i := i + 1;
      }
      assert results[i..] == [] && rs + [] == rs;
      found := |rs| > 0;
    }

    method IsAccessSelector() returns (selector: nat)
      ensures selector == Selector(results)
    {
      var pos := Find("unsigned8", 0);
      if pos == -1 { return 0; }
      if results[pos].tid == Unsigned8 { return ByteAt(results[pos], 0); }
      return 0;
    }

    method GetTime(offset: nat, toTime: seq<byte> -> nat) returns (t: Read<nat>)
      ensures t == TimeAfterSelector(results, offset, toTime)
    {
      var pos := Find("unsigned8", 0);
      if pos == -1 { return Got(0); }
      if pos + offset >= |results| { return Outside; }
      var item := results[pos + offset];
      if item.tid == OctetString && |item.bytes| == 12 { return Got(toTime(item.bytes)); }
      if item.tid == DateTime { return Got(toTime(item.bytes)); }
      return Got(0);
    }

    method GetListData(toTime: seq<byte> -> nat) returns (inside: bool, ok: bool, descs: seq<MethodDesc>)
      ensures match ListEntries(results, toTime)
              case Got(data) => inside && ok == data.ok && descs == data.descs
              case Outside => !inside
    {
      hide TimesAt, Obis, Uint16, ByteAt, FindItem;
      inside, ok, descs := true, false, [];
      var pos := Find("attribute_descriptor_list", 0);
      if pos == -1 { return; }
      var count := ByteAt(results[pos], 0);
      pos := pos + 1;
      ghost var goal := Entries(results, pos, count, toTime);
      PrependNothing([], goal);
      var i := 0;
      while i < count
        invariant 0 <= i <= count && 0 <= pos
        invariant goal == Prepend(descs, Entries(results, pos, count - i, toTime))
      {
        ghost var rest := Entries(results, pos, count - i, toTime);
        PrependNothing(descs, rest);
        if pos + 4 > |results| { return false, false, descs; }
        var desc := MethodDesc(Uint16(results[pos]), Obis(results[pos + 1]), ByteAt(results[pos + 2], 0), None);
        var selected := ByteAt(results[pos + 3], 0) != 0;
        pos := pos + 4;
        if selected {
          pos := pos + 7;
          var times := ReadTimes(pos, toTime);
          if times == Outside { return false, false, descs; }
          if times.value == None { return true, false, descs; }
          desc := desc.(times := times.value);
          pos := pos + 3;
        }
        PrependPush(descs, desc, Entries(results, pos, count - i - 1, toTime));
        descs := descs + [desc];
        i := i + 1;
      }
      PrependNothing(descs, Entries(results, pos, 0, toTime));
      return true, true, descs;
    }

    method ReadTimes(pos: nat, toTime: seq<byte> -> nat) returns (times: Read<Option<(nat, nat)>>)
      ensures times == TimesAt(results, pos, toTime)
    {
      if pos >= |results| { return Outside; }
      var first := IsTimeString(results[pos]);
      if first && pos + 1 >= |results| { return Outside; }
      if first && IsTimeString(results[pos + 1]) {
        return Got(Some((toTime(results[pos].bytes), toTime(results[pos + 1].bytes))));
      }
      if results[pos].tid == DateTime {
        if pos + 1 >= |results| { return Outside; }
        return Got(Some((toTime(results[pos].bytes), toTime(results[pos + 1].bytes))));
      }
      return Got(None);
    }
  }
}
