/** What the parser makes of encodings that are not well formed. */
module Malformed {
  import opened Bytes
  import opened AsnGrammar
  import opened AsnSpec
  import opened CosemData
  import opened GetRequests

  /** Exactly the length octets 133 to 255 are refused, and a length is read outside the buffer
      exactly where its octets end. */
  lemma LengthExactly(s: seq<byte>)
    ensures ParseLength(s).BadLength? <==> s != [] && s[0] > 132
    ensures ParseLength(s).LengthOutOfBounds? <==> s == [] || (128 < s[0] <= 132 && |s| < s[0] - 127)
  {
  }

  /** A simple value that is cut off after its tag and length octets is rejected, and leaves no
      item. */
  lemma CutOffLeaf(v: Value, k: nat)
    requires WellFormed(v) && !v.Many? && |Encode(v)| < 0x8000_0000
    requires LeafHead(v) <= k < |Encode(v)|
    ensures Parse(Data, "", Encode(v)[..k]) == Rejected([])
  {
    hide Parse, RuleOf, DataRule, Encode, LeafHead, WellFormed;
    var s := Encode(v)[..k];
    NonEmpty(v);
    HeadIsNotEmpty(v);
    DataStep(s);
    assert s[0] == v.tag;
    if v.Fixed? { CutOffFixed(v, k); } else { CutOffUnfixed(v, k); }
  }

  lemma HeadIsNotEmpty(v: Value)
    requires WellFormed(v) && !v.Many?
    ensures LeafHead(v) >= 1
  {
  }

  lemma CutOffFixed(v: Value, k: nat)
    requires WellFormed(v) && v.Fixed? && 1 <= k < |Encode(v)|
    ensures Parse(DataType(v.tag), "", Encode(v)[..k][1..]) == Rejected([])
  {
    DataTable(v.tag);
    hide Parse, RuleOf, DataRule, DataType;
    ShortFixed(DataType(v.tag), Encode(v)[..k][1..]);
  }

  lemma CutOffUnfixed(v: Value, k: nat)
    requires WellFormed(v) && v.Unfixed? && LeafHead(v) <= k < |Encode(v)| < 0x8000_0000
    ensures Parse(DataType(v.tag), "", Encode(v)[..k][1..]) == Rejected([])
  {
    DataTable(v.tag);
    hide Parse, RuleOf, DataRule, DataType, ParseLength, EncodeLength, Fits;
    var part := v.content[..k - LeafHead(v)];
    LengthRoundTrip(v.form, |v.content|, part);
    assert Encode(v)[..k][1..] == EncodeLength(v.form, |v.content|) + part;
    ShortUnfixed(DataType(v.tag), Encode(v)[..k][1..], |EncodeLength(v.form, |v.content|)|, |v.content|);
  }

  /** The tag and length octets of a simple value. */
  function LeafHead(v: Value): nat
    requires WellFormed(v) && !v.Many?
  {
    if v.Fixed? then 1 else 1 + |EncodeLength(v.form, |v.content|)|
  }

  lemma DataStep(s: seq<byte>)
    requires s != []
    ensures Parse(Data, "", s) == After(1, [], Parse(DataType(s[0]), "", s[1..]))
  {
    DataChoice();
    hide RuleOf;
    ParseIsBuf(Data, s);
    ChoiceStep(RuleOf(Data, ""), Rank(Data), s[0], s[1..]);
    assert [s[0]] + s[1..] == s;
  }

  lemma ShortFixed(tid: TypeId, s: seq<byte>)
    requires RuleOf(tid, "").FixedLength? && |s| < RuleOf(tid, "").length
    ensures Parse(tid, "", s) == Rejected([])
  {
    hide RuleOf;
  }

  lemma ShortUnfixed(tid: TypeId, s: seq<byte>, octets: nat, length: nat)
    requires RuleOf(tid, "").UnfixedLength? && ParseLength(s) == Length(octets, length)
    requires |s| < octets + length < 0x8000_0000
    ensures Parse(tid, "", s) == Rejected([])
  {
    hide RuleOf, ParseLength;
  }

  /** An element that is rejected does not make its array rejected: the -1 it returns is added to
      the position, so the parser returns one byte less than tag and count take. */
  lemma FailedElementAccepted(s: seq<byte>, items: seq<Item>)
    requires s != [] && Parse(Data, "", s) == Rejected(items)
    ensures Parse(Data, "", [1] + ([1] + s))
         == Parsed(1, [Item(SequenceOfArray, "sequence_of_array", [0, 0, 0, 1])] + items)
  {
    hide Parse, RuleOf, DataRule, Rank;
    var body := [1] + s;
    assert ([1] + body)[1..] == body;
    DataStep([1] + body);
    assert body[1..] == s;
    OneElementList(body, items);
    assert [] + ([Item(SequenceOfArray, "sequence_of_array", [0, 0, 0, 1])] + items)
        == [Item(SequenceOfArray, "sequence_of_array", [0, 0, 0, 1])] + items;
  }

  lemma OneElementList(body: seq<byte>, items: seq<Item>)
    requires |body| > 1 && body[0] == 1 && Parse(Data, "", body[1..]) == Rejected(items)
    ensures Parse(DataType(1), "", body)
         == Parsed(0, [Item(SequenceOfArray, "sequence_of_array", [0, 0, 0, 1])] + items)
  {
    DataTable(1);
    hide RuleOf, Parse;
    ParseIsBuf(DataType(1), body);
    FailedElement(body, Rank(DataType(1)), items);
    OneAsCount();
  }

  lemma FailedElement(body: seq<byte>, rank: nat, items: seq<Item>)
    requires |body| > 1 && Rank(Data) < rank && Parse(Data, "", body[1..]) == Rejected(items)
    ensures ParseElements(body, 1, 1, rank) == Parsed(0, items)
  {
    hide RuleOf, Parse;
    assert items + [] == items;
  }

  /** Elements that are missing at the end of the buffer are not missed: the list is accepted with
      those that are there. */
  lemma {:induction false} MissingElementsAccepted(before: seq<byte>, vs: seq<Value>, count: nat, rank: nat)
    requires (forall e <- vs :: WellFormed(e)) && |vs| <= count && before != []
    requires |before| + |EncodeAll(vs)| < 0x8000_0000 && Rank(Data) < rank
    ensures ParseElements(before + EncodeAll(vs), |before|, count, rank)
         == Parsed(|before| + |EncodeAll(vs)|, FlattenAll(vs))
    decreases |vs|
  {
    hide RuleOf, DataRule, Flatten, Encode, WellFormed, Parse, ParseElements, FlattenAll, EncodeAll;
    NoElements(vs);
    if vs == [] {
      assert before + [] == before;
      AtTheEnd(before, count, rank);
    } else {
      var first, more := Encode(vs[0]), EncodeAll(vs[1..]);
      var s := before + (first + more);
      NonEmpty(vs[0]);
      assert s[|before|..] == first + more;
      ParseEncoding(vs[0], more);
      assert s == (before + first) + more;
      MissingElementsAccepted(before + first, vs[1..], count - 1, rank);
      OneElement(s, |before|, count, rank, |first|, Flatten(vs[0]));
    }
  }

  lemma NoElements(vs: seq<Value>)
    requires forall e <- vs :: WellFormed(e)
    ensures vs == [] ==> EncodeAll(vs) == [] && FlattenAll(vs) == []
    ensures vs != [] ==>
      EncodeAll(vs) == Encode(vs[0]) + EncodeAll(vs[1..]) && FlattenAll(vs) == Flatten(vs[0]) + FlattenAll(vs[1..])
  {
    hide Encode, Flatten, WellFormed;
  }

  lemma AtTheEnd(s: seq<byte>, count: nat, rank: nat)
    requires Rank(Data) < rank
    ensures ParseElements(s, |s|, count, rank) == Parsed(|s|, [])
  {
    hide RuleOf, Parse;
  }

  /** A selective-access flag other than 0 and 1 is listed but not stepped over. */
  lemma OtherFlagIsNotSkipped(d: Descriptor, flag: byte, rest: seq<byte>, rank: nat)
    requires d.Valid() && flag > 1 && |rest| < 0x1000_0000
    requires Rank(Data) < rank && Rank(CosemAttributeDescriptor) < rank
    ensures ParseDescriptors(EncodeDescriptor(d) + ([flag] + rest), 0, 1, rank)
         == Parsed(9, DescriptorItems(d) + [Item(SelectiveAccessDescriptor, "selective_access_descriptor", [flag])])
  {
    FlagItem(flag);
    hide RuleOf, Parse, Reads, EncodeDescriptor, DescriptorItems, SelectionItem;
    var s := EncodeDescriptor(d) + ([flag] + rest);
    ReadsDescriptor(d);
    UseReads(CosemAttributeDescriptor, EncodeDescriptor(d), DescriptorItems(d), [flag] + rest);
    assert s[0..] == s && s[9] == flag;
    FlagListed(s, rank);
    OneDescriptor(s, rank);
  }

  lemma FlagItem(flag: byte)
    ensures SelectionItem(flag) == Item(SelectiveAccessDescriptor, "selective_access_descriptor", [flag])
  {
  }

  lemma FlagListed(s: seq<byte>, rank: nat)
    requires |s| > 9 && s[9] > 1 && Rank(Data) < rank && Rank(CosemAttributeDescriptor) < rank
    ensures ParseSelection(s, 9, 1, rank) == Parsed(9, [SelectionItem(s[9])])
  {
    hide RuleOf, Parse, SelectionItem;
    assert [SelectionItem(s[9])] + [] == [SelectionItem(s[9])];
  }

  lemma OneDescriptor(s: seq<byte>, rank: nat)
    requires |s| > 9 && Rank(Data) < rank && Rank(CosemAttributeDescriptor) < rank
    ensures var o := Parse(CosemAttributeDescriptor, "", s[0..]);
            o.Parsed? && o.consumed == 9 ==>
              ParseDescriptors(s, 0, 1, rank) == After(0, o.items, ParseSelection(s, 9, 1, rank))
  {
    hide RuleOf, Parse, ParseSelection;
  }

  /** A GET request of an unknown kind is rejected, with the item of its first octet. */
  lemma UnknownGet(choice: byte, rest: seq<byte>)
    requires choice > 3
    ensures Parse(CosemPdu, "", [192] + ([choice] + rest)) == Rejected([Item(CosemPdu, "cosem_pdu", [192])])
  {
    hide RuleOf, Parse, Rank;
    RuleOfPdu();
    RuleOfGet();
    ParseIsBuf(CosemPdu, [192] + ([choice] + rest));
    ChoiceStep(RuleOf(CosemPdu, ""), Rank(CosemPdu), 192, [choice] + rest);
    ParseIsBuf(GetRequest, [choice] + rest);
    Refused(RuleOf(GetRequest, ""), Rank(GetRequest), [choice] + rest);
  }

  lemma Refused(r: Rule, rank: nat, s: seq<byte>)
    requires r.Choice? && s != [] && s[0] >= |r.alternatives|
    ensures ParseBuf(r, rank, s) == Rejected([])
  {
    hide RuleOf;
  }

  /** A normal GET request that ends before the octet for selective access is read past its end. */
  lemma MissingFlag(invoke: byte, d: Descriptor)
    requires d.Valid()
    ensures Parse(GetRequestNormal, "", [invoke] + EncodeDescriptor(d)) == OutOfBounds
  {
    hide RuleOf, DataRule, Reads, Optional, AllBelow, Rank, EncodeDescriptor, DescriptorItems, ParseParts, ParsePart,
      Parse;
    var r, rank, e := NORMAL_RULE, Rank(GetRequestNormal), EncodeDescriptor(d);
    RuleOfNormal();
    RuleOfInvokeId();
    Masks();
    ReadsFixed(InvokeIdAndPriority, "invoke_id_and_priority", [invoke]);
    ReadsDescriptor(d);
    UseReads(InvokeIdAndPriority, [invoke], [InvokeItem(invoke)], e);
    UseReads(CosemAttributeDescriptor, e, DescriptorItems(d), []);
    SequenceStep(GetRequestNormal, r, [invoke] + e);
    FlagStep(r, 0, rank, 0, [invoke] + e);
    PartStep(r, 0, rank, [invoke], e, [InvokeItem(invoke)]);
    FlagStep(r, 1, rank, 0, e);
    assert e + [] == e;
    PartStep(r, 1, rank, e, [], DescriptorItems(d));
    NoFlag(r, 2, rank);
  }

  lemma NoFlag(r: Rule, i: nat, rank: nat)
    requires r.Sequence? && i < |r.parts| && AllBelow(r.parts, rank) && Optional(r.optionMask, i)
    ensures ParseParts(r.parts, r.optionMask, r.prefix, i, rank, []) == OutOfBounds
  {
    hide RuleOf, AllBelow, Optional, ParsePart;
  }

  // The number in an item's description

  /** The number that decimal digits write. */
  function NumberOf(s: string): nat {
    if s == "" then 0 else 10 * NumberOf(s[..|s| - 1]) + DigitOf(s[|s| - 1])
  }

  function DigitOf(c: char): nat {
    if '0' <= c <= '9' then c as int - '0' as int else 0
  }

  lemma {:induction false} DecimalWrites(n: nat)
    ensures NumberOf(Decimal(n)) == n
  {
    var digits := "0123456789";
    LastDigit(n % 10);
    if n < 10 {
      assert Decimal(n) == [digits[n]];
      assert [digits[n]][..0] == "";
    } else {
      DecimalWrites(n / 10);
      var s := Decimal(n);
      assert s == Decimal(n / 10) + [digits[n % 10]];
      assert s[..|s| - 1] == Decimal(n / 10);
    }
  }

  lemma LastDigit(d: nat)
    requires d < 10
    ensures DigitOf("0123456789"[d]) == d
  {
    var digits := "0123456789";
    assert digits[0] == '0' && digits[1] == '1' && digits[2] == '2' && digits[3] == '3' && digits[4] == '4';
    assert digits[5] == '5' && digits[6] == '6' && digits[7] == '7' && digits[8] == '8' && digits[9] == '9';
  }
}
