/** GET requests on the wire, and the proof that parser and readers agree about them. */
module GetRequests {
  import opened Bytes
  import opened Wrappers
  import opened AsnGrammar
  import opened AsnSpec
  import opened CosemData
  import opened CosemRequest
  import AsnParser
  import opened FlatList

  datatype Descriptor = Descriptor(classId: nat, obis: seq<byte>, attr: byte) {
    predicate Valid() {
      classId < 0x1_0000 && |obis| == 6
    }
  }

  /** `flag` is the presence octet; any value but 0 announces a selector and its parameters. */
  datatype Access = NoAccess | Selected(flag: byte, selector: byte, parameters: Value)

  predicate ValidAccess(a: Access) {
    a.Selected? ==> a.flag != 0 && WellFormed(a.parameters)
  }

  function EncodeDescriptor(d: Descriptor): (s: seq<byte>)
    requires d.Valid()
    ensures |s| == 9
  {
    Octets(d.classId, 2) + (d.obis + [d.attr])
  }

  function DescriptorItems(d: Descriptor): (items: seq<Item>)
    requires d.Valid()
    ensures |items| == 3
  {
    [Item(CosemClassId, "cosem_class_id", Octets(d.classId, 2))] +
    ([Item(CosemObjectInstanceId, "cosem_object_instance_id", d.obis)] +
     [Item(CosemObjectAttributeId, "cosem_object_attribute_id", [d.attr])])
  }

  function EncodeAccess(a: Access): seq<byte>
    requires ValidAccess(a)
  {
    if a.NoAccess? then [0] else [a.flag] + ([a.selector] + Encode(a.parameters))
  }

  function SelectorItem(selector: byte): Item {
    Item(Unsigned8, "unsigned8", [selector])
  }

  function AccessItems(a: Access): seq<Item>
    requires ValidAccess(a)
  {
    if a.NoAccess? then [] else [SelectorItem(a.selector)] + Flatten(a.parameters)
  }

  /** GET-Request-Normal: choice octets 192 and 1, invoke id, descriptor, optional access. */
  function EncodeGetNormal(invoke: byte, d: Descriptor, a: Access): seq<byte>
    requires d.Valid() && ValidAccess(a)
  {
    [192] + ([1] + ([invoke] + (EncodeDescriptor(d) + EncodeAccess(a))))
  }

  const PDU_ITEM := Item(CosemPdu, "cosem_pdu", [192])

  function InvokeItem(invoke: byte): Item {
    Item(InvokeIdAndPriority, "invoke_id_and_priority", [invoke])
  }

  function GetNormalItems(invoke: byte, d: Descriptor, a: Access): seq<Item>
    requires d.Valid() && ValidAccess(a)
  {
    [PDU_ITEM] + ([InvokeItem(invoke)] + (DescriptorItems(d) + AccessItems(a)))
  }

  // How parsers compose

  /** Whatever follows them, the parser for `tid` consumes exactly `bytes` and appends
      exactly `items`. Buffer lengths are C ints. */
  ghost predicate Reads(tid: TypeId, bytes: seq<byte>, items: seq<Item>) {
    forall rest: seq<byte> | |bytes| + |rest| < 0x8000_0000 ::
      Parse(tid, "", bytes + rest) == Parsed(|bytes|, items)
  }

  /** The same for the parts of a sequence from the `i`-th on. */
  ghost predicate PartsRead(r: Rule, i: nat, rank: nat, bytes: seq<byte>, items: seq<Item>)
    requires r.Sequence? && i <= |r.parts| && AllBelow(r.parts, rank)
  {
    forall rest: seq<byte> | |bytes| + |rest| < 0x8000_0000 ::
      ParseParts(r.parts, r.optionMask, r.prefix, i, rank, bytes + rest) == Parsed(|bytes|, items)
  }

  lemma ReadsFixed(tid: TypeId, des: string, content: seq<byte>)
    requires RuleOf(tid, "") == FixedLength(|content|, tid, des)
    ensures Reads(tid, content, [Item(tid, des, content)])
  {
    hide RuleOf, DataRule, ParseBuf;
    forall rest: seq<byte> ensures Parse(tid, "", content + rest) == Parsed(|content|, [Item(tid, des, content)]) {
      FixedContents(RuleOf(tid, ""), Rank(tid), content, rest);
    }
  }

  lemma ReadsData(v: Value)
    requires WellFormed(v)
    ensures Reads(Data, Encode(v), Flatten(v))
  {
    hide Parse, WellFormed, Encode, Flatten;
    forall rest: seq<byte> | |Encode(v)| + |rest| < 0x8000_0000
      ensures Parse(Data, "", Encode(v) + rest) == Parsed(|Encode(v)|, Flatten(v))
    {
      ParseEncoding(v, rest);
    }
  }

  lemma ChoiceStep(r: Rule, rank: nat, tag: byte, s: seq<byte>)
    requires r.Choice? && tag < |r.alternatives|
    ensures ParseBuf(r, rank, [tag] + s)
         == After(1, if r.tid != Null then [Item(r.tid, r.des, [tag])] else [], Parse(r.alternatives[tag], "", s))
  {
    hide RuleOf, DataRule, ParseParts, ParseElements, ParseDescriptors, Parse;
    assert ([tag] + s)[1..] == s;
  }

  lemma ParseIsBuf(tid: TypeId, s: seq<byte>)
    ensures Parse(tid, "", s) == ParseBuf(RuleOf(tid, ""), Rank(tid), s)
  {
    hide RuleOf, DataRule, Rank, ParseBuf;
  }

  lemma ChoiceAt(tid: TypeId, r: Rule, tag: byte, bytes: seq<byte>, items: seq<Item>, rest: seq<byte>)
    requires RuleOf(tid, "") == r && r.Choice? && tag < |r.alternatives|
    requires Parse(r.alternatives[tag], "", bytes + rest) == Parsed(|bytes|, items)
    ensures Parse(tid, "", [tag] + bytes + rest)
         == Parsed(1 + |bytes|, if r.tid != Null then [Item(r.tid, r.des, [tag])] + items else items)
  {
    hide RuleOf, DataRule, Rank, ParseBuf, Parse;
    assert [tag] + bytes + rest == [tag] + (bytes + rest);
    ParseIsBuf(tid, [tag] + (bytes + rest));
    ChoiceStep(r, Rank(tid), tag, bytes + rest);
    assert [] + items == items;
  }

  lemma ReadsChoice(tid: TypeId, r: Rule, tag: byte, bytes: seq<byte>, items: seq<Item>)
    requires RuleOf(tid, "") == r && r.Choice? && tag < |r.alternatives|
    requires Reads(r.alternatives[tag], bytes, items)
    ensures Reads(tid, [tag] + bytes, if r.tid != Null then [Item(r.tid, r.des, [tag])] + items else items)
  {
    hide RuleOf, DataRule, Parse;
    forall rest: seq<byte> | 1 + |bytes| + |rest| < 0x8000_0000
      ensures Parse(tid, "", [tag] + bytes + rest)
           == Parsed(1 + |bytes|, if r.tid != Null then [Item(r.tid, r.des, [tag])] + items else items)
    {
      ChoiceAt(tid, r, tag, bytes, items, rest);
    }
  }

  lemma UseReads(tid: TypeId, bytes: seq<byte>, items: seq<Item>, rest: seq<byte>)
    requires Reads(tid, bytes, items) && |bytes| + |rest| < 0x8000_0000
    ensures Parse(tid, "", bytes + rest) == Parsed(|bytes|, items)
  {
  }

  lemma UseParts(r: Rule, i: nat, rank: nat, bytes: seq<byte>, items: seq<Item>, rest: seq<byte>)
    requires r.Sequence? && i <= |r.parts| && AllBelow(r.parts, rank)
    requires PartsRead(r, i, rank, bytes, items) && |bytes| + |rest| < 0x8000_0000
    ensures ParseParts(r.parts, r.optionMask, r.prefix, i, rank, bytes + rest) == Parsed(|bytes|, items)
  {
  }

  lemma SequenceStep(tid: TypeId, r: Rule, s: seq<byte>)
    requires RuleOf(tid, "") == r && r.Sequence? && AllBelow(r.parts, Rank(tid))
    ensures Parse(tid, "", s) == ParseParts(r.parts, r.optionMask, r.prefix, 0, Rank(tid), s)
  {
    hide RuleOf, DataRule, ParseParts, Rank, AllBelow;
  }

  lemma PartStep(r: Rule, i: nat, rank: nat, content: seq<byte>, rest: seq<byte>, items: seq<Item>)
    requires r.Sequence? && i < |r.parts| && AllBelow(r.parts, rank)
    requires Parse(r.parts[i], r.prefix, content + rest) == Parsed(|content|, items)
    ensures ParsePart(r.parts, r.optionMask, r.prefix, i, rank, content + rest)
         == After(|content|, items, ParseParts(r.parts, r.optionMask, r.prefix, i + 1, rank, rest))
  {
    hide RuleOf, DataRule, Rank, AllBelow, Optional, ParseBuf, ParseParts, Parse;
    assert (content + rest)[|content|..] == rest;
  }

  lemma FlagStep(r: Rule, i: nat, rank: nat, flag: byte, s: seq<byte>)
    requires r.Sequence? && i < |r.parts| && AllBelow(r.parts, rank)
    ensures !Optional(r.optionMask, i) ==>
              ParseParts(r.parts, r.optionMask, r.prefix, i, rank, s)
                == ParsePart(r.parts, r.optionMask, r.prefix, i, rank, s)
    ensures Optional(r.optionMask, i) ==>
              ParseParts(r.parts, r.optionMask, r.prefix, i, rank, [flag] + s) ==
              After(1, [], if flag == 0 then ParseParts(r.parts, r.optionMask, r.prefix, i + 1, rank, s)
                           else ParsePart(r.parts, r.optionMask, r.prefix, i, rank, s))
  {
    hide RuleOf, DataRule, Rank, AllBelow, Optional, ParsePart;
    assert ([flag] + s)[1..] == s;
  }

  lemma ReadsSequence(tid: TypeId, r: Rule, bytes: seq<byte>, items: seq<Item>)
    requires RuleOf(tid, "") == r && r.Sequence? && AllBelow(r.parts, Rank(tid))
    requires PartsRead(r, 0, Rank(tid), bytes, items)
    ensures Reads(tid, bytes, items)
  {
    hide RuleOf, DataRule, Rank, ParseParts, AllBelow, PartsRead, Parse;
    forall rest: seq<byte> | |bytes| + |rest| < 0x8000_0000
      ensures Parse(tid, "", bytes + rest) == Parsed(|bytes|, items)
    {
      SequenceStep(tid, r, bytes + rest);
      UseParts(r, 0, Rank(tid), bytes, items, rest);
    }
  }

  lemma PartsEnd(r: Rule, rank: nat)
    requires r.Sequence? && AllBelow(r.parts, rank)
    ensures PartsRead(r, |r.parts|, rank, [], [])
  {
    hide RuleOf, DataRule, Rank, AllBelow, ParsePart;
  }

  lemma PartsNext(r: Rule, i: nat, rank: nat, bytes: seq<byte>, items: seq<Item>, bytes': seq<byte>, items': seq<Item>)
    requires r.Sequence? && i < |r.parts| && AllBelow(r.parts, rank) && r.prefix == ""
    requires !Optional(r.optionMask, i)
    requires Reads(r.parts[i], bytes, items) && PartsRead(r, i + 1, rank, bytes', items')
    ensures PartsRead(r, i, rank, bytes + bytes', items + items')
  {
    hide RuleOf, DataRule, Rank, AllBelow, Optional, Parse, ParseParts, ParsePart, Reads;
    forall rest: seq<byte> | |bytes + bytes'| + |rest| < 0x8000_0000
      ensures ParseParts(r.parts, r.optionMask, r.prefix, i, rank, bytes + bytes' + rest)
           == Parsed(|bytes + bytes'|, items + items')
    {
      FlagStep(r, i, rank, 0, bytes + bytes' + rest);
      PartAndParts(r, i, rank, bytes, items, bytes', items', rest);
    }
  }

  lemma PartAndParts(r: Rule, i: nat, rank: nat, bytes: seq<byte>, items: seq<Item>,
    bytes': seq<byte>, items': seq<Item>, rest: seq<byte>)
    requires r.Sequence? && i < |r.parts| && AllBelow(r.parts, rank) && r.prefix == ""
    requires Reads(r.parts[i], bytes, items) && PartsRead(r, i + 1, rank, bytes', items')
    requires |bytes + bytes'| + |rest| < 0x8000_0000
    ensures ParsePart(r.parts, r.optionMask, r.prefix, i, rank, bytes + bytes' + rest)
         == Parsed(|bytes + bytes'|, items + items')
  {
    hide RuleOf, DataRule, Rank, AllBelow, Optional, Parse, ParseParts, ParsePart, Reads, PartsRead;
    assert bytes + bytes' + rest == bytes + (bytes' + rest);
    UseReads(r.parts[i], bytes, items, bytes' + rest);
    UseParts(r, i + 1, rank, bytes', items', rest);
    PartStep(r, i, rank, bytes, bytes' + rest, items);
  }

  lemma PartsAbsent(r: Rule, i: nat, rank: nat, bytes: seq<byte>, items: seq<Item>)
    requires r.Sequence? && i < |r.parts| && AllBelow(r.parts, rank)
    requires Optional(r.optionMask, i)
    requires PartsRead(r, i + 1, rank, bytes, items)
    ensures PartsRead(r, i, rank, [0] + bytes, items)
  {
    hide RuleOf, DataRule, Rank, AllBelow, Optional, ParsePart, ParseParts;
    forall rest: seq<byte> | 1 + |bytes| + |rest| < 0x8000_0000
      ensures ParseParts(r.parts, r.optionMask, r.prefix, i, rank, [0] + bytes + rest) == Parsed(1 + |bytes|, items)
    {
      assert [0] + bytes + rest == [0] + (bytes + rest);
      UseParts(r, i + 1, rank, bytes, items, rest);
      FlagStep(r, i, rank, 0, bytes + rest);
      assert [] + items == items;
    }
  }

  lemma PartsPresent(r: Rule, i: nat, rank: nat, flag: byte, bytes: seq<byte>, items: seq<Item>,
    bytes': seq<byte>, items': seq<Item>)
    requires r.Sequence? && i < |r.parts| && AllBelow(r.parts, rank) && r.prefix == ""
    requires Optional(r.optionMask, i) && flag != 0
    requires Reads(r.parts[i], bytes, items) && PartsRead(r, i + 1, rank, bytes', items')
    ensures PartsRead(r, i, rank, [flag] + (bytes + bytes'), items + items')
  {
    hide RuleOf, DataRule, Rank, AllBelow, Optional, Parse, ParseParts, ParsePart, Reads;
    forall rest: seq<byte> | 1 + |bytes + bytes'| + |rest| < 0x8000_0000
      ensures ParseParts(r.parts, r.optionMask, r.prefix, i, rank, [flag] + (bytes + bytes') + rest)
           == Parsed(1 + |bytes + bytes'|, items + items')
    {
      PartAndParts(r, i, rank, bytes, items, bytes', items', rest);
      FlagThenPart(r, i, rank, flag, bytes + bytes', rest, items + items');
    }
  }

  lemma FlagThenPart(r: Rule, i: nat, rank: nat, flag: byte, bytes: seq<byte>, rest: seq<byte>, items: seq<Item>)
    requires r.Sequence? && i < |r.parts| && AllBelow(r.parts, rank) && Optional(r.optionMask, i) && flag != 0
    requires ParsePart(r.parts, r.optionMask, r.prefix, i, rank, bytes + rest) == Parsed(|bytes|, items)
    ensures ParseParts(r.parts, r.optionMask, r.prefix, i, rank, [flag] + bytes + rest) == Parsed(1 + |bytes|, items)
  {
    hide RuleOf, DataRule, Rank, AllBelow, Optional, ParseParts, ParsePart;
    assert [flag] + bytes + rest == [flag] + (bytes + rest);
    FlagStep(r, i, rank, flag, bytes + rest);
    assert [] + items == items;
  }

  lemma Masks()
    ensures forall i | 0 <= i < 4 :: !Optional(0, i)
    ensures !Optional(4, 0) && !Optional(4, 1) && Optional(4, 2) && !Optional(4, 3)
  {
    assert Power2(0) == 1 && Power2(1) == 2 && Power2(2) == 4 && Power2(3) == 8;
  }

  const DESCRIPTOR_RULE := Sequence([CosemClassId, CosemObjectInstanceId, CosemObjectAttributeId], 0, "")
  const ACCESS_RULE := Sequence([Unsigned8, Data], 4, "")
  const NORMAL_RULE := Sequence([InvokeIdAndPriority, CosemAttributeDescriptor, SelectiveAccessDescriptor], 4, "")
  const LIST_RULE := Sequence([InvokeIdAndPriority, AttributeDescriptorList], 4, "")

  lemma RuleOfDescriptor()
    ensures RuleOf(CosemAttributeDescriptor, "") == DESCRIPTOR_RULE
  {
  }

  lemma RuleOfAccess()
    ensures RuleOf(SelectiveAccessDescriptor, "") == ACCESS_RULE
  {
  }

  lemma RuleOfNormal()
    ensures RuleOf(GetRequestNormal, "") == NORMAL_RULE
  {
  }

  lemma RuleOfWithList()
    ensures RuleOf(GetRequestWithList, "") == LIST_RULE
  {
  }

  lemma RuleOfClassId()
    ensures RuleOf(CosemClassId, "") == FixedLength(2, CosemClassId, "cosem_class_id")
  {
  }

  lemma RuleOfInstanceId()
    ensures RuleOf(CosemObjectInstanceId, "") == FixedLength(6, CosemObjectInstanceId, "cosem_object_instance_id")
  {
  }

  lemma RuleOfAttributeId()
    ensures RuleOf(CosemObjectAttributeId, "") == FixedLength(1, CosemObjectAttributeId, "cosem_object_attribute_id")
  {
  }

  lemma RuleOfInvokeId()
    ensures RuleOf(InvokeIdAndPriority, "") == FixedLength(1, InvokeIdAndPriority, "invoke_id_and_priority")
  {
  }

  lemma RuleOfUnsigned8()
    ensures RuleOf(Unsigned8, "") == FixedLength(1, Unsigned8, "unsigned8")
  {
    assert "" + "unsigned8" == "unsigned8";
  }

  lemma RuleOfList()
    ensures RuleOf(AttributeDescriptorList, "")
         == SequenceOfWithList(AttributeDescriptorList, "attribute_descriptor_list")
  {
  }

  lemma RuleOfPdu()
    ensures var r := RuleOf(CosemPdu, "");
            r.Choice? && |r.alternatives| == 256 && r.alternatives[192] == GetRequest &&
            r.tid == CosemPdu && r.des == "cosem_pdu"
  {
  }

  lemma RuleOfGet()
    ensures RuleOf(GetRequest, "")
         == Choice([Null, GetRequestNormal, GetRequestNext, GetRequestWithList], Null, "")
  {
  }

  // GET-Request-Normal

  lemma ReadsDescriptor(d: Descriptor)
    requires d.Valid()
    ensures Reads(CosemAttributeDescriptor, EncodeDescriptor(d), DescriptorItems(d))
  {
    hide RuleOf, DataRule, Reads, PartsRead, Octets, Optional, AllBelow, Rank;
    var r, rank := DESCRIPTOR_RULE, Rank(CosemAttributeDescriptor);
    RuleOfDescriptor();
    RuleOfClassId();
    RuleOfInstanceId();
    RuleOfAttributeId();
    Masks();
    ReadsFixed(CosemClassId, "cosem_class_id", Octets(d.classId, 2));
    ReadsFixed(CosemObjectInstanceId, "cosem_object_instance_id", d.obis);
    ReadsFixed(CosemObjectAttributeId, "cosem_object_attribute_id", [d.attr]);
    var last := [Item(CosemObjectAttributeId, "cosem_object_attribute_id", [d.attr])];
    PartsLast(r, 2, rank, [d.attr], last);
    PartsNext(r, 1, rank, d.obis, [Item(CosemObjectInstanceId, "cosem_object_instance_id", d.obis)], [d.attr], last);
    PartsNext(r, 0, rank, Octets(d.classId, 2), [Item(CosemClassId, "cosem_class_id", Octets(d.classId, 2))],
              d.obis + [d.attr], [Item(CosemObjectInstanceId, "cosem_object_instance_id", d.obis)] + last);
    ReadsSequence(CosemAttributeDescriptor, r, EncodeDescriptor(d), DescriptorItems(d));
  }

  lemma PartsLast(r: Rule, i: nat, rank: nat, bytes: seq<byte>, items: seq<Item>)
    requires r.Sequence? && i + 1 == |r.parts| && AllBelow(r.parts, rank) && r.prefix == ""
    requires !Optional(r.optionMask, i)
    requires Reads(r.parts[i], bytes, items)
    ensures PartsRead(r, i, rank, bytes, items)
  {
    hide *;
    PartsEnd(r, rank);
    PartsNext(r, i, rank, bytes, items, [], []);
    assert bytes + [] == bytes && items + [] == items;
  }

  lemma ReadsSelected(selector: byte, parameters: Value)
    requires WellFormed(parameters)
    ensures Reads(SelectiveAccessDescriptor, [selector] + Encode(parameters),
                  [SelectorItem(selector)] + Flatten(parameters))
  {
    hide RuleOf, DataRule, Reads, PartsRead, Optional, AllBelow, Rank, WellFormed, Encode, Flatten;
    var r, rank := ACCESS_RULE, Rank(SelectiveAccessDescriptor);
    RuleOfAccess();
    RuleOfUnsigned8();
    Masks();
    ReadsFixed(Unsigned8, "unsigned8", [selector]);
    ReadsData(parameters);
    PartsLast(r, 1, rank, Encode(parameters), Flatten(parameters));
    PartsNext(r, 0, rank, [selector], [SelectorItem(selector)], Encode(parameters), Flatten(parameters));
    ReadsSequence(SelectiveAccessDescriptor, r, [selector] + Encode(parameters),
                  [SelectorItem(selector)] + Flatten(parameters));
  }

  /** An optional last part that is selective access. */
  lemma PartsAccess(r: Rule, i: nat, rank: nat, a: Access)
    requires ValidAccess(a)
    requires r.Sequence? && i + 1 == |r.parts| && AllBelow(r.parts, rank) && r.prefix == ""
    requires r.parts[i] == SelectiveAccessDescriptor && Optional(r.optionMask, i)
    ensures PartsRead(r, i, rank, EncodeAccess(a), AccessItems(a))
  {
    hide RuleOf, DataRule, Reads, PartsRead, Optional, AllBelow, Rank, WellFormed, Encode, Flatten, SelectorItem;
    PartsEnd(r, rank);
    if a.NoAccess? {
      PartsAbsent(r, i, rank, [], []);
      assert [0] + [] == EncodeAccess(a);
    } else {
      var bytes, items := [a.selector] + Encode(a.parameters), [SelectorItem(a.selector)] + Flatten(a.parameters);
      ReadsSelected(a.selector, a.parameters);
      PartsPresent(r, i, rank, a.flag, bytes, items, [], []);
      assert bytes + [] == bytes && items + [] == items;
    }
  }

  lemma ReadsNormal(invoke: byte, d: Descriptor, a: Access)
    requires d.Valid() && ValidAccess(a)
    ensures Reads(GetRequestNormal, [invoke] + (EncodeDescriptor(d) + EncodeAccess(a)),
                  [InvokeItem(invoke)] + (DescriptorItems(d) + AccessItems(a)))
  {
    hide RuleOf, DataRule, Reads, PartsRead, Optional, AllBelow, Rank, ValidAccess, EncodeAccess, AccessItems,
      EncodeDescriptor, DescriptorItems;
    var r, rank := NORMAL_RULE, Rank(GetRequestNormal);
    var e, x := EncodeDescriptor(d), EncodeAccess(a);
    RuleOfNormal();
    RuleOfInvokeId();
    Masks();
    ReadsFixed(InvokeIdAndPriority, "invoke_id_and_priority", [invoke]);
    ReadsDescriptor(d);
    PartsAccess(r, 2, rank, a);
    PartsNext(r, 1, rank, e, DescriptorItems(d), x, AccessItems(a));
    PartsNext(r, 0, rank, [invoke], [InvokeItem(invoke)], e + x, DescriptorItems(d) + AccessItems(a));
    ReadsSequence(GetRequestNormal, r, [invoke] + (e + x),
                  [InvokeItem(invoke)] + (DescriptorItems(d) + AccessItems(a)));
  }

  /** The two choice octets every GET request opens with; only the first leaves an item. */
  lemma ReadsGetChoices(choice: byte, body: seq<byte>, items: seq<Item>)
    requires choice == 1 || choice == 3
    requires Reads(if choice == 1 then GetRequestNormal else GetRequestWithList, body, items)
    ensures Reads(CosemPdu, [192] + ([choice] + body), [PDU_ITEM] + items)
  {
    hide RuleOf, DataRule, Reads;
    RuleOfGet();
    ReadsChoice(GetRequest, RuleOf(GetRequest, ""), choice, body, items);
    RuleOfPdu();
    ReadsChoice(CosemPdu, RuleOf(CosemPdu, ""), 192, [choice] + body, items);
  }

  /** Parsing a normal GET request consumes it all and lists its parts in order. */
  lemma ParseGetNormal(invoke: byte, d: Descriptor, a: Access, rest: seq<byte>)
    requires d.Valid() && ValidAccess(a)
    requires |EncodeGetNormal(invoke, d, a)| + |rest| < 0x8000_0000
    ensures Parse(CosemPdu, "", EncodeGetNormal(invoke, d, a) + rest)
         == Parsed(|EncodeGetNormal(invoke, d, a)|, GetNormalItems(invoke, d, a))
  {
    hide Parse, ValidAccess, EncodeAccess, AccessItems, EncodeDescriptor, DescriptorItems;
    ReadsNormal(invoke, d, a);
    ReadsGetChoices(1, [invoke] + (EncodeDescriptor(d) + EncodeAccess(a)),
                    [InvokeItem(invoke)] + (DescriptorItems(d) + AccessItems(a)));
  }

  // What the readers make of the list of a normal request

  /** A 12-byte octet string or a date-time. */
  predicate IsTime(v: Value) {
    && ((v.Unfixed? && v.tag == 9) || (v.Fixed? && v.tag == 25))
    && |v.content| == 12
  }

  /** The parameters of a range descriptor: the restricting object (a structure of four simple
      values), the two times, and the selected values. */
  predicate IsRange(v: Value) {
    && v.Many? && |v.elements| == 4
    && v.elements[0].Many? && |v.elements[0].elements| == 4
    && (forall e <- v.elements[0].elements :: !e.Many?)
    && IsTime(v.elements[1])
    && IsTime(v.elements[2])
  }

  function From(v: Value): seq<byte>
    requires IsRange(v)
  {
    v.elements[1].content
  }

  function To(v: Value): seq<byte>
    requires IsRange(v)
  {
    v.elements[2].content
  }

  lemma LacksChar(hay: string, needle: string, c: char)
    requires c in needle && c !in hay
    ensures !Contains(hay, needle)
  {
  }

  lemma NoEightInHeader(invoke: byte)
    ensures '8' !in PDU_ITEM.des && '8' !in InvokeItem(invoke).des
  {
  }

  lemma NoEightInNames()
    ensures '8' !in "cosem_class_id"
    ensures '8' !in "cosem_object_instance_id"
    ensures '8' !in "cosem_object_attribute_id"
  {
  }

  lemma NoEightInDescriptor(d: Descriptor, i: nat)
    requires d.Valid() && i < 3
    ensures '8' !in DescriptorItems(d)[i].des
  {
    hide Octets;
    NoEightInNames();
  }

  lemma NoSelectorBefore(rs: seq<Item>, d: Descriptor, invoke: byte)
    requires d.Valid() && |rs| >= 5 && rs[..5] == [PDU_ITEM] + ([InvokeItem(invoke)] + DescriptorItems(d))
    ensures forall i | 0 <= i < 5 :: !Contains(rs[i].des, "unsigned8")
  {
    hide Contains, InvokeItem, DescriptorItems;
    NoEightInHeader(invoke);
    assert "unsigned8"[8] == '8';
    forall i | 0 <= i < 5 ensures !Contains(rs[i].des, "unsigned8") {
      assert rs[i] == rs[..5][i];
      assert rs[i] == if i == 0 then PDU_ITEM else if i == 1 then InvokeItem(invoke) else DescriptorItems(d)[i - 2];
      if i >= 2 { NoEightInDescriptor(d, i - 2); }
      LacksChar(rs[i].des, "unsigned8", '8');
    }
  }

  lemma {:induction false} FindSkips(rs: seq<Item>, des: string, begin: nat, n: nat)
    requires begin <= n <= |rs|
    requires forall i | begin <= i < n :: !Contains(rs[i].des, des)
    ensures FindItem(rs, des, begin) == FindItem(rs, des, n)
    decreases n - begin
  {
    hide Contains;
    if begin < n { FindSkips(rs, des, begin + 1, n); }
  }

  lemma FindHere(rs: seq<Item>, des: string, n: nat)
    requires n <= |rs|
    ensures n == |rs| ==> FindItem(rs, des, n) == -1
    ensures n < |rs| && Contains(rs[n].des, des) ==> FindItem(rs, des, n) == n
  {
    hide Contains;
  }

  lemma ContainsItself(s: string)
    ensures Contains(s, s)
  {
    assert OccursAt(s, s, 0);
  }

  lemma NormalShape(invoke: byte, d: Descriptor, a: Access)
    requires d.Valid() && ValidAccess(a)
    ensures var rs := GetNormalItems(invoke, d, a);
            rs[..5] == [PDU_ITEM] + ([InvokeItem(invoke)] + DescriptorItems(d)) &&
            rs[5..] == AccessItems(a) && |rs| >= 5
  {
    hide AccessItems, DescriptorItems, InvokeItem;
  }

  /** Where the selector is looked for: item 5, or nowhere. */
  lemma SelectorPosition(invoke: byte, d: Descriptor, a: Access)
    requires d.Valid() && ValidAccess(a)
    ensures FindItem(GetNormalItems(invoke, d, a), "unsigned8", 0) == if a.NoAccess? then -1 else 5
    ensures a.Selected? ==> var rs := GetNormalItems(invoke, d, a);
              |rs| == 6 + |Flatten(a.parameters)| && rs[5] == Item(Unsigned8, "unsigned8", [a.selector])
              && rs[6..] == Flatten(a.parameters)
  {
    hide Contains, DescriptorItems, InvokeItem, Flatten, WellFormed, GetNormalItems, FindItem;
    var rs := GetNormalItems(invoke, d, a);
    NormalShape(invoke, d, a);
    NoSelectorBefore(rs, d, invoke);
    FindSkips(rs, "unsigned8", 0, 5);
    if a.Selected? {
      assert rs[5] == rs[5..][0];
      assert rs[6..] == rs[5..][1..];
      ContainsItself("unsigned8");
    }
    FindHere(rs, "unsigned8", 5);
  }

  /** `is_access_selector` on a normal request: 0 without access, else the selector sent,
      whatever its parameters are. */
  lemma SelectorReadBack(invoke: byte, d: Descriptor, a: Access)
    requires d.Valid() && ValidAccess(a)
    ensures Selector(GetNormalItems(invoke, d, a)) == if a.NoAccess? then 0 else a.selector
  {
    hide FindItem, GetNormalItems, Flatten;
    SelectorPosition(invoke, d, a);
  }

  lemma OneThenRest(vs: seq<Value>)
    requires vs != [] && forall e <- vs :: WellFormed(e)
    ensures FlattenAll(vs) == Flatten(vs[0]) + FlattenAll(vs[1..])
    ensures |vs| == 1 ==> FlattenAll(vs) == Flatten(vs[0])
  {
    hide Flatten, WellFormed;
    if |vs| == 1 { assert FlattenAll(vs[1..]) == []; }
  }

  lemma FourFlat(e: seq<Value>)
    requires |e| == 4 && forall x <- e :: WellFormed(x)
    ensures FlattenAll(e) == Flatten(e[0]) + (Flatten(e[1]) + (Flatten(e[2]) + Flatten(e[3])))
  {
    hide Flatten, WellFormed, FlattenAll;
    assert e[1..][1..] == e[2..] && e[2..][1..] == e[3..];
    OneThenRest(e);
    OneThenRest(e[1..]);
    OneThenRest(e[2..]);
    OneThenRest(e[3..]);
  }

  lemma ThirdAndFourth(head: Item, a: seq<Item>, b: Item, c: Item, d: seq<Item>)
    requires |a| == 5
    ensures var items := [head] + (a + ([b] + ([c] + d)));
            |items| == 8 + |d| && items[6] == b && items[7] == c && items[8..] == d
  {
  }

  /** The flat list of a range descriptor: the two times are its seventh and eighth items. */
  lemma RangeShape(v: Value)
    requires WellFormed(v) && IsRange(v)
    ensures |Flatten(v)| >= 8
    ensures Flatten(v.elements[1]) == [Flatten(v)[6]] && Flatten(v.elements[2]) == [Flatten(v)[7]]
    ensures Flatten(v)[8..] == Flatten(v.elements[3])
  {
    hide RuleOf, DataRule, DataType, Octets, Decimal, FlattenAll, Fits;
    var e := v.elements;
    ElementsWellFormed(v, 0);
    assert forall x <- e[0].elements :: WellFormed(x);
    LeavesFlat(e[0].elements);
    TimeItem(e[1]);
    TimeItem(e[2]);
    FourFlat(e);
    RangeFlat(v);
    ThirdAndFourth(Flatten(v)[0], Flatten(e[0]), Flatten(e[1])[0], Flatten(e[2])[0], Flatten(e[3]));
  }

  lemma RangeFlat(v: Value)
    requires WellFormed(v) && v.Many? && |v.elements| == 4
    ensures |Flatten(v)| > 0 && Flatten(v) == [Flatten(v)[0]] + FlattenAll(v.elements)
  {
    hide RuleOf, DataRule, FlattenAll, Fits;
  }

  lemma {:induction false} LeavesFlat(vs: seq<Value>)
    requires forall e <- vs :: WellFormed(e) && !e.Many?
    ensures |FlattenAll(vs)| == |vs|
  {
    hide RuleOf, DataRule, DataType, Octets, Decimal;
    if vs != [] { LeavesFlat(vs[1..]); }
  }

  lemma TimeItem(v: Value)
    requires WellFormed(v) && IsTime(v)
    ensures |Flatten(v)| == 1
    ensures var item := Flatten(v)[0];
            item.bytes == v.content &&
            (v.tag == 9 ==> IsTimeString(item)) && (v.tag == 25 ==> item.tid == DateTime)
  {
    hide RuleOf;
    hide Fits, Decimal;
  }

  /** `get_start_time` and `get_end_time` on a normal request with a range descriptor. */
  lemma TimesReadBack(invoke: byte, d: Descriptor, a: Access, toTime: seq<byte> -> nat)
    requires d.Valid() && ValidAccess(a) && a.Selected? && IsRange(a.parameters)
    ensures TimeAfterSelector(GetNormalItems(invoke, d, a), 7, toTime) == Got(toTime(From(a.parameters)))
    ensures TimeAfterSelector(GetNormalItems(invoke, d, a), 8, toTime) == Got(toTime(To(a.parameters)))
  {
    hide FindItem, GetNormalItems, Flatten, WellFormed, IsTimeString, IsTime;
    var rs := GetNormalItems(invoke, d, a);
    var v := a.parameters;
    SelectorPosition(invoke, d, a);
    RangeShape(v);
    assert rs[6..][6] == rs[12] && rs[6..][7] == rs[13];
    ElementsWellFormed(v, 1);
    ElementsWellFormed(v, 2);
    ElementTime(v.elements[1]);
    ElementTime(v.elements[2]);
  }

  lemma ElementsWellFormed(v: Value, i: nat)
    requires WellFormed(v) && v.Many? && i < |v.elements|
    ensures WellFormed(v.elements[i])
  {
    hide RuleOf, DataRule;
  }

  lemma ElementTime(v: Value)
    requires WellFormed(v) && IsTime(v)
    ensures |Flatten(v)| == 1 && Flatten(v)[0].bytes == v.content
    ensures IsTimeString(Flatten(v)[0]) || Flatten(v)[0].tid == DateTime
  {
    hide WellFormed, Flatten, IsTimeString;
    TimeItem(v);
  }

  /** `get_class_id`, `get_obis` and `get_attr_id` on a normal request. */
  lemma DescriptorReadBack(invoke: byte, d: Descriptor, a: Access)
    requires d.Valid() && ValidAccess(a)
    ensures var rs := GetNormalItems(invoke, d, a);
            var classes, codes, attrs := OfType(rs, CosemClassId),
                OfType(rs, CosemObjectInstanceId), OfType(rs, CosemObjectAttributeId);
            classes != [] && codes != [] && attrs != [] &&
            Uint16(classes[0]) == d.classId && Obis(codes[0]) == d.obis && ByteAt(attrs[0], 0) == d.attr
  {
    hide AccessItems, ByteAt, Uint16, Obis, DescriptorItems, OfType, GetNormalItems, InvokeItem;
    var rs := GetNormalItems(invoke, d, a);
    NormalFront(invoke, d, a);
    FirstOfType(rs, 2);
    FirstOfType(rs, 3);
    FirstOfType(rs, 4);
    DescriptorFields(d);
  }

  lemma NormalFront(invoke: byte, d: Descriptor, a: Access)
    requires d.Valid() && ValidAccess(a)
    ensures var rs := GetNormalItems(invoke, d, a);
            |rs| >= 5 && rs[0].tid == CosemPdu && rs[1].tid == InvokeIdAndPriority
            && rs[2] == DescriptorItems(d)[0] && rs[3] == DescriptorItems(d)[1] && rs[4] == DescriptorItems(d)[2]
    ensures var items := DescriptorItems(d);
            items[0].tid == CosemClassId && items[1].tid == CosemObjectInstanceId &&
            items[2].tid == CosemObjectAttributeId
  {
    hide AccessItems, Octets;
    var rs := GetNormalItems(invoke, d, a);
    assert rs[2..] == DescriptorItems(d) + AccessItems(a);
  }

  lemma {:induction false} FirstOfType(rs: seq<Item>, n: nat)
    requires n < |rs| && forall i | 0 <= i < n :: rs[i].tid != rs[n].tid
    ensures OfType(rs, rs[n].tid) != [] && OfType(rs, rs[n].tid)[0] == rs[n]
  {
    if n > 0 { FirstOfType(rs[1..], n - 1); }
  }

  /** The three items of a descriptor hold its class, code and attribute. */
  lemma DescriptorFields(d: Descriptor)
    requires d.Valid()
    ensures var items := DescriptorItems(d);
            Uint16(items[0]) == d.classId && Obis(items[1]) == d.obis && ByteAt(items[2], 0) == d.attr
  {
    var s := Octets(d.classId, 2);
    assert s == Octets(d.classId / 256, 1) + [d.classId % 256];
    assert Octets(d.classId / 256, 1) == [] + [d.classId / 256 % 256];
    assert Obis(DescriptorItems(d)[1]) == d.obis;
  }

  // GET-Request-With-List

  /** One attribute of a list request: a descriptor, and for flag 0x01 a selector-1 range. */
  datatype Entry = Entry(d: Descriptor, range: Option<Value>) {
    predicate Valid() {
      d.Valid() && (range.Some? ==> WellFormed(range.value))
    }
  }

  /** The value the parser takes flag 0x01, selector 1 and the range for: a one-element array. */
  function AsArray(v: Value): Value {
    Many(1, Short, [v])
  }

  function EncodeSelection(e: Entry): seq<byte>
    requires e.Valid()
  {
    if e.range.None? then [0] else [1] + ([1] + Encode(e.range.value))
  }

  function SelectionItems(e: Entry): seq<Item>
    requires e.Valid()
  {
    if e.range.None? then [SelectionItem(0)]
    else [SelectionItem(1)] + ([Item(SequenceOfArray, "sequence_of_array", [0, 0, 0, 1])] + Flatten(e.range.value))
  }

  predicate AllValid(es: seq<Entry>) {
    forall i | 0 <= i < |es| :: es[i].Valid()
  }

  function EncodeEntries(es: seq<Entry>): seq<byte>
    requires AllValid(es)
  {
    if es == [] then []
    else EncodeDescriptor(es[0].d) + (EncodeSelection(es[0]) + EncodeEntries(es[1..]))
  }

  function EntryItems(es: seq<Entry>): seq<Item>
    requires AllValid(es)
  {
    if es == [] then []
    else DescriptorItems(es[0].d) + (SelectionItems(es[0]) + EntryItems(es[1..]))
  }

  lemma ArrayIsSelection(e: Entry)
    requires e.Valid() && e.range.Some?
    ensures WellFormed(AsArray(e.range.value))
    ensures Encode(AsArray(e.range.value)) == EncodeSelection(e)
    ensures [SelectionItem(1)] + Flatten(AsArray(e.range.value)) == SelectionItems(e)
  {
    hide LeafRule, SequenceRule, RequestRule, ChoiceRule;
    var v := e.range.value;
    var r := RuleOf(SequenceOfArray, "");
    assert r == SequenceOfData(SequenceOfArray, "sequence_of_array");
    hide Descends, Rank;
    assert EncodeAll([v]) == Encode(v) + EncodeAll([]);
    assert FlattenAll([v]) == Flatten(v) + FlattenAll([]);
    OneAsCount();
  }

  lemma OneAsCount()
    ensures Octets(1, 4) == [0, 0, 0, 1]
  {
    assert Octets(0, 1) == [] + [0];
    assert Octets(0, 2) == [0] + [0];
    assert Octets(0, 3) == [0, 0] + [0];
  }

  lemma OneEntry(before: seq<byte>, e: Entry, rest: seq<byte>, left: nat, rank: nat)
    requires e.Valid() && 0 < left && Rank(Data) < rank && Rank(CosemAttributeDescriptor) < rank
    requires |before| + 9 + |EncodeSelection(e)| + |rest| < 0x8000_0000
    ensures var at := |before| + 9 + |EncodeSelection(e)|;
            var s := before + EncodeDescriptor(e.d) + EncodeSelection(e) + rest;
            ParseDescriptors(s, |before|, left, rank) ==
            After(0, DescriptorItems(e.d) + SelectionItems(e), ParseDescriptors(s, at, left - 1, rank))
  {
    hide *;
    EntryParts(e);
    var d, x := EncodeDescriptor(e.d), EncodeSelection(e);
    var s := before + d + x + rest;
    var items := DescriptorItems(e.d);
    assert s[|before|..] == d + (x + rest);
    ReadsDescriptor(e.d);
    UseReads(CosemAttributeDescriptor, d, items, x + rest);
    AsnParser.NextDescriptor(s, |before|, left, rank, []);
    NothingBefore(ParseDescriptors(s, |before|, left, rank));
    AsnParser.CodeBounds(Parse(CosemAttributeDescriptor, "", s[|before|..]));
    assert [] + items == items;
    SelectionOf(s, |before| + 9, e, rest, left, rank, items);
  }

  lemma EntryParts(e: Entry)
    requires e.Valid()
    ensures e.d.Valid() && |EncodeSelection(e)| > 0
  {
  }

  lemma NothingBefore(o: Outcome)
    ensures After(0, [], o) == o
  {
    if !o.OutOfBounds? { assert [] + o.items == o.items; }
  }

  lemma SelectionOf(s: seq<byte>, pos: nat, e: Entry, rest: seq<byte>, left: nat, rank: nat, added: seq<Item>)
    requires e.Valid() && 0 < left && Rank(Data) < rank && Rank(CosemAttributeDescriptor) < rank
    requires pos <= |s| < 0x8000_0000 && s[pos..] == EncodeSelection(e) + rest
    ensures After(0, added, ParseSelection(s, pos, left, rank)) ==
            After(0, added + SelectionItems(e), ParseDescriptors(s, pos + |EncodeSelection(e)|, left - 1, rank))
  {
    hide RuleOf, DataRule, ParseSelection, ParseDescriptors, Parse, Reads, WellFormed, Flatten, Encode, Rank,
      SelectionItem;
    assert s[pos..][0] == s[pos];
    AsnParser.NextSelection(s, pos, left, rank, added);
    if e.range.Some? {
      var v := AsArray(e.range.value);
      ArrayIsSelection(e);
      ReadsData(v);
      UseReads(Data, Encode(v), Flatten(v), rest);
      assert added + [SelectionItem(1)] + Flatten(v) == added + SelectionItems(e);
    }
  }

  /** The list loop, once the bytes `before` its position have been consumed. */
  lemma {:induction false} ParseEntries(before: seq<byte>, es: seq<Entry>, rest: seq<byte>, rank: nat)
    requires AllValid(es) && Rank(Data) < rank && Rank(CosemAttributeDescriptor) < rank
    requires |before| + |EncodeEntries(es)| + |rest| < 0x8000_0000
    ensures ParseDescriptors(before + EncodeEntries(es) + rest, |before|, |es|, rank)
         == Parsed(|before| + |EncodeEntries(es)|, EntryItems(es))
    decreases |es|
  {
    hide RuleOf, DataRule, ParseSelection, Parse, EncodeDescriptor, DescriptorItems, EncodeSelection, SelectionItems,
      Rank;
    var s := before + EncodeEntries(es) + rest;
    if es != [] {
      var d, x, more := EncodeDescriptor(es[0].d), EncodeSelection(es[0]), EncodeEntries(es[1..]);
      assert s == before + d + x + (more + rest);
      OneEntry(before, es[0], more + rest, |es|, rank);
      assert s == (before + d + x) + more + rest;
      ParseEntries(before + d + x, es[1..], rest, rank);
      assert DescriptorItems(es[0].d) + SelectionItems(es[0]) + EntryItems(es[1..]) == EntryItems(es);
    }
  }

  /** GET-Request-With-List: choice octets 192 and 3, invoke id, the length of the list in
      any form, and its entries. */
  function EncodeGetList(invoke: byte, form: LengthForm, es: seq<Entry>): seq<byte>
    requires AllValid(es) && Fits(form, |es|)
  {
    [192] + ([3] + ([invoke] + (EncodeLength(form, |es|) + EncodeEntries(es))))
  }

  /** The list item keeps one byte of the count. */
  function ListItem(n: nat): Item {
    Item(AttributeDescriptorList, "attribute_descriptor_list", [LowByte(n)])
  }

  function GetListItems(invoke: byte, es: seq<Entry>): seq<Item>
    requires AllValid(es)
  {
    [PDU_ITEM] + ([InvokeItem(invoke)] + ([ListItem(|es|)] + EntryItems(es)))
  }

  lemma ListBuf(rank: nat, form: LengthForm, es: seq<Entry>, rest: seq<byte>)
    requires AllValid(es) && Fits(form, |es|)
    requires Rank(Data) < rank && Rank(CosemAttributeDescriptor) < rank
    requires |EncodeLength(form, |es|)| + |EncodeEntries(es)| + |rest| < 0x8000_0000
    ensures ParseBuf(SequenceOfWithList(AttributeDescriptorList, "attribute_descriptor_list"), rank,
                     EncodeLength(form, |es|) + EncodeEntries(es) + rest)
         == Parsed(|EncodeLength(form, |es|)| + |EncodeEntries(es)|, [ListItem(|es|)] + EntryItems(es))
  {
    hide RuleOf, DataRule, ParseDescriptors, EncodeEntries, EntryItems, EncodeLength, Fits, LowByte, ParseLength, Rank;
    var l := EncodeLength(form, |es|);
    LengthRoundTrip(form, |es|, EncodeEntries(es) + rest);
    assert l + EncodeEntries(es) + rest == l + (EncodeEntries(es) + rest);
    ParseEntries(l, es, rest, rank);
  }

  lemma ReadsList(form: LengthForm, es: seq<Entry>)
    requires AllValid(es) && Fits(form, |es|)
    ensures Reads(AttributeDescriptorList, EncodeLength(form, |es|) + EncodeEntries(es),
                  [ListItem(|es|)] + EntryItems(es))
  {
    hide RuleOf, DataRule, ParseBuf, EncodeEntries, EntryItems, EncodeLength, Fits, ListItem;
    var bytes := EncodeLength(form, |es|) + EncodeEntries(es);
    forall rest: seq<byte> | |bytes| + |rest| < 0x8000_0000
      ensures Parse(AttributeDescriptorList, "", bytes + rest) == Parsed(|bytes|, [ListItem(|es|)] + EntryItems(es))
    {
      RuleOfList();
      ListBuf(Rank(AttributeDescriptorList), form, es, rest);
    }
  }

  lemma ReadsListBody(invoke: byte, bytes: seq<byte>, items: seq<Item>)
    requires Reads(AttributeDescriptorList, bytes, items)
    ensures Reads(GetRequestWithList, [invoke] + bytes, [InvokeItem(invoke)] + items)
  {
    hide RuleOf, DataRule, Reads, PartsRead, Optional, AllBelow, Rank;
    var r, rank := LIST_RULE, Rank(GetRequestWithList);
    RuleOfWithList();
    RuleOfInvokeId();
    Masks();
    ReadsFixed(InvokeIdAndPriority, "invoke_id_and_priority", [invoke]);
    PartsLast(r, 1, rank, bytes, items);
    PartsNext(r, 0, rank, [invoke], [InvokeItem(invoke)], bytes, items);
    ReadsSequence(GetRequestWithList, r, [invoke] + bytes, [InvokeItem(invoke)] + items);
  }

  /** Parsing a GET-with-list request consumes it all, however long the list is. */
  lemma ParseGetList(invoke: byte, form: LengthForm, es: seq<Entry>, rest: seq<byte>)
    requires AllValid(es) && Fits(form, |es|)
    requires |EncodeGetList(invoke, form, es)| + |rest| < 0x8000_0000
    ensures Parse(CosemPdu, "", EncodeGetList(invoke, form, es) + rest)
         == Parsed(|EncodeGetList(invoke, form, es)|, GetListItems(invoke, es))
  {
    hide Parse, EncodeEntries, EntryItems, EncodeLength, Fits, ListItem, AllValid, InvokeItem;
    var bytes, items := EncodeLength(form, |es|) + EncodeEntries(es), [ListItem(|es|)] + EntryItems(es);
    ReadsList(form, es);
    ReadsListBody(invoke, bytes, items);
    ReadsGetChoices(3, [invoke] + bytes, [InvokeItem(invoke)] + items);
  }

  // What `get_list_data` makes of the list

  /** A range whose times the list reader takes: both octet strings, or the first a date-time. */
  predicate Timed(v: Value) {
    IsRange(v) && (v.elements[1].tag == 25 || v.elements[2].tag == 9)
  }

  /** A range whose selected values are one item, as an empty array is. */
  predicate Steppable(v: Value) {
    IsRange(v) && (v.elements[3].Many? ==> v.elements[3].elements == [])
  }

  predicate TimesTaken(e: Entry) {
    e.range.Some? ==> Timed(e.range.value)
  }

  predicate AllRanges(es: seq<Entry>) {
    forall i | 0 <= i < |es| && es[i].range.Some? :: IsRange(es[i].range.value)
  }

  predicate AllTimed(es: seq<Entry>) {
    forall i | 0 <= i < |es| :: TimesTaken(es[i])
  }

  /** Every entry that another one follows is either without a range or has a steppable one. */
  predicate AllSteppable(es: seq<Entry>) {
    AllRanges(es) && forall i | 0 <= i < |es| - 1 && es[i].range.Some? :: Steppable(es[i].range.value)
  }

  /** What one entry should come back as. */
  function Expected(e: Entry, toTime: seq<byte> -> nat): MethodDesc
    requires e.range.Some? ==> IsRange(e.range.value)
  {
    MethodDesc(e.d.classId, e.d.obis, e.d.attr,
               if e.range.None? then None else Some((toTime(From(e.range.value)), toTime(To(e.range.value)))))
  }

  function AllExpected(es: seq<Entry>, toTime: seq<byte> -> nat): seq<MethodDesc>
    requires AllRanges(es)
  {
    if es == [] then [] else [Expected(es[0], toTime)] + AllExpected(es[1..], toTime)
  }

  /** What the reader returns: everything, or failure at the first times it does not take, after
      the entries before them. */
  function ListResult(es: seq<Entry>, toTime: seq<byte> -> nat): ListData
    requires AllRanges(es)
  {
    if es == [] then ListData(true, [])
    else if !TimesTaken(es[0]) then ListData(false, [])
    else
      var more := ListResult(es[1..], toTime);
      ListData(more.ok, [Expected(es[0], toTime)] + more.descs)
  }

  /** The reader's two times: none exactly for an octet string followed by a date-time, which
      the readers of normal requests do take. */
  lemma TimesExactly(v: Value, toTime: seq<byte> -> nat)
    requires WellFormed(v) && IsRange(v)
    ensures TimesAt(Flatten(v), 6, toTime)
         == Got(if Timed(v) then Some((toTime(From(v)), toTime(To(v)))) else None)
  {
    hide RuleOf, DataRule, Flatten, WellFormed;
    RangeShape(v);
    ElementsWellFormed(v, 1);
    ElementsWellFormed(v, 2);
    TimeItem(v.elements[1]);
    TimeItem(v.elements[2]);
  }

  lemma RangeTail(v: Value)
    requires WellFormed(v) && IsRange(v)
    ensures WellFormed(v.elements[3]) && |Flatten(v.elements[3])| >= 1
    ensures |Flatten(v)| >= 8 && Flatten(v)[8..] == Flatten(v.elements[3])
  {
    hide RuleOf, DataRule, Flatten, WellFormed, IsTime;
    RangeShape(v);
    ElementsWellFormed(v, 3);
    AtLeastOneItem(v.elements[3]);
  }

  lemma AtLeastOneItem(v: Value)
    requires WellFormed(v)
    ensures |Flatten(v)| >= 1
  {
    hide IsTimeString;
  }

  lemma {:induction false} EntriesShift(before: seq<Item>, rs: seq<Item>, pos: nat, count: nat,
    toTime: seq<byte> -> nat)
    ensures Entries(before + rs, |before| + pos, count, toTime) == Entries(rs, pos, count, toTime)
    decreases count
  {
    hide Uint16, Obis, ByteAt, TimesAt, Push;
    if count > 0 && pos + 4 <= |rs| {
      TimesShift(before, rs, pos + 11, toTime);
      EntriesShift(before, rs, pos + 4, count - 1, toTime);
      EntriesShift(before, rs, pos + 14, count - 1, toTime);
    }
  }

  lemma TimesShift(before: seq<Item>, rs: seq<Item>, pos: nat, toTime: seq<byte> -> nat)
    ensures TimesAt(before + rs, |before| + pos, toTime) == TimesAt(rs, pos, toTime)
  {
    hide IsTimeString;
  }

  lemma TimesPrefix(rs: seq<Item>, more: seq<Item>, pos: nat, toTime: seq<byte> -> nat)
    requires TimesAt(rs, pos, toTime).Got?
    ensures TimesAt(rs + more, pos, toTime) == TimesAt(rs, pos, toTime)
  {
    hide IsTimeString;
  }

  /** The items the reader leaves of a list that opens with entry `e`: it always resumes one
      item into the selected values of a range. */
  function LeftOver(e: Entry): seq<Item>
    requires e.Valid() && (e.range.Some? ==> IsRange(e.range.value))
  {
    if e.range.None? then [] else
      RangeTail(e.range.value);
      Flatten(e.range.value.elements[3])[1..]
  }

  /** One round of the list reader, whatever the times and the selected values are. */
  lemma ReadOne(e: Entry, more: seq<Item>, count: nat, toTime: seq<byte> -> nat)
    requires e.Valid() && (e.range.Some? ==> IsRange(e.range.value)) && 0 < count
    ensures Entries(DescriptorItems(e.d) + (SelectionItems(e) + more), 0, count, toTime)
         == if TimesTaken(e) then Push(Expected(e, toTime), Entries(LeftOver(e) + more, 0, count - 1, toTime))
            else Got(ListData(false, []))
  {
    hide DescriptorItems, Octets, WellFormed, Flatten, IsRange, Timed, TimesAt, Uint16, Obis, From, To;
    var rs := DescriptorItems(e.d) + (SelectionItems(e) + more);
    DescriptorFields(e.d);
    assert rs[3] == SelectionItems(e)[0];
    if e.range.None? {
      assert rs == (DescriptorItems(e.d) + SelectionItems(e)) + (LeftOver(e) + more);
      EntriesShift(DescriptorItems(e.d) + SelectionItems(e), LeftOver(e) + more, 0, count - 1, toTime);
    } else {
      ReadRange(e, more, count, toTime);
    }
  }

  lemma ReadRange(e: Entry, more: seq<Item>, count: nat, toTime: seq<byte> -> nat)
    requires e.Valid() && e.range.Some? && IsRange(e.range.value) && 0 < count
    ensures var rs := DescriptorItems(e.d) + (SelectionItems(e) + more);
            |rs| >= 4 && ByteAt(rs[3], 0) == 1 &&
            TimesAt(rs, 11, toTime)
            == Got(if Timed(e.range.value) then Some((toTime(From(e.range.value)), toTime(To(e.range.value))))
                   else None) &&
            Entries(rs, 14, count - 1, toTime) == Entries(LeftOver(e) + more, 0, count - 1, toTime)
  {
    hide DescriptorItems, Octets, WellFormed, Flatten, IsRange, Timed, TimesAt, From, To, Entries;
    var rs, v := DescriptorItems(e.d) + (SelectionItems(e) + more), e.range.value;
    TimesExactly(v, toTime);
    RangeTail(v);
    var front := DescriptorItems(e.d) + SelectionItems(e)[..2];
    assert rs == front + (Flatten(v) + more);
    TimesPrefix(Flatten(v), more, 6, toTime);
    TimesShift(front, Flatten(v) + more, 6, toTime);
    assert Flatten(v)[9..] == LeftOver(e);
    assert rs == (front + Flatten(v)[..9]) + (LeftOver(e) + more);
    EntriesShift(front + Flatten(v)[..9], LeftOver(e) + more, 0, count - 1, toTime);
  }

  /** So the reader is at the next entry exactly when the selected values are one item. */
  lemma ResumesAtNextEntry(e: Entry)
    requires e.Valid() && (e.range.Some? ==> IsRange(e.range.value))
    ensures LeftOver(e) == [] <==> (e.range.Some? ==> Steppable(e.range.value))
  {
    hide WellFormed, Flatten, IsTime;
    if e.range.Some? {
      RangeTail(e.range.value);
      OneItemExactly(e.range.value.elements[3]);
    }
  }

  lemma OneItemExactly(v: Value)
    requires WellFormed(v)
    ensures |Flatten(v)| == 1 <==> (v.Many? ==> v.elements == [])
  {
    hide RuleOf, DataRule, Decimal;
    if v.Many? && v.elements != [] {
      hide Flatten;
      OneThenRest(v.elements);
      AtLeastOneItem(v.elements[0]);
      ManyFlat(v);
    }
  }

  lemma ManyFlat(v: Value)
    requires WellFormed(v) && v.Many?
    ensures |Flatten(v)| == 1 + |FlattenAll(v.elements)|
  {
    hide RuleOf, DataRule, FlattenAll;
  }

  lemma {:induction false} ReadEntries(es: seq<Entry>, count: nat, toTime: seq<byte> -> nat)
    requires AllValid(es) && count <= |es| && AllSteppable(es[..count])
    ensures Entries(EntryItems(es), 0, count, toTime) == Got(ListResult(es[..count], toTime))
    decreases |es|
  {
    hide DescriptorItems, SelectionItems, Expected, LeftOver, IsRange, TimesTaken, Entries, WellFormed;
    EntriesNone(EntryItems(es), toTime);
    if count > 0 {
      var kept := es[..count];
      assert kept[0] == es[0] && kept[1..] == es[1..][..count - 1];
      ReadOne(es[0], EntryItems(es[1..]), count, toTime);
      if count == 1 {
        EntriesNone(LeftOver(es[0]) + EntryItems(es[1..]), toTime);
      } else {
        ResumesAtNextEntry(es[0]);
        assert [] + EntryItems(es[1..]) == EntryItems(es[1..]);
        ReadEntries(es[1..], count - 1, toTime);
      }
    }
  }

  lemma EntriesNone(rs: seq<Item>, toTime: seq<byte> -> nat)
    ensures Entries(rs, 0, 0, toTime) == Got(ListData(true, []))
  {
  }

  /** The reader on the list item and the entries' items. */
  lemma ListReadsEntries(invoke: byte, es: seq<Entry>, toTime: seq<byte> -> nat)
    requires AllValid(es)
    ensures ListEntries(GetListItems(invoke, es), toTime) == Entries(EntryItems(es), 0, |es| % 256, toTime)
  {
    hide Contains, FindItem, EntryItems, InvokeItem, Entries, AllValid;
    var rs := GetListItems(invoke, es);
    ListPosition(invoke, es);
    assert rs == [PDU_ITEM, InvokeItem(invoke), ListItem(|es|)] + EntryItems(es);
    EntriesShift([PDU_ITEM, InvokeItem(invoke), ListItem(|es|)], EntryItems(es), 0, |es| % 256, toTime);
  }

  /** Main result: `get_list_data` on the list of a parsed GET-with-list request reads the first
      `count mod 256` entries, in order, because the list item keeps one byte of the count, and
      fails at the first of them whose times it does not take. Only the entries before the last
      of them have to be steppable. */
  lemma ListReadBack(invoke: byte, es: seq<Entry>, toTime: seq<byte> -> nat)
    requires AllValid(es) && AllSteppable(es[..|es| % 256])
    ensures ListEntries(GetListItems(invoke, es), toTime) == Got(ListResult(es[..|es| % 256], toTime))
  {
    hide *;
    ListReadsEntries(invoke, es, toTime);
    ReadEntries(es, |es| % 256, toTime);
  }

  lemma {:induction false} ResultExactly(es: seq<Entry>, toTime: seq<byte> -> nat)
    requires AllRanges(es)
    ensures ListResult(es, toTime) == ListData(true, AllExpected(es, toTime)) <==> AllTimed(es)
    ensures |ListResult(es, toTime).descs| <= |es| == |AllExpected(es, toTime)|
    decreases |es|
  {
    hide Expected, IsRange, TimesTaken;
    if es != [] {
      ResultExactly(es[1..], toTime);
      AllTimedSplit(es);
      SameTail(Expected(es[0], toTime), ListResult(es[1..], toTime).descs, AllExpected(es[1..], toTime));
    }
  }

  lemma SameTail(desc: MethodDesc, a: seq<MethodDesc>, b: seq<MethodDesc>)
    ensures [desc] + a == [desc] + b <==> a == b
  {
    assert ([desc] + a)[1..] == a && ([desc] + b)[1..] == b;
  }

  lemma AllTimedSplit(es: seq<Entry>)
    requires es != []
    ensures AllTimed(es) <==> TimesTaken(es[0]) && AllTimed(es[1..])
  {
    hide TimesTaken;
    if TimesTaken(es[0]) && AllTimed(es[1..]) {
      forall i | 0 <= i < |es| ensures TimesTaken(es[i]) {
        if i > 0 { assert es[i] == es[1..][i - 1]; }
      }
    }
  }

  /** A list fails at its first entry whose times are not taken, with the entries before it. */
  lemma {:induction false} FailsAtMixedTimes(es: seq<Entry>, k: nat, toTime: seq<byte> -> nat)
    requires AllRanges(es) && k < |es| && AllTimed(es[..k]) && !TimesTaken(es[k])
    ensures ListResult(es, toTime) == ListData(false, AllExpected(es[..k], toTime))
    decreases k
  {
    hide Expected, IsRange, TimesTaken;
    if k > 0 {
      assert es[..k][0] == es[0] && es[..k][1..] == es[1..][..k - 1];
      FailsAtMixedTimes(es[1..], k - 1, toTime);
    }
  }

  /** So every entry comes back exactly when there are at most 255 of them and no range has an
      octet string before a date-time. */
  lemma ListComesBackWhole(invoke: byte, es: seq<Entry>, toTime: seq<byte> -> nat)
    requires AllValid(es) && AllRanges(es) && AllSteppable(es[..|es| % 256])
    ensures ComesBack(invoke, es, toTime) <==> |es| < 256 && AllTimed(es)
  {
    hide ListEntries, GetListItems, AllExpected, ListResult, AllRanges, AllSteppable, AllValid, AllTimed;
    var kept := es[..|es| % 256];
    ListReadBack(invoke, es, toTime);
    assert |es| < 256 ==> kept == es;
    ResultExactly(es, toTime);
    KeptRanges(es);
    ResultExactly(kept, toTime);
  }

  lemma KeptRanges(es: seq<Entry>)
    requires AllRanges(es)
    ensures AllRanges(es[..|es| % 256])
  {
    hide IsRange;
  }

  predicate ComesBack(invoke: byte, es: seq<Entry>, toTime: seq<byte> -> nat)
    requires AllValid(es) && AllRanges(es)
  {
    ListEntries(GetListItems(invoke, es), toTime) == Got(ListData(true, AllExpected(es, toTime)))
  }

  lemma ListPosition(invoke: byte, es: seq<Entry>)
    requires AllValid(es)
    ensures FindItem(GetListItems(invoke, es), "attribute_descriptor_list", 0) == 2
  {
    hide Contains, FindItem, EntryItems;
    var rs := GetListItems(invoke, es);
    NoEllInHeader(invoke);
    assert "attribute_descriptor_list"[21] == 'l';
    LacksChar(rs[0].des, "attribute_descriptor_list", 'l');
    LacksChar(rs[1].des, "attribute_descriptor_list", 'l');
    FindSkips(rs, "attribute_descriptor_list", 0, 2);
    ContainsItself("attribute_descriptor_list");
    FindHere(rs, "attribute_descriptor_list", 2);
  }

  lemma NoEllInHeader(invoke: byte)
    ensures 'l' !in PDU_ITEM.des && 'l' !in InvokeItem(invoke).des
  {
  }

  // Selected values that are not one item

  /** Two entries, the second without a range. */
  function Pair(e: Entry, d: Descriptor): (es: seq<Entry>)
    requires e.Valid() && d.Valid() && (e.range.Some? ==> IsRange(e.range.value))
    ensures |es| == 2 && AllValid(es) && AllRanges(es)
  {
    [e, Entry(d, None)]
  }

  /** Main result: a range can be followed by any entry and both come back exactly when its
      times are taken and its selected values are one item. */
  lemma FollowedExactly(invoke: byte, e: Entry, toTime: seq<byte> -> nat)
    requires e.Valid() && e.range.Some? && IsRange(e.range.value)
    ensures Timed(e.range.value) && Steppable(e.range.value)
       <==> forall d: Descriptor | d.Valid() :: ComesBack(invoke, Pair(e, d), toTime)
  {
    hide ComesBack, IsRange, LeftOver, Timed, Steppable;
    if Timed(e.range.value) && Steppable(e.range.value) {
      forall d: Descriptor | d.Valid() ensures ComesBack(invoke, Pair(e, d), toTime) {
        SteppableComesBack(invoke, e, d, toTime);
      }
    } else {
      var d := Misread(e);
      MisreadAfter(invoke, e, d, toTime);
      assert d.Valid();
    }
  }

  lemma SteppableComesBack(invoke: byte, e: Entry, d: Descriptor, toTime: seq<byte> -> nat)
    requires e.Valid() && d.Valid() && e.range.Some? && Timed(e.range.value) && Steppable(e.range.value)
    ensures ComesBack(invoke, Pair(e, d), toTime)
  {
    hide ComesBack, IsRange, WellFormed;
    var es := Pair(e, d);
    assert es[..2] == es;
    ListComesBackWhole(invoke, es, toTime);
  }

  /** A descriptor whose class is not what the left-over items start with. */
  function Misread(e: Entry): (d: Descriptor)
    requires e.Valid() && (e.range.Some? ==> IsRange(e.range.value))
    ensures d.Valid() && (LeftOver(e) != [] ==> d.classId != Uint16(LeftOver(e)[0]))
  {
    hide LeftOver, Uint16;
    Descriptor(if LeftOver(e) != [] && Uint16(LeftOver(e)[0]) == 1 then 2 else 1, seq(6, _ => 0), 2)
  }

  lemma MisreadAfter(invoke: byte, e: Entry, d: Descriptor, toTime: seq<byte> -> nat)
    requires e.Valid() && d.Valid() && e.range.Some? && IsRange(e.range.value)
    requires !Timed(e.range.value) || !Steppable(e.range.value)
    requires LeftOver(e) != [] ==> d.classId != Uint16(LeftOver(e)[0])
    ensures !ComesBack(invoke, Pair(e, d), toTime)
  {
    hide *;
    var es, second := Pair(e, d), Entry(d, None);
    ListReadsEntries(invoke, es, toTime);
    ComesBackMeans(invoke, es, toTime);
    PairExpected(e, d, toTime);
    PairMisread(e, d, toTime);
  }

  lemma PairExpected(e: Entry, d: Descriptor, toTime: seq<byte> -> nat)
    requires e.Valid() && d.Valid() && (e.range.Some? ==> IsRange(e.range.value))
    ensures |AllExpected(Pair(e, d), toTime)| == 2 && AllExpected(Pair(e, d), toTime)[1].classId == d.classId
  {
    hide AllExpected, IsRange, EntryItems;
    TwoEntries(e, Entry(d, None), toTime);
  }

  lemma PairMisread(e: Entry, d: Descriptor, toTime: seq<byte> -> nat)
    requires e.Valid() && d.Valid() && e.range.Some? && IsRange(e.range.value)
    requires !Timed(e.range.value) || !Steppable(e.range.value)
    requires LeftOver(e) != [] ==> d.classId != Uint16(LeftOver(e)[0])
    ensures var r := Entries(EntryItems(Pair(e, d)), 0, |Pair(e, d)| % 256, toTime);
            r.Got? && r.value.ok ==> |r.value.descs| == 2 && r.value.descs[1].classId != d.classId
  {
    hide WellFormed, IsRange, LeftOver, AllExpected, Entries, EntryItems, Uint16, Timed, Steppable, Expected,
      DescriptorItems, SelectionItems;
    var second := Entry(d, None);
    TwoEntries(e, second, toTime);
    ReadOne(e, EntryItems([second]), 2, toTime);
    ResumesAtNextEntry(e);
    if Timed(e.range.value) { MisreadSecond(LeftOver(e), EntryItems([second]), toTime); }
  }

  lemma TwoEntries(first: Entry, second: Entry, toTime: seq<byte> -> nat)
    requires first.Valid() && second.Valid() && AllRanges([first, second])
    ensures first.range.Some? ==> IsRange(first.range.value)
    ensures second.range.Some? ==> IsRange(second.range.value)
    ensures var es := [first, second];
            AllExpected(es, toTime) == [Expected(first, toTime), Expected(second, toTime)] &&
            EntryItems(es) == DescriptorItems(first.d) + (SelectionItems(first) + EntryItems([second]))
  {
    hide WellFormed, IsRange, Expected, SelectionItems, DescriptorItems;
    var es := [first, second];
    assert es[0] == first && es[1] == second;
    assert es[1..] == [second] && [second][1..] == [];
    assert AllExpected(es, toTime) == [Expected(first, toTime)] + AllExpected([second], toTime);
    assert AllExpected([second], toTime) == [Expected(second, toTime)] + AllExpected([], toTime);
  }

  lemma MisreadSecond(left: seq<Item>, more: seq<Item>, toTime: seq<byte> -> nat)
    requires left != []
    ensures var r := Entries(left + more, 0, 1, toTime);
            r.Got? && r.value.ok ==> |r.value.descs| == 1 && r.value.descs[0].classId == Uint16(left[0])
  {
    hide Uint16, Obis, TimesAt;
    assert |left + more| > 0 ==> (left + more)[0] == left[0];
  }

  const NOTHING := Fixed(0, [])

  /** A range between two date-times that selects one value: taken, but not steppable. */
  const ONE_SELECTED := Many(2, Short,
    [Many(2, Short, [NOTHING, NOTHING, NOTHING, NOTHING]), Fixed(25, seq(12, _ => 0)), Fixed(25, seq(12, _ => 0)),
     Many(1, Short, [NOTHING])])

  /** A range from an octet string to a date-time, with nothing selected. */
  const MIXED_TIMES := Many(2, Short,
    [Many(2, Short, [NOTHING, NOTHING, NOTHING, NOTHING]), Unfixed(9, Short, seq(12, _ => 0)),
     Fixed(25, seq(12, _ => 0)), Many(1, Short, [])])

  lemma SampleRanges()
    ensures WellFormed(ONE_SELECTED) && Timed(ONE_SELECTED) && !Steppable(ONE_SELECTED)
    ensures WellFormed(MIXED_TIMES) && Steppable(MIXED_TIMES) && !Timed(MIXED_TIMES)
  {
    var restricting := Many(2, Short, [NOTHING, NOTHING, NOTHING, NOTHING]);
    var time := Fixed(25, seq(12, _ => 0));
    assert WellFormed(NOTHING) && WellFormed(time) && WellFormed(Unfixed(9, Short, seq(12, _ => 0)));
    assert WellFormed(restricting) && WellFormed(Many(1, Short, [NOTHING])) && WellFormed(Many(1, Short, []));
    assert ONE_SELECTED == Many(2, Short, [restricting, time, time, Many(1, Short, [NOTHING])]);
    assert MIXED_TIMES
        == Many(2, Short, [restricting, Unfixed(9, Short, seq(12, _ => 0)), time, Many(1, Short, [])]);
  }

  /** Both ways to fail have an input: a list with a selected value whose next entry is read
      wrong, and one entry with mixed times, which is refused although it is the only one. */
  lemma ListsThatFail(invoke: byte, toTime: seq<byte> -> nat)
    ensures var e := Entry(Descriptor(8, seq(6, _ => 0), 2), Some(ONE_SELECTED));
            e.Valid() && IsRange(ONE_SELECTED) && !ComesBack(invoke, Pair(e, Misread(e)), toTime)
    ensures var e := Entry(Descriptor(8, seq(6, _ => 0), 2), Some(MIXED_TIMES));
            AllValid([e]) && AllRanges([e]) &&
            ListEntries(GetListItems(invoke, [e]), toTime) == Got(ListData(false, []))
  {
    SampleRanges();
    hide WellFormed, IsTime, ONE_SELECTED, MIXED_TIMES, LeftOver;
    var e := Entry(Descriptor(8, seq(6, _ => 0), 2), Some(ONE_SELECTED));
    assert e.Valid();
    MisreadAfter(invoke, e, Misread(e), toTime);
    var f := Entry(Descriptor(8, seq(6, _ => 0), 2), Some(MIXED_TIMES));
    assert f.Valid();
    MixedAlone(invoke, f, toTime);
  }

  lemma MixedAlone(invoke: byte, e: Entry, toTime: seq<byte> -> nat)
    requires e.Valid() && e.range.Some? && IsRange(e.range.value) && !Timed(e.range.value)
    ensures AllValid([e]) && AllRanges([e])
    ensures ListEntries(GetListItems(invoke, [e]), toTime) == Got(ListData(false, []))
  {
    hide IsRange, Timed, WellFormed, ListEntries, GetListItems;
    assert [e][..1] == [e];
    ListReadBack(invoke, [e], toTime);
  }

  // From bytes to what was asked

  /** Main result: the bytes of a GET-with-list request, parsed and then read, give back what was
      encoded, exactly when there are at most 255 entries and no range has mixed times. */
  lemma GetListRoundTrip(invoke: byte, form: LengthForm, es: seq<Entry>, toTime: seq<byte> -> nat)
    requires AllValid(es) && AllRanges(es) && AllSteppable(es[..|es| % 256]) && Fits(form, |es|)
    requires |EncodeGetList(invoke, form, es)| < 0x8000_0000
    ensures var s := EncodeGetList(invoke, form, es);
            var o := Parse(CosemPdu, "", s);
            o.Parsed? && o.consumed == |s| &&
            (ListEntries(o.items, toTime) == Got(ListData(true, AllExpected(es, toTime)))
             <==> |es| < 256 && AllTimed(es))
  {
    hide *;
    ParseGetList(invoke, form, es, []);
    assert EncodeGetList(invoke, form, es) + [] == EncodeGetList(invoke, form, es);
    ListComesBackWhole(invoke, es, toTime);
    ComesBackMeans(invoke, es, toTime);
  }

  lemma ComesBackMeans(invoke: byte, es: seq<Entry>, toTime: seq<byte> -> nat)
    requires AllValid(es) && AllRanges(es)
    ensures ComesBack(invoke, es, toTime)
       <==> ListEntries(GetListItems(invoke, es), toTime) == Got(ListData(true, AllExpected(es, toTime)))
  {
    hide ListEntries, GetListItems, AllExpected;
  }

  /** Main result: so do the bytes of every normal request. */
  lemma GetNormalRoundTrip(invoke: byte, d: Descriptor, a: Access, toTime: seq<byte> -> nat)
    requires d.Valid() && ValidAccess(a) && |EncodeGetNormal(invoke, d, a)| < 0x8000_0000
    ensures var s := EncodeGetNormal(invoke, d, a);
            var o := Parse(CosemPdu, "", s);
            o.Parsed? && o.consumed == |s| &&
            Selector(o.items) == (if a.NoAccess? then 0 else a.selector) &&
            (a.Selected? && IsRange(a.parameters) ==>
               TimeAfterSelector(o.items, 7, toTime) == Got(toTime(From(a.parameters))) &&
               TimeAfterSelector(o.items, 8, toTime) == Got(toTime(To(a.parameters))))
  {
    hide *;
    ParseGetNormal(invoke, d, a, []);
    assert EncodeGetNormal(invoke, d, a) + [] == EncodeGetNormal(invoke, d, a);
    SelectorReadBack(invoke, d, a);
    if a.Selected? && IsRange(a.parameters) { TimesReadBack(invoke, d, a, toTime); }
  }
}
