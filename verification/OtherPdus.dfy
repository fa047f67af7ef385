/** The other PDUs the grammar can parse: their encodings, octet by octet, and exact consumption. */
module OtherPdus {
  import opened Bytes
  import opened AsnGrammar
  import opened AsnSpec
  import opened CosemData
  import opened CosemRequest
  import opened GetRequests

  function PduItem(tag: byte): Item {
    Item(CosemPdu, "cosem_pdu", [tag])
  }

  /** A choice octet, the alternative it selects, and the item it leaves unless that is null. */
  predicate Chooses(tid: TypeId, choice: nat, alternative: TypeId, item: TypeId, des: string) {
    var r := RuleOf(tid, "");
    r.Choice? && choice < |r.alternatives| && r.alternatives[choice] == alternative && r.tid == item &&
    (item != Null ==> r.des == des)
  }

  lemma ReadsChosen(tid: TypeId, choice: byte, alternative: TypeId, item: TypeId, des: string,
    body: seq<byte>, items: seq<Item>)
    requires Chooses(tid, choice, alternative, item, des) && Reads(alternative, body, items)
    ensures Reads(tid, [choice] + body, if item != Null then [Item(item, des, [choice])] + items else items)
  {
    hide RuleOf, Reads;
    ReadsChoice(tid, RuleOf(tid, ""), choice, body, items);
  }

  lemma ChoosesPdu()
    ensures Chooses(CosemPdu, 192, GetRequest, CosemPdu, "cosem_pdu")
    ensures Chooses(CosemPdu, 193, SetRequest, CosemPdu, "cosem_pdu")
    ensures Chooses(CosemPdu, 195, ActionRequest, CosemPdu, "cosem_pdu")
    ensures Chooses(CosemPdu, 196, GetResponse, CosemPdu, "cosem_pdu")
    ensures Chooses(CosemPdu, 197, SetResponse, CosemPdu, "cosem_pdu")
  {
    RuleOfAnyPdu();
    hide RuleOf, ChoiceRule;
  }

  lemma RuleOfAnyPdu()
    ensures var r := RuleOf(CosemPdu, "");
            r.Choice? && |r.alternatives| == 256 && r.tid == CosemPdu && r.des == "cosem_pdu" &&
            r.alternatives[192] == GetRequest && r.alternatives[193] == SetRequest &&
            r.alternatives[195] == ActionRequest && r.alternatives[196] == GetResponse &&
            r.alternatives[197] == SetResponse
  {
  }

  lemma ChoosesSet()
    ensures Chooses(SetRequest, 1, SetRequestNormal, Null, "")
  {
  }

  lemma ChoosesAction()
    ensures Chooses(ActionRequest, 1, ActionRequestNormal, Null, "")
  {
  }

  lemma ChoosesNext()
    ensures Chooses(GetRequest, 2, GetRequestNext, Null, "")
  {
  }

  lemma ChoosesSetResponse()
    ensures Chooses(SetResponse, 1, SetResponseNormal, Null, "")
  {
  }

  lemma ChoosesGetResponse()
    ensures Chooses(GetResponse, 1, GetResponseNormal, GetResponse, "get_response")
    ensures Chooses(GetResponse, 2, GetResponseWithDatablock, GetResponse, "get_response")
  {
  }

  // ACTION-Request-Normal

  datatype Parameters = NoParameters | Given(flag: byte, value: Value)

  predicate ValidParameters(p: Parameters) {
    p.Given? ==> p.flag != 0 && WellFormed(p.value)
  }

  function EncodeParameters(p: Parameters): seq<byte>
    requires ValidParameters(p)
  {
    if p.NoParameters? then [0] else [p.flag] + Encode(p.value)
  }

  function ParameterItems(p: Parameters): seq<Item>
    requires ValidParameters(p)
  {
    if p.NoParameters? then [] else Flatten(p.value)
  }

  const ACTION_RULE := Sequence([InvokeIdAndPriority, CosemAttributeDescriptor, Data], 4, "")

  lemma RuleOfAction()
    ensures RuleOf(ActionRequestNormal, "") == ACTION_RULE
  {
  }

  lemma PartsParameters(rank: nat, p: Parameters)
    requires AllBelow(ACTION_RULE.parts, rank) && ValidParameters(p)
    ensures PartsRead(ACTION_RULE, 2, rank, EncodeParameters(p), ParameterItems(p))
  {
    hide RuleOf, Chooses, Reads, PartsRead, Optional, AllBelow, Rank, WellFormed, Encode, Flatten;
    Masks();
    PartsEnd(ACTION_RULE, rank);
    if p.NoParameters? {
      PartsAbsent(ACTION_RULE, 2, rank, [], []);
      assert [0] + [] == EncodeParameters(p);
    } else {
      ReadsData(p.value);
      PartsPresent(ACTION_RULE, 2, rank, p.flag, Encode(p.value), Flatten(p.value), [], []);
      assert Encode(p.value) + [] == Encode(p.value) && Flatten(p.value) + [] == Flatten(p.value);
    }
  }

  /** A normal ACTION request, with or without parameters, is consumed exactly. */
  lemma ReadsActionNormal(invoke: byte, d: Descriptor, p: Parameters)
    requires d.Valid() && ValidParameters(p)
    ensures Reads(CosemPdu, [195] + ([1] + ([invoke] + (EncodeDescriptor(d) + EncodeParameters(p)))),
      [PduItem(195)] + ([InvokeItem(invoke)] + (DescriptorItems(d) + ParameterItems(p))))
  {
    hide RuleOf, Chooses, Reads, PartsRead, Optional, AllBelow, Rank, ValidParameters, EncodeParameters, ParameterItems,
      EncodeDescriptor, DescriptorItems;
    var rank := Rank(ActionRequestNormal);
    var e, x := EncodeDescriptor(d), EncodeParameters(p);
    var items := [InvokeItem(invoke)] + (DescriptorItems(d) + ParameterItems(p));
    RuleOfAction();
    ChoosesPdu();
    ChoosesAction();
    RuleOfInvokeId();
    Masks();
    ReadsFixed(InvokeIdAndPriority, "invoke_id_and_priority", [invoke]);
    ReadsDescriptor(d);
    PartsParameters(rank, p);
    PartsNext(ACTION_RULE, 1, rank, e, DescriptorItems(d), x, ParameterItems(p));
    PartsNext(ACTION_RULE, 0, rank, [invoke], [InvokeItem(invoke)], e + x, DescriptorItems(d) + ParameterItems(p));
    ReadsSequence(ActionRequestNormal, ACTION_RULE, [invoke] + (e + x), items);
    ReadsChosen(ActionRequest, 1, ActionRequestNormal, Null, "", [invoke] + (e + x), items);
    ReadsChosen(CosemPdu, 195, ActionRequest, CosemPdu, "cosem_pdu", [1] + ([invoke] + (e + x)), items);
  }

  // SET-Request-Normal

  const SET_RULE :=
    Sequence([InvokeIdAndPriority, CosemAttributeDescriptor, SelectiveAccessDescriptor, Data], 4, "")

  lemma RuleOfSet()
    ensures RuleOf(SetRequestNormal, "") == SET_RULE
  {
  }

  lemma PartsAccessAndData(rank: nat, a: Access, v: Value)
    requires AllBelow(SET_RULE.parts, rank) && ValidAccess(a) && WellFormed(v)
    ensures PartsRead(SET_RULE, 2, rank, EncodeAccess(a) + Encode(v), AccessItems(a) + Flatten(v))
  {
    hide RuleOf, Chooses, Reads, PartsRead, Optional, AllBelow, Rank, WellFormed, Encode, Flatten, SelectorItem;
    Masks();
    ReadsData(v);
    PartsLast(SET_RULE, 3, rank, Encode(v), Flatten(v));
    if a.NoAccess? {
      PartsAbsent(SET_RULE, 2, rank, Encode(v), Flatten(v));
      assert [] + Flatten(v) == Flatten(v);
    } else {
      var bytes, items := [a.selector] + Encode(a.parameters), [SelectorItem(a.selector)] + Flatten(a.parameters);
      ReadsSelected(a.selector, a.parameters);
      PartsPresent(SET_RULE, 2, rank, a.flag, bytes, items, Encode(v), Flatten(v));
      assert [a.flag] + (bytes + Encode(v)) == [a.flag] + bytes + Encode(v);
    }
  }

  /** A normal SET request, with or without selective access, is consumed exactly. */
  lemma ReadsSetNormal(invoke: byte, d: Descriptor, a: Access, v: Value)
    requires d.Valid() && ValidAccess(a) && WellFormed(v)
    ensures Reads(CosemPdu, [193] + ([1] + ([invoke] + (EncodeDescriptor(d) + (EncodeAccess(a) + Encode(v))))),
      [PduItem(193)] + ([InvokeItem(invoke)] + (DescriptorItems(d) + (AccessItems(a) + Flatten(v)))))
  {
    hide RuleOf, Chooses, Reads, PartsRead, Optional, AllBelow, Rank, WellFormed, ValidAccess, EncodeAccess,
      AccessItems,
      EncodeDescriptor, DescriptorItems, Encode, Flatten;
    var rank := Rank(SetRequestNormal);
    var e, x, more := EncodeDescriptor(d), EncodeAccess(a) + Encode(v), AccessItems(a) + Flatten(v);
    var items := [InvokeItem(invoke)] + (DescriptorItems(d) + more);
    RuleOfSet();
    ChoosesPdu();
    ChoosesSet();
    RuleOfInvokeId();
    Masks();
    ReadsFixed(InvokeIdAndPriority, "invoke_id_and_priority", [invoke]);
    ReadsDescriptor(d);
    PartsAccessAndData(rank, a, v);
    PartsNext(SET_RULE, 1, rank, e, DescriptorItems(d), x, more);
    PartsNext(SET_RULE, 0, rank, [invoke], [InvokeItem(invoke)], e + x, DescriptorItems(d) + more);
    ReadsSequence(SetRequestNormal, SET_RULE, [invoke] + (e + x), items);
    ReadsChosen(SetRequest, 1, SetRequestNormal, Null, "", [invoke] + (e + x), items);
    ReadsChosen(CosemPdu, 193, SetRequest, CosemPdu, "cosem_pdu", [1] + ([invoke] + (e + x)), items);
  }

  // PDUs of an invoke octet and one more part

  lemma ReadsInvokeAnd(tid: TypeId, mask: nat, part: TypeId, invoke: byte, bytes: seq<byte>, items: seq<Item>)
    requires RuleOf(tid, "") == Sequence([InvokeIdAndPriority, part], mask, "") && (mask == 0 || mask == 4)
    requires AllBelow([InvokeIdAndPriority, part], Rank(tid)) && Reads(part, bytes, items)
    ensures Reads(tid, [invoke] + bytes, [InvokeItem(invoke)] + items)
  {
    hide RuleOf, Reads, PartsRead, Optional, AllBelow, Rank;
    var r := Sequence([InvokeIdAndPriority, part], mask, "");
    RuleOfInvokeId();
    Masks();
    ReadsFixed(InvokeIdAndPriority, "invoke_id_and_priority", [invoke]);
    PartsLast(r, 1, Rank(tid), bytes, items);
    PartsNext(r, 0, Rank(tid), [invoke], [InvokeItem(invoke)], bytes, items);
    ReadsSequence(tid, r, [invoke] + bytes, [InvokeItem(invoke)] + items);
  }

  lemma RuleOfNext()
    ensures RuleOf(GetRequestNext, "") == Sequence([InvokeIdAndPriority, Unsigned32], 4, "")
    ensures RuleOf(Unsigned32, "") == FixedLength(4, Unsigned32, "unsigned32")
    ensures AllBelow([InvokeIdAndPriority, Unsigned32], Rank(GetRequestNext))
  {
    assert "" + "unsigned32" == "unsigned32";
  }

  /** A GET request for the next block: its number in four octets. */
  lemma ReadsGetNext(invoke: byte, block: seq<byte>)
    requires |block| == 4
    ensures Reads(CosemPdu, [192] + ([2] + ([invoke] + block)),
      [PduItem(192)] + ([InvokeItem(invoke)] + [Item(Unsigned32, "unsigned32", block)]))
  {
    hide RuleOf, Chooses, Reads, AllBelow, Rank;
    RuleOfNext();
    ChoosesPdu();
    ChoosesNext();
    var items := [InvokeItem(invoke)] + [Item(Unsigned32, "unsigned32", block)];
    ReadsFixed(Unsigned32, "unsigned32", block);
    ReadsInvokeAnd(GetRequestNext, 4, Unsigned32, invoke, block, [Item(Unsigned32, "unsigned32", block)]);
    ReadsChosen(GetRequest, 2, GetRequestNext, Null, "", [invoke] + block, items);
    ReadsChosen(CosemPdu, 192, GetRequest, CosemPdu, "cosem_pdu", [2] + ([invoke] + block), items);
  }

  function AccessResultItem(code: byte): Item {
    Item(DataAccessResult, "data_access_result", [code])
  }

  lemma RuleOfSetResponse()
    ensures RuleOf(SetResponseNormal, "") == Sequence([InvokeIdAndPriority, DataAccessResult], 0, "")
    ensures AllBelow([InvokeIdAndPriority, DataAccessResult], Rank(SetResponseNormal))
  {
  }

  lemma RuleOfAccessResult()
    ensures RuleOf(DataAccessResult, "") == FixedLength(1, DataAccessResult, "data_access_result")
  {
  }

  lemma ReadsSetResponse(invoke: byte, code: byte)
    ensures Reads(CosemPdu, [197] + ([1] + ([invoke] + [code])),
      [PduItem(197)] + ([InvokeItem(invoke)] + [AccessResultItem(code)]))
  {
    hide RuleOf, Chooses, Reads, AllBelow, Rank;
    RuleOfSetResponse();
    RuleOfAccessResult();
    ChoosesPdu();
    ChoosesSetResponse();
    var items := [InvokeItem(invoke)] + [AccessResultItem(code)];
    ReadsFixed(DataAccessResult, "data_access_result", [code]);
    ReadsInvokeAnd(SetResponseNormal, 0, DataAccessResult, invoke, [code], [AccessResultItem(code)]);
    ReadsChosen(SetResponse, 1, SetResponseNormal, Null, "", [invoke] + [code], items);
    ReadsChosen(CosemPdu, 197, SetResponse, CosemPdu, "cosem_pdu", [1] + ([invoke] + [code]), items);
  }

  // GET responses

  /** A value, or a code instead of one. */
  datatype Answer = Answer(value: Value) | Refusal(code: byte)

  predicate ValidAnswer(x: Answer) {
    x.Answer? ==> WellFormed(x.value)
  }

  function EncodeAnswer(x: Answer): seq<byte>
    requires ValidAnswer(x)
  {
    if x.Answer? then [0] + Encode(x.value) else [1] + [x.code]
  }

  function AnswerItems(x: Answer): seq<Item>
    requires ValidAnswer(x)
  {
    if x.Answer? then [Item(GetDataResult, "get_data_result", [0])] + Flatten(x.value)
    else [Item(GetDataResult, "get_data_result", [1])] + [AccessResultItem(x.code)]
  }

  lemma RuleOfGetResponse()
    ensures RuleOf(GetResponseNormal, "") == Sequence([InvokeIdAndPriority, GetDataResult], 0, "")
    ensures AllBelow([InvokeIdAndPriority, GetDataResult], Rank(GetResponseNormal))
  {
  }

  lemma RuleOfBlockResponse()
    ensures RuleOf(GetResponseWithDatablock, "") == Sequence([InvokeIdAndPriority, DatablockG], 0, "")
    ensures AllBelow([InvokeIdAndPriority, DatablockG], Rank(GetResponseWithDatablock))
  {
  }

  lemma RuleOfAnswer()
    ensures RuleOf(GetDataResult, "") == Choice([Data, DataAccessResult], GetDataResult, "get_data_result")
  {
  }

  lemma ReadsAnswer(x: Answer)
    requires ValidAnswer(x)
    ensures Reads(GetDataResult, EncodeAnswer(x), AnswerItems(x))
  {
    hide RuleOf, Chooses, Reads, AllBelow, Rank, WellFormed, Encode, Flatten;
    RuleOfAnswer();
    RuleOfAccessResult();
    var r := RuleOf(GetDataResult, "");
    if x.Answer? {
      ReadsData(x.value);
      ReadsChoice(GetDataResult, r, 0, Encode(x.value), Flatten(x.value));
    } else {
      ReadsFixed(DataAccessResult, "data_access_result", [x.code]);
      ReadsChoice(GetDataResult, r, 1, [x.code], [AccessResultItem(x.code)]);
    }
  }

  /** A normal GET response, with a value or a refusal, is consumed exactly. */
  lemma ReadsGetResponse(invoke: byte, x: Answer)
    requires ValidAnswer(x)
    ensures Reads(CosemPdu, [196] + ([1] + ([invoke] + EncodeAnswer(x))),
      [PduItem(196)] + ([Item(GetResponse, "get_response", [1])] + ([InvokeItem(invoke)] + AnswerItems(x))))
  {
    hide RuleOf, Chooses, Reads, AllBelow, Rank, ValidAnswer, EncodeAnswer, AnswerItems;
    RuleOfGetResponse();
    ChoosesPdu();
    ChoosesGetResponse();
    var items := [InvokeItem(invoke)] + AnswerItems(x);
    ReadsAnswer(x);
    ReadsInvokeAnd(GetResponseNormal, 0, GetDataResult, invoke, EncodeAnswer(x), AnswerItems(x));
    ReadsChosen(GetResponse, 1, GetResponseNormal, GetResponse, "get_response", [invoke] + EncodeAnswer(x), items);
    ReadsChosen(CosemPdu, 196, GetResponse, CosemPdu, "cosem_pdu", [1] + ([invoke] + EncodeAnswer(x)),
      [Item(GetResponse, "get_response", [1])] + items);
  }

  // The data block of a GET response, whose items have a prefix

  const BLOCK_RULE := Sequence([Boolean, Unsigned32, Result], 0, "datablock_g_")

  lemma RuleOfBlock()
    ensures RuleOf(DatablockG, "") == BLOCK_RULE && AllBelow(BLOCK_RULE.parts, Rank(DatablockG))
  {
  }

  lemma RuleOfPrefixed()
    ensures RuleOf(Boolean, "datablock_g_") == FixedLength(1, Boolean, "datablock_g_boolean")
    ensures RuleOf(Unsigned32, "datablock_g_") == FixedLength(4, Unsigned32, "datablock_g_unsigned32")
  {
    assert "datablock_g_" + "boolean" == "datablock_g_boolean";
    assert "datablock_g_" + "unsigned32" == "datablock_g_unsigned32";
  }

  lemma RuleOfResult(prefix: string)
    ensures RuleOf(Result, prefix) == Choice([RawData, DataAccessResult], Null, "")
  {
  }

  lemma RuleOfRawData()
    ensures RuleOf(RawData, "") == UnfixedLength(RawData, "raw_data")
  {
    assert "" + "raw_data" == "raw_data";
  }

  /** A result: raw data with a definite length, or a refusal. */
  datatype BlockResult = Raw(form: LengthForm, content: seq<byte>) | Refused(code: byte)

  predicate ValidResult(x: BlockResult) {
    x.Raw? ==> Fits(x.form, |x.content|)
  }

  function EncodeResult(x: BlockResult): seq<byte>
    requires ValidResult(x)
  {
    if x.Raw? then [0] + (EncodeLength(x.form, |x.content|) + x.content) else [1] + [x.code]
  }

  function ResultItem(x: BlockResult): Item {
    if x.Raw? then Item(RawData, "raw_data" + "_" + Decimal(|x.content|), x.content) else AccessResultItem(x.code)
  }

  lemma ReadsResult(x: BlockResult, rest: seq<byte>)
    requires ValidResult(x) && |EncodeResult(x)| + |rest| < 0x8000_0000
    ensures Parse(Result, "datablock_g_", EncodeResult(x) + rest) == Parsed(|EncodeResult(x)|, [ResultItem(x)])
  {
    hide RuleOf, Rank, Decimal, EncodeLength, Fits, ParseBuf, Parse;
    SamePrefix(EncodeResult(x) + rest);
    if x.Raw? { RawResult(x, rest); } else { RefusedResult(x, rest); }
  }

  lemma RawResult(x: BlockResult, rest: seq<byte>)
    requires x.Raw? && ValidResult(x) && |EncodeResult(x)| + |rest| < 0x8000_0000
    ensures Parse(Result, "", EncodeResult(x) + rest) == Parsed(|EncodeResult(x)|, [ResultItem(x)])
  {
    hide RuleOf, Rank, Decimal, EncodeLength, Fits, ParseBuf, Parse;
    RuleOfResult("");
    RuleOfRawData();
    var body := EncodeLength(x.form, |x.content|) + x.content;
    UnfixedContents(RuleOf(RawData, ""), Rank(RawData), x.form, x.content, rest);
    ParseIsBuf(RawData, body + rest);
    ChoiceAt(Result, RuleOf(Result, ""), 0, body, [ResultItem(x)], rest);
  }

  lemma RefusedResult(x: BlockResult, rest: seq<byte>)
    requires x.Refused? && |EncodeResult(x)| + |rest| < 0x8000_0000
    ensures Parse(Result, "", EncodeResult(x) + rest) == Parsed(|EncodeResult(x)|, [ResultItem(x)])
  {
    hide RuleOf, Rank, ParseBuf, Parse, AccessResultItem;
    RuleOfResult("");
    ParseAccessResult(x.code, rest);
    ChoiceAt(Result, RuleOf(Result, ""), 1, [x.code], [ResultItem(x)], rest);
  }

  lemma ParseAccessResult(code: byte, rest: seq<byte>)
    ensures Parse(DataAccessResult, "", [code] + rest) == Parsed(1, [AccessResultItem(code)])
  {
    hide RuleOf, Rank, ParseBuf, Parse;
    RuleOfAccessResult();
    FixedContents(RuleOf(DataAccessResult, ""), Rank(DataAccessResult), [code], rest);
    ParseIsBuf(DataAccessResult, [code] + rest);
  }

  lemma SamePrefix(s: seq<byte>)
    ensures Parse(Result, "datablock_g_", s) == Parse(Result, "", s)
  {
    RuleOfResult("");
    RuleOfResult("datablock_g_");
    hide RuleOf, ParseBuf;
  }

  lemma ParsePrefixed(tid: TypeId, prefix: string, s: seq<byte>)
    ensures Parse(tid, prefix, s) == ParseBuf(RuleOf(tid, prefix), Rank(tid), s)
  {
    hide RuleOf, ParseBuf;
  }

  function LastBlockItem(lastBlock: byte): Item {
    Item(Boolean, "datablock_g_boolean", [lastBlock])
  }

  function NumberItem(number: seq<byte>): Item {
    Item(Unsigned32, "datablock_g_unsigned32", number)
  }

  lemma ReadsBlock(lastBlock: byte, number: seq<byte>, x: BlockResult)
    requires |number| == 4 && ValidResult(x)
    ensures Reads(DatablockG, [lastBlock] + (number + EncodeResult(x)),
      [LastBlockItem(lastBlock)] + ([NumberItem(number)] + [ResultItem(x)]))
  {
    hide RuleOf, Rank, AllBelow, Optional, Parse, ParseParts, EncodeResult, ResultItem, ValidResult, LastBlockItem,
      NumberItem;
    var bytes := [lastBlock] + (number + EncodeResult(x));
    forall rest: seq<byte> | |bytes| + |rest| < 0x8000_0000
      ensures Parse(DatablockG, "", bytes + rest)
           == Parsed(|bytes|, [LastBlockItem(lastBlock)] + ([NumberItem(number)] + [ResultItem(x)]))
    {
      BlockParts(lastBlock, number, x, rest);
    }
  }

  lemma BlockParts(lastBlock: byte, number: seq<byte>, x: BlockResult, rest: seq<byte>)
    requires |number| == 4 && ValidResult(x) && 5 + |EncodeResult(x)| + |rest| < 0x8000_0000
    ensures Parse(DatablockG, "", [lastBlock] + (number + EncodeResult(x)) + rest)
      == Parsed(5 + |EncodeResult(x)|, [LastBlockItem(lastBlock)] + ([NumberItem(number)] + [ResultItem(x)]))
  {
    hide *;
    RegroupThree([lastBlock], number, EncodeResult(x), rest);
    LastBlockPart(lastBlock, number + (EncodeResult(x) + rest));
    NumberPart(number, x, rest);
    AfterOne(LastBlockItem(lastBlock), 1, 4 + |EncodeResult(x)|, [NumberItem(number)] + [ResultItem(x)]);
  }

  lemma AfterOne(item: Item, m: nat, n: nat, items: seq<Item>)
    ensures After(m, [item], Parsed(n, items)) == Parsed(m + n, [item] + items)
  {
  }

  /** The parts of a block from the `i`-th on. */
  function BlockFrom(i: nat, s: seq<byte>): Outcome
    requires i <= 3
  {
    RuleOfBlock();
    ParseParts(BLOCK_RULE.parts, 0, BLOCK_RULE.prefix, i, Rank(DatablockG), s)
  }

  lemma LastBlockPart(lastBlock: byte, tail: seq<byte>)
    ensures Parse(DatablockG, "", [lastBlock] + tail) == After(1, [LastBlockItem(lastBlock)], BlockFrom(1, tail))
  {
    hide RuleOf, Rank, AllBelow, Optional, Parse, ParseParts, ParsePart, ParseBuf;
    RuleOfBlock();
    RuleOfPrefixed();
    Masks();
    SequenceStep(DatablockG, BLOCK_RULE, [lastBlock] + tail);
    FixedPart(BLOCK_RULE, 0, Rank(DatablockG), Boolean, "datablock_g_boolean", [lastBlock], tail);
  }

  lemma NumberPart(number: seq<byte>, x: BlockResult, rest: seq<byte>)
    requires |number| == 4 && ValidResult(x) && |EncodeResult(x)| + |rest| < 0x8000_0000
    ensures BlockFrom(1, number + (EncodeResult(x) + rest))
         == Parsed(4 + |EncodeResult(x)|, [NumberItem(number)] + [ResultItem(x)])
  {
    hide RuleOf, Rank, AllBelow, Optional, Parse, ParseParts, ParsePart, ParseBuf, EncodeResult, ResultItem,
      ValidResult;
    RuleOfBlock();
    RuleOfPrefixed();
    Masks();
    ResultPart(Rank(DatablockG), x, rest);
    FixedPart(BLOCK_RULE, 1, Rank(DatablockG), Unsigned32, "datablock_g_unsigned32", number, EncodeResult(x) + rest);
  }

  lemma RegroupThree(a: seq<byte>, b: seq<byte>, c: seq<byte>, rest: seq<byte>)
    ensures a + (b + c) + rest == a + (b + (c + rest))
  {
  }

  lemma ResultPart(rank: nat, x: BlockResult, rest: seq<byte>)
    requires AllBelow(BLOCK_RULE.parts, rank) && ValidResult(x) && |EncodeResult(x)| + |rest| < 0x8000_0000
    ensures ParseParts(BLOCK_RULE.parts, 0, BLOCK_RULE.prefix, 2, rank, EncodeResult(x) + rest)
         == Parsed(|EncodeResult(x)|, [ResultItem(x)])
  {
    hide RuleOf, Rank, AllBelow, Optional, Parse, ParseParts, ParsePart, EncodeResult, ResultItem, ValidResult;
    Masks();
    ReadsResult(x, rest);
    FlagStep(BLOCK_RULE, 2, rank, 0, EncodeResult(x) + rest);
    PartStep(BLOCK_RULE, 2, rank, EncodeResult(x), rest, [ResultItem(x)]);
    EndOfParts(BLOCK_RULE, rank, rest);
    assert [ResultItem(x)] + [] == [ResultItem(x)];
  }

  /** A mandatory part of a fixed number of bytes. */
  lemma FixedPart(r: Rule, i: nat, rank: nat, tid: TypeId, des: string, content: seq<byte>, rest: seq<byte>)
    requires r.Sequence? && i < |r.parts| && AllBelow(r.parts, rank) && !Optional(r.optionMask, i)
    requires r.parts[i] == tid && RuleOf(tid, r.prefix) == FixedLength(|content|, tid, des)
    ensures ParseParts(r.parts, r.optionMask, r.prefix, i, rank, content + rest)
         == After(|content|, [Item(tid, des, content)],
                  ParseParts(r.parts, r.optionMask, r.prefix, i + 1, rank, rest))
  {
    hide RuleOf, Rank, AllBelow, Optional, Parse, ParseParts, ParsePart, ParseBuf;
    FlagStep(r, i, rank, 0, content + rest);
    FixedContents(RuleOf(tid, r.prefix), Rank(tid), content, rest);
    ParsePrefixed(tid, r.prefix, content + rest);
    PartStep(r, i, rank, content, rest, [Item(tid, des, content)]);
  }

  lemma EndOfParts(r: Rule, rank: nat, s: seq<byte>)
    requires r.Sequence? && AllBelow(r.parts, rank)
    ensures ParseParts(r.parts, r.optionMask, r.prefix, |r.parts|, rank, s) == Parsed(0, [])
  {
    hide RuleOf, Rank, AllBelow, ParsePart;
  }

  /** A GET response with a data block is consumed exactly. */
  lemma ReadsBlockResponse(invoke: byte, lastBlock: byte, number: seq<byte>, x: BlockResult)
    requires |number| == 4 && ValidResult(x)
    ensures Reads(CosemPdu, [196] + ([2] + ([invoke] + ([lastBlock] + (number + EncodeResult(x))))),
      [PduItem(196)] + ([Item(GetResponse, "get_response", [2])] + ([InvokeItem(invoke)] +
        ([LastBlockItem(lastBlock)] +
         ([NumberItem(number)] + [ResultItem(x)])))))
  {
    hide RuleOf, Chooses, Reads, AllBelow, Rank, ValidResult, EncodeResult, ResultItem, LastBlockItem, NumberItem;
    RuleOfBlockResponse();
    ChoosesPdu();
    ChoosesGetResponse();
    var bytes := [lastBlock] + (number + EncodeResult(x));
    var block := [LastBlockItem(lastBlock)] +
      ([NumberItem(number)] + [ResultItem(x)]);
    var items := [InvokeItem(invoke)] + block;
    ReadsBlock(lastBlock, number, x);
    ReadsInvokeAnd(GetResponseWithDatablock, 0, DatablockG, invoke, bytes, block);
    ReadsChosen(GetResponse, 2, GetResponseWithDatablock, GetResponse, "get_response", [invoke] + bytes, items);
    ReadsChosen(CosemPdu, 196, GetResponse, CosemPdu, "cosem_pdu", [2] + ([invoke] + bytes),
      [Item(GetResponse, "get_response", [2])] + items);
  }

  // The association request

  /** A length octet that what follows reaches, then two tagged parts in either order. */
  lemma ParseAssociation(length: byte, value: byte, v: Value, rest: seq<byte>)
    requires WellFormed(v)
    requires length as int <= 3 + |Encode(v)| + |rest| < 0x8000_0000 - 1
    ensures Parse(Aarq, "", [length] + ([0] + [value] + ([1] + Encode(v))) + rest)
         == Parsed(4 + |Encode(v)|, [Item(Unsigned8, "unsigned8", [value])] + Flatten(v))
    ensures Parse(Aarq, "", [length] + ([1] + Encode(v) + ([0] + [value])) + rest)
         == Parsed(4 + |Encode(v)|, Flatten(v) + [Item(Unsigned8, "unsigned8", [value])])
  {
    hide Parse, RuleOf, WellFormed, Encode, Flatten, Reads;
    var e, items := Encode(v), [Item(Unsigned8, "unsigned8", [value])];
    RuleOfUnsigned8();
    ReadsFixed(Unsigned8, "unsigned8", [value]);
    ReadsData(v);
    TwoBerParts(length, 0, [value], items, 1, e, Flatten(v), rest);
    TwoBerParts(length, 1, e, Flatten(v), 0, [value], items, rest);
  }

  lemma TwoBerParts(length: byte, t: byte, a: seq<byte>, x: seq<Item>, u: byte, b: seq<byte>, y: seq<Item>,
    rest: seq<byte>)
    requires t < 2 && u < 2 && Reads([Unsigned8, Data][t], a, x) && Reads([Unsigned8, Data][u], b, y)
    requires length as int <= 2 + |a| + |b| + |rest| < 0x8000_0000 - 1
    ensures Parse(Aarq, "", [length] + ([t] + a + ([u] + b)) + rest) == Parsed(3 + |a| + |b|, x + y)
  {
    hide Parse, Reads, ParseBerParts, RuleOf;
    var parts := [Unsigned8, Data];
    var tail := [u] + (b + rest);
    var body := [t] + (a + tail);
    Regroup([length], [t], a, [u], b, rest);
    UseReads(parts[t], a, x, tail);
    UseReads(parts[u], b, y, rest);
    AssociationParts(length, body);
    BerPart(parts, 2, t, a, tail, x);
    LastBerPart(parts, u, b, rest, y);
    assert [] + (x + y) == x + y;
  }

  lemma Regroup(l: seq<byte>, t: seq<byte>, a: seq<byte>, u: seq<byte>, b: seq<byte>, rest: seq<byte>)
    ensures l + (t + a + (u + b)) + rest == l + (t + (a + (u + (b + rest))))
  {
    assert (u + b) + rest == u + (b + rest);
    assert (t + a) + (u + (b + rest)) == t + (a + (u + (b + rest)));
    assert l + (t + a + (u + b)) + rest == l + ((t + a + (u + b)) + rest);
    assert (t + a + (u + b)) + rest == t + a + (u + b + rest);
  }

  lemma LastBerPart(parts: seq<TypeId>, u: byte, b: seq<byte>, rest: seq<byte>, y: seq<Item>)
    requires u < |parts| && Parse(parts[u], "", b + rest) == Parsed(|b|, y)
    ensures ParseBerParts(parts, 1, [u] + (b + rest)) == Parsed(1 + |b|, y)
  {
    hide Parse, ParseBerParts, RuleOf;
    BerPart(parts, 1, u, b, rest, y);
    BerDone(parts, rest);
    assert y + [] == y;
  }

  lemma AssociationParts(length: byte, body: seq<byte>)
    requires length as int <= |body|
    ensures Parse(Aarq, "", [length] + body) == After(1, [], ParseBerParts([Unsigned8, Data], 2, body))
  {
    hide ParseBerParts;
    assert ([length] + body)[1..] == body;
  }

  lemma BerPart(parts: seq<TypeId>, left: nat, t: byte, a: seq<byte>, tail: seq<byte>, x: seq<Item>)
    requires left > 0 && t < |parts| && Parse(parts[t], "", a + tail) == Parsed(|a|, x)
    ensures ParseBerParts(parts, left, [t] + (a + tail))
         == After(1 + |a|, x, ParseBerParts(parts, left - 1, tail))
  {
    hide Parse, RuleOf;
    var s := [t] + (a + tail);
    assert s[1..] == a + tail && (a + tail)[|a|..] == tail;
  }

  lemma BerDone(parts: seq<TypeId>, s: seq<byte>)
    ensures ParseBerParts(parts, 0, s) == Parsed(0, [])
  {
  }

  // Several PDUs in one buffer

  function AllItems(lists: seq<seq<Item>>): seq<Item> {
    if lists == [] then [] else lists[0] + AllItems(lists[1..])
  }

  ghost predicate BlocksRead(tid: TypeId, blocks: seq<seq<byte>>, lists: seq<seq<Item>>) {
    |blocks| == |lists| && forall i | 0 <= i < |blocks| :: blocks[i] != [] && Reads(tid, blocks[i], lists[i])
  }

  /** `parse_block_loop` reads block after block, and stops before the first bytes it rejects,
      whose items it keeps. */
  lemma {:induction false} ParseManyBlocks(tid: TypeId, blocks: seq<seq<byte>>, lists: seq<seq<Item>>, tail: seq<byte>)
    requires BlocksRead(tid, blocks, lists) && !RuleOf(tid, "").NoRule?
    requires |Concat(blocks)| + |tail| < 0x8000_0000 && (tail != [] ==> Parse(tid, "", tail).Rejected?)
    ensures ParseBlocks(tid, Concat(blocks) + tail)
         == Parsed(|Concat(blocks)|, AllItems(lists) + if tail == [] then [] else Parse(tid, "", tail).items)
    decreases |blocks|
  {
    hide RuleOf, Parse, Reads, ParseBlocks, BlocksRead, Concat, AllItems;
    if blocks == [] {
      NoBlocks(tid, lists);
      assert [] + tail == tail;
      LastBlock(tid, tail);
    } else {
      var first, more := blocks[0], Concat(blocks[1..]) + tail;
      BlocksSplit(tid, blocks, lists);
      assert first + Concat(blocks[1..]) + tail == first + more;
      UseReads(tid, first, lists[0], more);
      ParseManyBlocks(tid, blocks[1..], lists[1..], tail);
      OneBlock(tid, first, lists[0], more);
      var end := if tail == [] then [] else Parse(tid, "", tail).items;
      assert lists[0] + (AllItems(lists[1..]) + end) == lists[0] + AllItems(lists[1..]) + end;
    }
  }

  lemma NoBlocks(tid: TypeId, lists: seq<seq<Item>>)
    requires BlocksRead(tid, [], lists)
    ensures lists == [] && Concat([]) == [] && AllItems(lists) == []
  {
    hide Reads;
  }

  lemma BlocksSplit(tid: TypeId, blocks: seq<seq<byte>>, lists: seq<seq<Item>>)
    requires BlocksRead(tid, blocks, lists) && blocks != []
    ensures lists != [] && BlocksRead(tid, blocks[1..], lists[1..])
    ensures blocks[0] != [] && Reads(tid, blocks[0], lists[0])
    ensures Concat(blocks) == blocks[0] + Concat(blocks[1..]) && AllItems(lists) == lists[0] + AllItems(lists[1..])
  {
    hide Reads;
  }

  lemma LastBlock(tid: TypeId, tail: seq<byte>)
    requires !RuleOf(tid, "").NoRule? && (tail != [] ==> Parse(tid, "", tail).Rejected?)
    ensures ParseBlocks(tid, tail) == Parsed(0, if tail == [] then [] else Parse(tid, "", tail).items)
  {
    hide RuleOf, Parse;
  }

  lemma OneBlock(tid: TypeId, first: seq<byte>, items: seq<Item>, more: seq<byte>)
    requires !RuleOf(tid, "").NoRule? && first != [] && Parse(tid, "", first + more) == Parsed(|first|, items)
    ensures ParseBlocks(tid, first + more) == After(|first|, items, ParseBlocks(tid, more))
  {
    hide RuleOf, Parse;
    assert (first + more)[|first|..] == more;
  }
}
