/** The type identifiers, result items and grammar table of the A-XDR/COSEM parser. */
module AsnGrammar {
  import opened Bytes

  datatype TypeId =
    | Null | SequenceOfArray | SequenceOfStruct | Boolean | BitString
    | Integer32 | Unsigned32 | FloatingPoint | OctetString | VisibleString
    | GenTime | Bcd | Integer8 | Integer16 | Unsigned8 | Unsigned16
    | Integer64 | Unsigned64 | Enumerated | Float32 | Float64 | DateTime
    | CosemClassId | CosemObjectInstanceId | CosemObjectAttributeId
    | InvokeIdAndPriority | AttributeDescriptorListQty | RawData
    | Aarq | Aare | ApplicationContextName | AcseRequirements | MechanismName
    | CosemPdu | GetDataResult | DataAccessResult | Data | DatablockG | Result
    | CosemAttributeDescriptor | SelectiveAccessDescriptor | AttributeDescriptorList
    | GetRequest | GetRequestNormal | GetRequestNext | GetRequestWithList
    | GetResponse | GetResponseNormal | GetResponseWithDatablock | GetResponseWithList
    | SetRequest | SetRequestNormal | SetRequestWithFirstDatablock | SetRequestWithDatablock
    | SetRequestWithList | SetRequestWithListAndFirstDatablock
    | SetResponse | SetResponseNormal | SetResponseDatablock | SetResponseLastDatablock
    | SetResponseLastDatablockWithList | SetResponseWithList
    | ActionRequest | ActionRequestNormal | ActionRequestNextPblock | ActionRequestWithList
    | ActionRequestWithFirstPblock | ActionRequestWithListAndFirstPblock | ActionRequestWithPblock
    | ActionResponse | ActionResponseNormal | ActionResponseWithPblock
    | ActionResponseWithList | ActionResponseNextPblock

  /** One entry of the flat result list. */
  datatype Item = Item(tid: TypeId, des: string, bytes: seq<byte>)

  /** What the factory builds for a type identifier. `NoRule` stands for a null parser. */
  datatype Rule =
    | Sequence(parts: seq<TypeId>, optionMask: nat, prefix: string)
    | Choice(alternatives: seq<TypeId>, tid: TypeId, des: string)
    | SequenceOfData(tid: TypeId, des: string)
    | SequenceOfWithList(tid: TypeId, des: string)
    | FixedLength(length: nat, tid: TypeId, des: string)
    | UnfixedLength(tid: TypeId, des: string)
    | BerSequence(parts: seq<TypeId>)
    | NoRule

  /** The alternatives of a COSEM Data choice, by tag. */
  function DataType(tag: byte): TypeId {
    match tag
    case 1 => SequenceOfArray
    case 2 => SequenceOfStruct
    case 3 => Boolean
    case 4 => BitString
    case 5 => Integer32
    case 6 => Unsigned32
    case 7 => FloatingPoint
    case 9 => OctetString
    case 10 => VisibleString
    case 11 => GenTime
    case 13 => Bcd
    case 15 => Integer8
    case 16 => Integer16
    case 17 => Unsigned8
    case 18 => Unsigned16
    case 20 => Integer64
    case 21 => Unsigned64
    case 22 => Enumerated
    case 23 => Float32
    case 24 => Float64
    case 25 => DateTime
    case _ => Null
  }

  /** The alternatives of the outermost PDU choice, by tag. */
  function PduType(tag: byte): TypeId {
    match tag
    case 192 => GetRequest
    case 193 => SetRequest
    case 195 => ActionRequest
    case 196 => GetResponse
    case 197 => SetResponse
    case _ => Null
  }

  /** How deeply a parser can call other parsers before one of them consumes a byte. */
  function Rank(tid: TypeId): nat {
    if tid.GetRequestWithList? then 3
    else if tid.AttributeDescriptorList? || tid.GetRequestNormal? || tid.GetResponseWithDatablock?
            || tid.SetRequestNormal? || tid.ActionRequestNormal? then 2
    else if tid.SequenceOfArray? || tid.SequenceOfStruct? || tid.CosemAttributeDescriptor?
            || tid.SelectiveAccessDescriptor? || tid.GetRequestNext? || tid.GetResponseNormal?
            || tid.SetResponseNormal? || tid.DatablockG? then 1
    else 0
  }

  /** Every part of a sequence (there are at most four) has a rank below `rank`. */
  predicate AllBelow(parts: seq<TypeId>, rank: nat) {
    && |parts| <= 4
    && (0 < |parts| ==> Rank(parts[0]) < rank)
    && (1 < |parts| ==> Rank(parts[1]) < rank)
    && (2 < |parts| ==> Rank(parts[2]) < rank)
    && (3 < |parts| ==> Rank(parts[3]) < rank)
  }

  /** The grammar table, leaf types: a fixed number of bytes, or a length and that many bytes. */
  function LeafRule(tid: TypeId, prefix: string): (r: Rule)
    ensures r.NoRule? || ((r.FixedLength? || r.UnfixedLength?) && r.tid == tid)
  {
    match tid
    case InvokeIdAndPriority => FixedLength(1, InvokeIdAndPriority, "invoke_id_and_priority")
    case CosemObjectInstanceId => FixedLength(6, CosemObjectInstanceId, "cosem_object_instance_id")
    case CosemClassId => FixedLength(2, CosemClassId, "cosem_class_id")
    case CosemObjectAttributeId => FixedLength(1, CosemObjectAttributeId, "cosem_object_attribute_id")
    case DataAccessResult => FixedLength(1, DataAccessResult, "data_access_result")
    case Null => FixedLength(0, Null, prefix + "null_data")
    case Boolean => FixedLength(1, Boolean, prefix + "boolean")
    case BitString => UnfixedLength(BitString, prefix + "bit_string")
    case Integer32 => FixedLength(4, Integer32, prefix + "integer32")
    case Unsigned32 => FixedLength(4, Unsigned32, prefix + "unsigned32")
    case FloatingPoint => UnfixedLength(FloatingPoint, prefix + "floating_point")
    case Float32 => FixedLength(4, Float32, prefix + "float32")
    case Float64 => FixedLength(8, Float64, prefix + "float64")
    case OctetString => UnfixedLength(OctetString, "octet_string")
    case VisibleString => UnfixedLength(VisibleString, prefix + "visible_string")
    case GenTime => FixedLength(6, GenTime, prefix + "gen_time")
    case Bcd => FixedLength(1, Bcd, prefix + "bcd")
    case Integer8 => FixedLength(1, Integer8, prefix + "integer8")
    case Integer16 => FixedLength(2, Integer16, prefix + "integer16")
    case Unsigned8 => FixedLength(1, Unsigned8, prefix + "unsigned8")
    case Unsigned16 => FixedLength(2, Unsigned16, prefix + "unsigned16")
    case Integer64 => FixedLength(8, Integer64, prefix + "integer64")
    case Unsigned64 => FixedLength(8, Unsigned64, prefix + "unsigned64")
    case DateTime => FixedLength(12, DateTime, prefix + "datetime")
    case Enumerated => FixedLength(1, Enumerated, prefix + "enumerated")
    case RawData => UnfixedLength(RawData, prefix + "raw_data")
    case _ => NoRule
  }

  /** The grammar table, choices: one tag byte selects the alternative. */
  function ChoiceRule(tid: TypeId): (r: Rule)
    ensures r.Choice? || r.NoRule?
  {
    match tid
    case CosemPdu => Choice(seq(256, tag requires 0 <= tag < 256 => PduType(tag)), CosemPdu, "cosem_pdu")
    case GetResponse =>
      Choice([Null, GetResponseNormal, GetResponseWithDatablock, GetResponseWithList], GetResponse, "get_response")
    case GetDataResult => Choice([Data, DataAccessResult], GetDataResult, "get_data_result")
    case Data => Choice(seq(256, tag requires 0 <= tag < 256 => DataType(tag)), Null, "")
    case GetRequest => Choice([Null, GetRequestNormal, GetRequestNext, GetRequestWithList], Null, "")
    case SetRequest =>
      Choice([Null, SetRequestNormal, SetRequestWithFirstDatablock, SetRequestWithDatablock,
              SetRequestWithList, SetRequestWithListAndFirstDatablock], Null, "")
    case SetResponse =>
      Choice([Null, SetResponseNormal, SetResponseDatablock, SetResponseLastDatablock,
              SetResponseLastDatablockWithList, SetResponseWithList], Null, "")
    case ActionRequest =>
      Choice([Null, ActionRequestNormal, ActionRequestNextPblock, ActionRequestWithList,
              ActionRequestWithFirstPblock, ActionRequestWithListAndFirstPblock,
              ActionRequestWithPblock], Null, "")
    case ActionResponse =>
      Choice([Null, ActionResponseNormal, ActionResponseWithPblock, ActionResponseWithList,
              ActionResponseNextPblock], Null, "")
    case Result => Choice([RawData, DataAccessResult], Null, "")
    case _ => NoRule
  }

  /** The grammar table, the bodies of requests and the descriptors in them. */
  function RequestRule(tid: TypeId): (r: Rule)
    ensures r.NoRule? || (r.Sequence? && AllBelow(r.parts, Rank(tid)))
  {
    match tid
    case GetRequestNormal =>
      Sequence([InvokeIdAndPriority, CosemAttributeDescriptor, SelectiveAccessDescriptor], 4, "")
    case GetRequestNext => Sequence([InvokeIdAndPriority, Unsigned32], 4, "")
    case GetRequestWithList => Sequence([InvokeIdAndPriority, AttributeDescriptorList], 4, "")
    case SetRequestNormal =>
      Sequence([InvokeIdAndPriority, CosemAttributeDescriptor, SelectiveAccessDescriptor, Data], 4, "")
    case ActionRequestNormal => Sequence([InvokeIdAndPriority, CosemAttributeDescriptor, Data], 4, "")
    case CosemAttributeDescriptor =>
      Sequence([CosemClassId, CosemObjectInstanceId, CosemObjectAttributeId], 0, "")
    case SelectiveAccessDescriptor => Sequence([Unsigned8, Data], 4, "")
    case _ => NoRule
  }

  /** The grammar table, the other sequences. */
  function SequenceRule(tid: TypeId): (r: Rule)
    ensures r.NoRule? || (r.Sequence? && AllBelow(r.parts, Rank(tid)))
  {
    match tid
    case GetResponseNormal => Sequence([InvokeIdAndPriority, GetDataResult], 0, "")
    case GetResponseWithDatablock => Sequence([InvokeIdAndPriority, DatablockG], 0, "")
    case SetResponseNormal => Sequence([InvokeIdAndPriority, DataAccessResult], 0, "")
    case DatablockG => Sequence([Boolean, Unsigned32, Result], 0, "datablock_g_")
    case _ => NoRule
  }

  /** Every parser that `r` may call before consuming a byte has a rank below `rank`. */
  predicate Descends(r: Rule, rank: nat) {
    match r
    case Sequence(parts, _, _) => AllBelow(parts, rank)
    case SequenceOfData(_, _) => Rank(Data) < rank
    case SequenceOfWithList(_, _) => Rank(Data) < rank && Rank(CosemAttributeDescriptor) < rank
    case _ => true
  }

  /** The whole grammar table. The postcondition says why parsing terminates: a parser that
      hands its own input on unconsumed hands it to a parser of lower rank. */
  function RuleOf(tid: TypeId, prefix: string): (r: Rule)
    ensures Descends(r, Rank(tid))
  {
    if tid.SequenceOfArray? then SequenceOfData(SequenceOfArray, "sequence_of_array")
    else if tid.SequenceOfStruct? then SequenceOfData(SequenceOfStruct, "sequence_of_struct")
    else if tid.AttributeDescriptorList? then
      SequenceOfWithList(AttributeDescriptorList, "attribute_descriptor_list")
    else if tid.Aarq? then BerSequence([Unsigned8, Data])
    else if SequenceRule(tid) != NoRule then SequenceRule(tid)
    else if RequestRule(tid) != NoRule then RequestRule(tid)
    else if ChoiceRule(tid) != NoRule then ChoiceRule(tid)
    else LeafRule(tid, prefix)
  }
}
