/** What every parser does to any bytes at all: its return code and the items it appends.

    `s` is the buffer from the position a parser is called at to its end. A read outside
    that buffer, which the program leaves undefined, is the outcome `OutOfBounds`; so is a call
    of a parser that the grammar table does not have. */
module AsnSpec {
  import opened Bytes
  import opened AsnGrammar

  datatype Outcome =
    | Parsed(consumed: nat, items: seq<Item>)   // a count of bytes is returned
    | Rejected(items: seq<Item>)                // -1 is returned
    | OutOfBounds

  datatype LengthInfo =
    | Length(octets: nat, value: nat)
    | BadLength
    | LengthOutOfBounds

  const UINT_MODULUS := 0x1_0000_0000

  /** The one byte kept of a 32-bit count. */
  function LowByte(n: nat): byte {
    n % 256
  }

  function Decimal(n: nat): string {
    var digits := "0123456789";
    if n < 10 then [digits[n]] else Decimal(n / 10) + [digits[n % 10]]
  }

  function ParseLength(s: seq<byte>): (r: LengthInfo)
    ensures r.Length? ==> 1 <= r.octets <= |s|
  {
    if s == [] then LengthOutOfBounds
    else
      var count := s[0] % 128;
      if s[0] / 128 == 0 then Length(1, count)
      else if count > 4 then BadLength
      else if |s| < 1 + count then LengthOutOfBounds
      else Length(1 + count, BigEndian(s[1..1 + count]))
  }

  function After(consumed: nat, items: seq<Item>, o: Outcome): (r: Outcome)
    ensures o.Parsed? <==> r.Parsed?
    ensures o.Parsed? ==> r.consumed == consumed + o.consumed
  {
    match o
    case Parsed(n, more) => Parsed(consumed + n, items + more)
    case Rejected(more) => Rejected(items + more)
    case OutOfBounds => OutOfBounds
  }

  predicate Optional(mask: nat, i: nat) {
    mask / Power2(i) % 2 == 1
  }

  function Parse(tid: TypeId, prefix: string, s: seq<byte>): (o: Outcome)
    ensures o.Parsed? ==> o.consumed <= |s|
    decreases |s|, 2 * Rank(tid) + 1, 1
  {
    ParseBuf(RuleOf(tid, prefix), Rank(tid), s)
  }

  function ParseBuf(rule: Rule, rank: nat, s: seq<byte>): (o: Outcome)
    requires Descends(rule, rank)
    ensures o.Parsed? ==> o.consumed <= |s|
    decreases |s|, 2 * rank + 1, 0
  {
    match rule
    case Sequence(parts, mask, partPrefix) => ParseParts(parts, mask, partPrefix, 0, rank, s)
    case Choice(alternatives, choiceTid, des) =>
      if s == [] then OutOfBounds
      else if s[0] >= |alternatives| then Rejected([])
      else
        var own := if choiceTid != Null then [Item(choiceTid, des, [s[0]])] else [];
        After(1, own, Parse(alternatives[s[0]], "", s[1..]))
    case SequenceOfData(listTid, des) =>
      (match ParseLength(s)
       case BadLength => Rejected([])
       case LengthOutOfBounds => OutOfBounds
       case Length(octets, count) =>
         After(0, [Item(listTid, des, Octets(count, 4))], ParseElements(s, octets, count, rank)))
    case SequenceOfWithList(listTid, des) =>
      (match ParseLength(s)
       case BadLength => Rejected([])
       case LengthOutOfBounds => OutOfBounds
       case Length(octets, count) =>
         After(0, [Item(listTid, des, [LowByte(count)])], ParseDescriptors(s, octets, count, rank)))
    case FixedLength(length, itemTid, des) =>
      if |s| < length then Rejected([]) else Parsed(length, [Item(itemTid, des, s[..length])])
    case UnfixedLength(itemTid, des) =>
      (match ParseLength(s)
       case BadLength => Rejected([])
       case LengthOutOfBounds => OutOfBounds
       case Length(octets, length) =>
         if |s| < (length + octets) % UINT_MODULUS then Rejected([])
         else if |s| < length + octets then OutOfBounds   // the 32-bit sum wrapped
         else Parsed(length + octets,
                     [Item(itemTid, des + "_" + Decimal(length), s[octets..octets + length])]))
    case BerSequence(parts) =>
      if s == [] then OutOfBounds
      else if |s| < s[0] as int + 1 then Rejected([])
      else After(1, [], ParseBerParts(parts, |parts|, s[1..]))
    case NoRule => Rejected([])
  }

  /** `left` more tagged parts; the tag picks the parser among all parts. */
  function ParseBerParts(parts: seq<TypeId>, left: nat, s: seq<byte>): (o: Outcome)
    ensures o.Parsed? ==> o.consumed <= |s|
    decreases |s|, 0, left
  {
    if left == 0 then Parsed(0, [])
    else if s == [] then OutOfBounds
    else if s[0] >= |parts| then Rejected([])
    else
      match Parse(parts[s[0]], "", s[1..])
      case Parsed(n, items) => After(1 + n, items, ParseBerParts(parts, left - 1, s[1..][n..]))
      case Rejected(items) => Rejected(items)
      case OutOfBounds => OutOfBounds
  }

  /** The parts of a sequence from the `i`-th on; `s` starts where the `i`-th part does. */
  function ParseParts(parts: seq<TypeId>, mask: nat, prefix: string, i: nat, rank: nat, s: seq<byte>): (o: Outcome)
    requires i <= |parts|
    requires AllBelow(parts, rank)
    ensures o.Parsed? ==> o.consumed <= |s|
    decreases |s|, 2 * rank, |parts| - i
  {
    if i == |parts| then Parsed(0, [])
    else if Optional(mask, i) then
      if s == [] then OutOfBounds
      else if s[0] == 0 then After(1, [], ParseParts(parts, mask, prefix, i + 1, rank, s[1..]))
      else After(1, [], ParsePart(parts, mask, prefix, i, rank, s[1..]))
    else ParsePart(parts, mask, prefix, i, rank, s)
  }

  /** The `i`-th part, its presence flag already read, and the parts after it. */
  function ParsePart(parts: seq<TypeId>, mask: nat, prefix: string, i: nat, rank: nat, s: seq<byte>): (o: Outcome)
    requires i < |parts|
    requires AllBelow(parts, rank)
    ensures o.Parsed? ==> o.consumed <= |s|
    decreases |s|, 2 * rank, |parts| - i, 0
  {
    match Parse(parts[i], prefix, s)
    case Parsed(n, items) => After(n, items, ParseParts(parts, mask, prefix, i + 1, rank, s[n..]))
    case Rejected(items) => Rejected(items)
    case OutOfBounds => OutOfBounds
  }

  /** A loop that leaves its position at `pos`: -1 is what a caller takes for a failure. */
  function AtEnd(pos: int): Outcome
    requires -1 <= pos
  {
    if pos < 0 then Rejected([]) else Parsed(pos, [])
  }

  /** Up to `left` more elements from `pos` on. The loop adds a failed element's -1 to its
      position and carries on, as the program does. */
  function ParseElements(s: seq<byte>, pos: int, left: nat, rank: nat): (o: Outcome)
    requires -1 <= pos <= |s|
    requires Rank(Data) < rank
    ensures o.Parsed? ==> o.consumed <= |s|
    decreases |s|, 2 * rank, left
  {
    if left == 0 || pos >= |s| then AtEnd(pos)
    else if pos < 0 then OutOfBounds
    else
      match Parse(Data, "", s[pos..])
      case Parsed(n, items) => After(0, items, ParseElements(s, pos + n, left - 1, rank))
      case Rejected(items) => After(0, items, ParseElements(s, pos - 1, left - 1, rank))
      case OutOfBounds => OutOfBounds
  }

  /** The attribute descriptors of a GET-with-list request. The selective-access flag 0x01 is
      not skipped: it is read again as the array tag of a Data value. */
  function ParseDescriptors(s: seq<byte>, pos: int, left: nat, rank: nat): (o: Outcome)
    requires -1 <= pos <= |s|
    requires Rank(Data) < rank && Rank(CosemAttributeDescriptor) < rank
    ensures o.Parsed? ==> o.consumed <= |s|
    decreases |s|, 2 * rank, left, 1
  {
    if left == 0 || pos >= |s| then AtEnd(pos)
    else if pos < 0 then OutOfBounds
    else
      match Parse(CosemAttributeDescriptor, "", s[pos..])
      case Parsed(n, items) => After(0, items, ParseSelection(s, pos + n, left, rank))
      case Rejected(items) => After(0, items, ParseSelection(s, pos - 1, left, rank))
      case OutOfBounds => OutOfBounds
  }

  function SelectionItem(flag: byte): Item {
    Item(SelectiveAccessDescriptor, "selective_access_descriptor", [flag])
  }

  function ParseSelection(s: seq<byte>, pos: int, left: nat, rank: nat): (o: Outcome)
    requires -1 <= pos <= |s|
    requires 0 < left
    requires Rank(Data) < rank && Rank(CosemAttributeDescriptor) < rank
    ensures o.Parsed? ==> o.consumed <= |s|
    decreases |s|, 2 * rank, left, 0
  {
    if pos < 0 || pos >= |s| then OutOfBounds
    else
      var own := [SelectionItem(s[pos])];
      if s[pos] == 0 then After(0, own, ParseDescriptors(s, pos + 1, left - 1, rank))
      else if s[pos] == 1 then
        match Parse(Data, "", s[pos..])
        case Parsed(n, items) => After(0, own + items, ParseDescriptors(s, pos + n, left - 1, rank))
        case Rejected(items) => After(0, own + items, ParseDescriptors(s, pos - 1, left - 1, rank))
        case OutOfBounds => OutOfBounds
      else After(0, own, ParseDescriptors(s, pos, left - 1, rank))
  }

  /** A type identifier parsed from the outside; a null parser there is called all the same. */
  function ParseRoot(root: TypeId, s: seq<byte>): (o: Outcome)
    ensures o.Parsed? ==> o.consumed <= |s|
  {
    if RuleOf(root, "").NoRule? then OutOfBounds else Parse(root, "", s)
  }
}
