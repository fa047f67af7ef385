/** COSEM Data values of any depth: their encodings, the flat list the parser should
    make of them, and the proof that it does. */
module CosemData {
  import opened Bytes
  import opened AsnGrammar
  import opened AsnSpec

  /** A length is one short octet, or a count of further octets and those octets. Any count
      from 0 to 4 is accepted, whether or not it is the smallest that fits. */
  datatype LengthForm = Short | Long(octets: nat)

  datatype Value =
    | Fixed(tag: byte, content: seq<byte>)
    | Unfixed(tag: byte, form: LengthForm, content: seq<byte>)
    | Many(tag: byte, form: LengthForm, elements: seq<Value>)

  predicate Fits(form: LengthForm, n: nat) {
    match form
    case Short => n < 128
    case Long(octets) => octets <= 4 && n < Pow256(octets)
  }

  /** The Data types by tag: values of a fixed number of bytes, values with a length before their
      bytes, and values with a count before their elements; with the names their items get. */
  function DataRule(tag: byte): (r: Rule)
    ensures r.FixedLength? || r.UnfixedLength? || r.SequenceOfData?
  {
    match tag
    case 1 => SequenceOfData(SequenceOfArray, "sequence_of_array")
    case 2 => SequenceOfData(SequenceOfStruct, "sequence_of_struct")
    case 3 => FixedLength(1, Boolean, "boolean")
    case 4 => UnfixedLength(BitString, "bit_string")
    case 5 => FixedLength(4, Integer32, "integer32")
    case 6 => FixedLength(4, Unsigned32, "unsigned32")
    case 7 => UnfixedLength(FloatingPoint, "floating_point")
    case 9 => UnfixedLength(OctetString, "octet_string")
    case 10 => UnfixedLength(VisibleString, "visible_string")
    case 11 => FixedLength(6, GenTime, "gen_time")
    case 13 => FixedLength(1, Bcd, "bcd")
    case 15 => FixedLength(1, Integer8, "integer8")
    case 16 => FixedLength(2, Integer16, "integer16")
    case 17 => FixedLength(1, Unsigned8, "unsigned8")
    case 18 => FixedLength(2, Unsigned16, "unsigned16")
    case 20 => FixedLength(8, Integer64, "integer64")
    case 21 => FixedLength(8, Unsigned64, "unsigned64")
    case 22 => FixedLength(1, Enumerated, "enumerated")
    case 23 => FixedLength(4, Float32, "float32")
    case 24 => FixedLength(8, Float64, "float64")
    case 25 => FixedLength(12, DateTime, "datetime")
    case _ => FixedLength(0, Null, "null_data")
  }

  predicate WellFormed(v: Value) {
    match v
    case Fixed(tag, content) =>
      var r := DataRule(tag);
      r.FixedLength? && |content| == r.length
    case Unfixed(tag, form, content) =>
      DataRule(tag).UnfixedLength? && Fits(form, |content|)
    case Many(tag, form, elements) =>
      DataRule(tag).SequenceOfData? && Fits(form, |elements|) &&
      forall e <- elements :: WellFormed(e)
  }

  function EncodeLength(form: LengthForm, n: nat): seq<byte>
    requires Fits(form, n)
  {
    match form
    case Short => [n]
    case Long(octets) => [128 + octets] + Octets(n, octets)
  }

  function Encode(v: Value): seq<byte>
    requires WellFormed(v)
  {
    match v
    case Fixed(tag, content) => [tag] + content
    case Unfixed(tag, form, content) => [tag] + (EncodeLength(form, |content|) + content)
    case Many(tag, form, elements) => [tag] + (EncodeLength(form, |elements|) + EncodeAll(elements))
  }

  function EncodeAll(vs: seq<Value>): seq<byte>
    requires forall e <- vs :: WellFormed(e)
  {
    if vs == [] then [] else Encode(vs[0]) + EncodeAll(vs[1..])
  }

  /** The nodes of a value in pre-order. */
  function Flatten(v: Value): seq<Item>
    requires WellFormed(v)
  {
    var r := DataRule(v.tag);
    match v
    case Fixed(_, content) => [Item(r.tid, r.des, content)]
    case Unfixed(_, _, content) => [Item(r.tid, r.des + "_" + Decimal(|content|), content)]
    case Many(_, _, elements) => [Item(r.tid, r.des, Octets(|elements|, 4))] + FlattenAll(elements)
  }

  function FlattenAll(vs: seq<Value>): seq<Item>
    requires forall e <- vs :: WellFormed(e)
  {
    if vs == [] then [] else Flatten(vs[0]) + FlattenAll(vs[1..])
  }

  /** `parse_length_info` reads back every definite length, in every form. */
  lemma LengthRoundTrip(form: LengthForm, n: nat, rest: seq<byte>)
    requires Fits(form, n)
    ensures ParseLength(EncodeLength(form, n) + rest) == Length(|EncodeLength(form, n)|, n)
    ensures n < UINT_MODULUS
  {
    match form
    case Short =>
    case Long(octets) =>
      var s := EncodeLength(form, n) + rest;
      assert s[1..1 + octets] == Octets(n, octets);
      OctetsBigEndian(n, octets);
      assert Pow256(4) == UINT_MODULUS;
      if octets < 4 { Pow256Monotone(octets, 4); }
  }

  lemma NonEmpty(v: Value)
    requires WellFormed(v)
    ensures |Encode(v)| > 0 && Encode(v)[0] == v.tag
  {
  }

  /** The grammar table has exactly these rules for the Data types. */
  lemma DataTable(tag: byte)
    ensures RuleOf(DataType(tag), "") == DataRule(tag)
  {
    hide RuleOf, DataRule, DataType, LeafRule;
    if tag == 1 || tag == 2 {
      ListTable(tag);
    } else {
      LeafIsRule(tag);
      LeafTable(tag);
    }
  }

  lemma ListTable(tag: byte)
    requires tag == 1 || tag == 2
    ensures RuleOf(DataType(tag), "") == DataRule(tag)
  {
    hide Rank, Descends, LeafRule, ChoiceRule, SequenceRule, RequestRule;
  }

  lemma LeafIsRule(tag: byte)
    requires tag != 1 && tag != 2
    ensures RuleOf(DataType(tag), "") == LeafRule(DataType(tag), "")
  {
    hide Rank, Descends, LeafRule;
  }

  lemma LeafTable(tag: byte)
    requires tag != 1 && tag != 2
    ensures LeafRule(DataType(tag), "") == DataRule(tag)
  {
  }

  lemma DataChoice()
    ensures var r := RuleOf(Data, "");
            r.Choice? && |r.alternatives| == 256 && r.tid == Null &&
            forall tag: byte :: r.alternatives[tag] == DataType(tag)
  {
  }

  /** Main result: whatever bytes follow, parsing the encoding of a Data value consumes the
      encoding, no more and no less, and appends the pre-order list of its nodes. */
  lemma {:induction false} ParseEncoding(v: Value, rest: seq<byte>)
    requires WellFormed(v)
    requires |Encode(v)| + |rest| < 0x8000_0000
    ensures Parse(Data, "", Encode(v) + rest) == Parsed(|Encode(v)|, Flatten(v))
    decreases v, 1
  {
    var s := Encode(v) + rest;
    NonEmpty(v);
    DataChoice();
    assert Parse(DataType(v.tag), "", s[1..]) == Parsed(|Encode(v)| - 1, Flatten(v)) by {
      hide RuleOf, DataRule, Flatten, Encode;
      ParseContents(v, rest);
    }
    hide RuleOf, DataRule, Flatten, Encode, WellFormed;
    assert [] + Flatten(v) == Flatten(v);
  }

  /** The same after the tag. */
  lemma {:induction false} ParseContents(v: Value, rest: seq<byte>)
    requires WellFormed(v)
    requires |Encode(v)| + |rest| < 0x8000_0000
    ensures |Encode(v)| > 0
    ensures Parse(DataType(v.tag), "", (Encode(v) + rest)[1..]) == Parsed(|Encode(v)| - 1, Flatten(v))
    decreases v, 0
  {
    hide RuleOf, DataRule, ParseBuf, EncodeLength, EncodeAll, FlattenAll;
    DataTable(v.tag);
    var body := (Encode(v) + rest)[1..];
    match v
    case Fixed(tag, content) =>
      assert body == content + rest;
      FixedContents(DataRule(tag), Rank(DataType(tag)), content, rest);
    case Unfixed(tag, form, content) =>
      assert body == EncodeLength(form, |content|) + content + rest;
      UnfixedContents(DataRule(tag), Rank(DataType(tag)), form, content, rest);
    case Many(tag, form, elements) =>
      assert body == EncodeLength(form, |elements|) + EncodeAll(elements) + rest;
      ManyContents(DataRule(tag), Rank(DataType(tag)), form, elements, rest);
  }

  lemma {:induction false} ManyContents(r: Rule, rank: nat, form: LengthForm, elements: seq<Value>, rest: seq<byte>)
    requires r.SequenceOfData? && Rank(Data) < rank && Fits(form, |elements|)
    requires forall e <- elements :: WellFormed(e)
    requires |EncodeLength(form, |elements|)| + |EncodeAll(elements)| + |rest| < 0x8000_0000
    ensures ParseBuf(r, rank, EncodeLength(form, |elements|) + EncodeAll(elements) + rest)
         == Parsed(|EncodeLength(form, |elements|)| + |EncodeAll(elements)|,
                   [Item(r.tid, r.des, Octets(|elements|, 4))] + FlattenAll(elements))
    decreases elements, 1
  {
    hide RuleOf, DataRule, WellFormed, EncodeAll, FlattenAll, EncodeLength;
    var l := EncodeLength(form, |elements|);
    LengthRoundTrip(form, |elements|, EncodeAll(elements) + rest);
    ParseAll(l, elements, rest, rank);
    assert l + EncodeAll(elements) + rest == l + (EncodeAll(elements) + rest);
  }

  lemma FixedContents(r: Rule, rank: nat, content: seq<byte>, rest: seq<byte>)
    requires r.FixedLength? && r.length == |content|
    ensures ParseBuf(r, rank, content + rest) == Parsed(|content|, [Item(r.tid, r.des, content)])
  {
    assert (content + rest)[..|content|] == content;
  }

  lemma UnfixedContents(r: Rule, rank: nat, form: LengthForm, content: seq<byte>, rest: seq<byte>)
    requires r.UnfixedLength? && Fits(form, |content|)
    requires |EncodeLength(form, |content|)| + |content| + |rest| < 0x8000_0000
    ensures ParseBuf(r, rank, EncodeLength(form, |content|) + content + rest)
         == Parsed(|EncodeLength(form, |content|)| + |content|,
                   [Item(r.tid, r.des + "_" + Decimal(|content|), content)])
  {
    hide RuleOf, DataRule, EncodeLength, Fits, ParseLength, Decimal, ParseParts, ParseElements, ParseDescriptors;
    var l := EncodeLength(form, |content|);
    var s := l + content + rest;
    LengthRoundTrip(form, |content|, content + rest);
    assert s == l + (content + rest);
    assert s[|l|..|l| + |content|] == content;
  }

  lemma OneElement(s: seq<byte>, pos: nat, left: nat, rank: nat, n: nat, items: seq<Item>)
    requires pos < |s| && 0 < left && Rank(Data) < rank
    requires Parse(Data, "", s[pos..]) == Parsed(n, items)
    ensures pos + n <= |s|
    ensures ParseElements(s, pos, left, rank) == After(0, items, ParseElements(s, pos + n, left - 1, rank))
  {
    hide Parse, RuleOf, DataRule;
  }

  /** The element loop, once the bytes `before` its position have been consumed. */
  lemma {:induction false} ParseAll(before: seq<byte>, vs: seq<Value>, rest: seq<byte>, rank: nat)
    requires forall e <- vs :: WellFormed(e)
    requires |before| + |EncodeAll(vs)| + |rest| < 0x8000_0000
    requires Rank(Data) < rank
    ensures ParseElements(before + EncodeAll(vs) + rest, |before|, |vs|, rank)
         == Parsed(|before| + |EncodeAll(vs)|, FlattenAll(vs))
    decreases vs, 0
  {
    hide RuleOf, DataRule, Flatten, Encode, WellFormed, Parse;
    var s := before + EncodeAll(vs) + rest;
    if vs != [] {
      hide ParseElements;
      var first := Encode(vs[0]);
      NonEmpty(vs[0]);
      assert s[|before|..] == first + (EncodeAll(vs[1..]) + rest);
      ParseEncoding(vs[0], EncodeAll(vs[1..]) + rest);
      assert s == (before + first) + EncodeAll(vs[1..]) + rest;
      ParseAll(before + first, vs[1..], rest, rank);
      OneElement(s, |before|, |vs|, rank, |first|, Flatten(vs[0]));
    }
  }
}
