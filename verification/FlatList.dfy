/** The flat result list determines the Data value it came from. */
module FlatList {
  import opened Bytes
  import opened Wrappers
  import opened AsnGrammar
  import opened AsnSpec
  import opened CosemData

  /** A value up to what the flat list cannot show: which of the tags for null was used, and
      in which form a length was written. */
  function Canon(v: Value): Value {
    match v
    case Fixed(tag, content) => Fixed(if DataRule(tag).tid == Null then 0 else tag, content)
    case Unfixed(tag, _, content) => Unfixed(tag, Short, content)
    case Many(tag, _, elements) => Many(tag, Short, CanonAll(elements))
  }

  function CanonAll(vs: seq<Value>): (r: seq<Value>)
    ensures |r| == |vs|
  {
    if vs == [] then [] else [Canon(vs[0])] + CanonAll(vs[1..])
  }

  function TagOf(tid: TypeId): byte {
    match tid
    case SequenceOfArray => 1
    case SequenceOfStruct => 2
    case Boolean => 3
    case BitString => 4
    case Integer32 => 5
    case Unsigned32 => 6
    case FloatingPoint => 7
    case OctetString => 9
    case VisibleString => 10
    case GenTime => 11
    case Bcd => 13
    case Integer8 => 15
    case Integer16 => 16
    case Unsigned8 => 17
    case Unsigned16 => 18
    case Integer64 => 20
    case Unsigned64 => 21
    case Enumerated => 22
    case Float32 => 23
    case Float64 => 24
    case DateTime => 25
    case _ => 0
  }

  /** Reads one value back off the front of a flat list. */
  function Rebuild(items: seq<Item>): (r: Option<(Value, seq<Item>)>)
    ensures r.Some? ==> |r.value.1| < |items|
    decreases |items|, 0
  {
    if items == [] then None
    else
      var tag := TagOf(items[0].tid);
      match DataRule(tag)
      case FixedLength(_, _, _) => Some((Fixed(tag, items[0].bytes), items[1..]))
      case UnfixedLength(_, _) => Some((Unfixed(tag, Short, items[0].bytes), items[1..]))
      case SequenceOfData(_, _) =>
        (match RebuildAll(BigEndian(items[0].bytes), items[1..])
         case None => None
         case Some((elements, rest)) => Some((Many(tag, Short, elements), rest)))
      case _ => None
  }

  function RebuildAll(n: nat, items: seq<Item>): (r: Option<(seq<Value>, seq<Item>)>)
    ensures r.Some? ==> |r.value.1| <= |items|
    decreases |items|, 1, n
  {
    if n == 0 then Some(([], items))
    else
      match Rebuild(items)
      case None => None
      case Some((first, rest)) =>
        match RebuildAll(n - 1, rest)
        case None => None
        case Some((others, rest')) => Some(([first] + others, rest'))
  }

  /** The type of an item determines its tag, but for the tags of null. */
  lemma TagDetermined(tag: byte)
    ensures var r := DataRule(tag);
            TagOf(r.tid) == (if r.tid == Null then 0 else tag) && DataRule(TagOf(r.tid)) == r
    ensures DataRule(tag).tid == Null ==> DataRule(tag) == FixedLength(0, Null, "null_data")
  {
  }

  /** Reading the flat list of a value gives the value back, and nothing of what follows. */
  lemma {:induction false} RebuildFlatten(v: Value, rest: seq<Item>)
    requires WellFormed(v)
    ensures Rebuild(Flatten(v) + rest) == Some((Canon(v), rest))
    decreases v, 1
  {
    TagDetermined(v.tag);
    hide DataRule, TagOf, Decimal, CanonAll, FlattenAll, Octets, BigEndian, RebuildAll, Fits;
    var items := Flatten(v) + rest;
    if v.Many? {
      assert items[1..] == FlattenAll(v.elements) + rest;
      FitsCount(v.form, |v.elements|);
      OctetsBigEndian(|v.elements|, 4);
      RebuildFlattenAll(v.elements, rest);
    } else {
      assert items[1..] == rest;
    }
  }

  lemma FitsCount(form: LengthForm, n: nat)
    requires Fits(form, n)
    ensures n < Pow256(4)
  {
    assert Pow256(4) == UINT_MODULUS;
    LengthRoundTrip(form, n, []);
  }

  lemma {:induction false} RebuildFlattenAll(vs: seq<Value>, rest: seq<Item>)
    requires forall e <- vs :: WellFormed(e)
    ensures RebuildAll(|vs|, FlattenAll(vs) + rest) == Some((CanonAll(vs), rest))
    decreases vs, 0
  {
    hide DataRule, WellFormed, Flatten, Rebuild, Canon;
    if vs == [] {
      assert FlattenAll(vs) + rest == rest;
    } else {
      assert FlattenAll(vs) + rest == Flatten(vs[0]) + (FlattenAll(vs[1..]) + rest);
      RebuildFlatten(vs[0], FlattenAll(vs[1..]) + rest);
      RebuildFlattenAll(vs[1..], rest);
    }
  }

  lemma {:induction false} SameCanonSameList(v: Value, w: Value)
    requires WellFormed(v) && WellFormed(w) && Canon(v) == Canon(w)
    ensures Flatten(v) == Flatten(w)
    decreases v, 1
  {
    hide DataRule, TagOf, Decimal, FlattenAll, Octets, CanonAll, Fits;
    SameCanonSameRule(v, w);
    if v.Many? {
      SameCanonSameListAll(v.elements, w.elements);
    }
  }

  lemma SameCanonSameRule(v: Value, w: Value)
    requires WellFormed(v) && WellFormed(w) && Canon(v) == Canon(w)
    ensures DataRule(v.tag) == DataRule(w.tag)
  {
    assert DataRule(0).tid == Null;
    TagDetermined(v.tag);
    TagDetermined(w.tag);
    hide DataRule, TagOf, CanonAll, Fits;
  }

  lemma {:induction false} SameCanonSameListAll(vs: seq<Value>, ws: seq<Value>)
    requires forall e <- vs :: WellFormed(e)
    requires forall e <- ws :: WellFormed(e)
    requires CanonAll(vs) == CanonAll(ws)
    ensures |vs| == |ws| && FlattenAll(vs) == FlattenAll(ws)
    decreases vs, 0
  {
    hide DataRule, WellFormed, Flatten, Canon;
    if vs != [] {
      assert |CanonAll(vs)| == |CanonAll(ws)|;
      assert CanonAll(vs)[0] == Canon(vs[0]) && CanonAll(ws)[0] == Canon(ws[0]);
      assert CanonAll(vs)[1..] == CanonAll(vs[1..]) && CanonAll(ws)[1..] == CanonAll(ws[1..]);
      SameCanonSameList(vs[0], ws[0]);
      SameCanonSameListAll(vs[1..], ws[1..]);
    }
  }

  /** Main result: two Data values have the same flat list exactly when they are the same up
      to the choice of null tag and of length form. */
  lemma ListDeterminesValue(v: Value, w: Value)
    requires WellFormed(v) && WellFormed(w)
    ensures Flatten(v) == Flatten(w) <==> Canon(v) == Canon(w)
  {
    hide *;
    if Canon(v) == Canon(w) { SameCanonSameList(v, w); }
    RebuildFlatten(v, []);
    RebuildFlatten(w, []);
  }

  /** Encodings are uniquely decodable: if two of them start the same bytes, they are equally
      long and their values agree. */
  lemma UniqueDecoding(v: Value, w: Value, afterV: seq<byte>, afterW: seq<byte>)
    requires WellFormed(v) && WellFormed(w)
    requires Encode(v) + afterV == Encode(w) + afterW
    requires |Encode(v) + afterV| < 0x8000_0000
    ensures |Encode(v)| == |Encode(w)| && afterV == afterW && Canon(v) == Canon(w)
  {
    hide *;
    ParseEncoding(v, afterV);
    ParseEncoding(w, afterW);
    ListDeterminesValue(v, w);
    assert afterV == (Encode(v) + afterV)[|Encode(v)|..];
    assert afterW == (Encode(w) + afterW)[|Encode(w)|..];
  }
}
