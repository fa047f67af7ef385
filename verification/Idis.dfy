/** Lists of data units with parameters, in the data area of a packet. */
module Idis {
  import opened Bytes
  import opened Wrappers

  const ASSET := 16
  const OBIS := 6
  const FIXED := 27
  const VALUE_ROOM := 1024
  const LOCAL_BUFFER := 10240
  const AREA_LIMIT := 1400

  /** `data_unit_param`. Only the first `length` bytes of `buffer` count. */
  datatype UnitFields = UnitFields(
    asset: seq<byte>, classId: nat, obis: seq<byte>, attribute: byte, length: nat, buffer: seq<byte>)

  type Unit = u: UnitFields |
    |u.asset| == ASSET && u.classId < 0x1_0000 && |u.obis| == OBIS && u.length < 0x1_0000 && |u.buffer| == VALUE_ROOM
    witness UnitFields(seq(ASSET, _ => 0), 0, seq(OBIS, _ => 0), 0, 0, seq(VALUE_ROOM, _ => 0))

  /** What a unit says. */
  datatype Item = Item(asset: seq<byte>, classId: nat, obis: seq<byte>, attribute: byte, value: seq<byte>)

  predicate Fits(u: Unit) {
    u.length <= VALUE_ROOM
  }

  function ItemOf(u: Unit): Item
    requires Fits(u)
  {
    Item(u.asset, u.classId, u.obis, u.attribute, u.buffer[..u.length])
  }

  function Items(units: seq<Unit>): (items: seq<Item>)
    requires forall u <- units :: Fits(u)
    ensures |items| == |units|
  {
    if units == [] then [] else [ItemOf(units[0])] + Items(units[1..])
  }

  function UnitBytes(u: Unit): (s: seq<byte>)
    requires Fits(u)
    ensures |s| == FIXED + u.length
  {
    u.asset + Stored(u.classId) + u.obis + [u.attribute] + Stored(u.length) + u.buffer[..u.length]
  }

  /** Where the fields of a unit are; its class and length are little-endian. */
  lemma UnitLayout(u: Unit)
    requires Fits(u)
    ensures var s := UnitBytes(u);
            && |s| == 27 + u.length && s[..16] == u.asset && s[16] as int + 256 * s[17] as int == u.classId
            && s[18..24] == u.obis && s[24] == u.attribute && s[25] as int + 256 * s[26] as int == u.length
            && s[27..] == u.buffer[..u.length]
  {
  }

  function AllBytes(units: seq<Unit>): (s: seq<byte>)
    requires forall u <- units :: Fits(u)
    ensures |s| >= FIXED * |units|
  {
    if units == [] then [] else UnitBytes(units[0]) + AllBytes(units[1..])
  }

  // Formatting

  /** `Overrun`: the program would read past a unit's buffer or write past its own. */
  datatype Formatting = Refused | Overrun | Formatted(area: seq<byte>)

  /** The units one after the other into the local buffer, of which `used` bytes are taken. */
  function Place(units: seq<Unit>, used: nat): (total: Option<nat>) {
    if units == [] then Some(used)
    else if !Fits(units[0]) || used + FIXED + units[0].length > LOCAL_BUFFER then None
    else Place(units[1..], used + FIXED + units[0].length)
  }

  function FormatPacket(units: seq<Unit>): Formatting {
    if units == [] || units[0].length > VALUE_ROOM then Refused
    else
      match Place(units, 1)
      case None => Overrun
      case Some(total) =>
        if total > AREA_LIMIT then Refused
        else
          PlaceFits(units, 1);
          Formatted([|units| % 256] + AllBytes(units))
  }

  lemma {:induction false} PlaceFits(units: seq<Unit>, used: nat)
    requires Place(units, used).Some?
    ensures forall u <- units :: Fits(u)
    ensures Place(units, used).value == used + |AllBytes(units)|
    decreases |units|
  {
    hide UnitBytes;
    if units != [] { PlaceFits(units[1..], used + FIXED + units[0].length); }
  }

  lemma {:induction false} PlaceTotal(units: seq<Unit>, used: nat)
    requires forall u <- units :: Fits(u)
    requires used + |AllBytes(units)| <= LOCAL_BUFFER
    ensures Place(units, used) == Some(used + |AllBytes(units)|)
    decreases |units|
  {
    hide UnitBytes;
    if units != [] { PlaceTotal(units[1..], used + FIXED + units[0].length); }
  }

  /** The bytes that the units take: 27 and the value's, each. */
  function Total(units: seq<Unit>): nat {
    if units == [] then 0 else 27 + units[0].length + Total(units[1..])
  }

  lemma {:induction false} TotalIsLength(units: seq<Unit>)
    requires forall u <- units :: Fits(u)
    ensures |AllBytes(units)| == Total(units)
    decreases |units|
  {
    hide UnitBytes;
    if units != [] { TotalIsLength(units[1..]); }
  }

  /** The program leaves a buffer exactly when the first value fits its own, and some other does
      not or all together do not fit the 10240 bytes of the local one. */
  lemma OverrunsExactly(units: seq<Unit>)
    ensures FormatPacket(units).Overrun?
       <==> units != [] && units[0].length <= 1024 &&
            ((exists u <- units :: u.length > 1024) || 1 + Total(units) > 10240)
  {
    hide AllBytes;
    if Place(units, 1).Some? { PlaceFits(units, 1); }
    PlaceBound(units, 1);
    if forall u <- units :: Fits(u) {
      TotalIsLength(units);
      if 1 + Total(units) <= 10240 { PlaceTotal(units, 1); }
    }
  }

  lemma {:induction false} PlaceBound(units: seq<Unit>, used: nat)
    ensures Place(units, used).Some? && used <= LOCAL_BUFFER ==> Place(units, used).value <= LOCAL_BUFFER
    decreases |units|
  {
    if units != [] { PlaceBound(units[1..], used + FIXED + units[0].length); }
  }

  /** A list is formatted exactly when it is not empty, every unit's length is within its buffer
      and the whole takes at most 1400 bytes. */
  lemma FormatsExactly(units: seq<Unit>)
    ensures FormatPacket(units).Formatted?
       <==> units != [] && (forall u <- units :: u.length <= 1024) && 1 + Total(units) <= 1400
  {
    hide AllBytes;
    if forall u <- units :: Fits(u) { TotalIsLength(units); }
    if FormatPacket(units).Formatted? {
      PlaceFits(units, 1);
    }
    if units != [] && (forall u <- units :: Fits(u)) && 1 + |AllBytes(units)| <= AREA_LIMIT {
      PlaceTotal(units, 1);
      assert Fits(units[0]);
    }
  }

  // Parsing

  function ParseUnit(s: seq<byte>): (r: Option<(Item, nat)>)
    ensures r.Some? ==> r.value.1 <= |s|
  {
    if |s| < FIXED then None
    else
      var length := Loaded(s, 25);
      if length > VALUE_ROOM || |s| < FIXED + length then None
      else Some((Item(s[..16], Loaded(s, 16), s[18..24], s[24], s[27..27 + length]), FIXED + length))
  }

  function ParseUnits(s: seq<byte>, n: nat): Option<seq<Item>> {
    if n == 0 then Some([])
    else
      match ParseUnit(s)
      case None => None
      case Some((item, length)) =>
        match ParseUnits(s[length..], n - 1)
        case None => None
        case Some(items) => Some([item] + items)
  }

  /** `parse_packet_with_param` on a data area; nothing where it would leave a buffer. */
  function ParsePacket(area: seq<byte>): Option<seq<Item>> {
    if area == [] then None
    else if area[0] == 0xff then Some([])
    else ParseUnits(area[1..], area[0])
  }

  /** A unit is parsed exactly where its 27 bytes and its value are there and the value fits. */
  lemma ParsesExactly(s: seq<byte>)
    ensures ParseUnit(s).Some?
       <==> |s| >= 27 && s[25] as int + 256 * s[26] as int <= 1024 && |s| >= 27 + s[25] as int + 256 * s[26] as int
  {
  }

  /** The count 0xff reads as an empty list, whatever follows, and an area without a count as none. */
  lemma Sentinel(rest: seq<byte>)
    ensures ParsePacket([0xff] + rest) == Some([]) && ParsePacket([]) == None
  {
  }

  lemma ParseOneUnit(u: Unit, rest: seq<byte>)
    requires Fits(u)
    ensures ParseUnit(UnitBytes(u) + rest) == Some((ItemOf(u), FIXED + u.length))
  {
    hide Stored, Loaded;
    var s := UnitBytes(u) + rest;
    var value := u.buffer[..u.length];
    var tail := u.obis + [u.attribute] + Stored(u.length) + value + rest;
    assert s == u.asset + Stored(u.classId) + tail;
    StoredLoaded(u.asset, u.classId, tail);
    var head := u.asset + Stored(u.classId) + u.obis + [u.attribute];
    assert s == head + Stored(u.length) + (value + rest);
    StoredLoaded(head, u.length, value + rest);
    assert s[..16] == u.asset && s[18..24] == u.obis && s[24] == u.attribute;
    assert s[27..27 + u.length] == value;
  }

  lemma {:induction false} ParseAllUnits(units: seq<Unit>, rest: seq<byte>)
    requires forall u <- units :: Fits(u)
    ensures ParseUnits(AllBytes(units) + rest, |units|) == Some(Items(units))
    decreases |units|
  {
    hide ParseUnit, UnitBytes, ItemOf;
    if units != [] {
      var first, more := UnitBytes(units[0]), AllBytes(units[1..]);
      ParseOneUnit(units[0], more + rest);
      ParseAllUnits(units[1..], rest);
      assert first + more + rest == first + (more + rest);
      assert (first + (more + rest))[|first|..] == more + rest;
    }
  }

  lemma ParseWholeArea(units: seq<Unit>, rest: seq<byte>)
    requires |units| < 0xff && forall u <- units :: Fits(u)
    ensures ParsePacket([|units|] + AllBytes(units) + rest) == Some(Items(units))
  {
    hide AllBytes, ParseUnits, Items, ParsePacket, Fits;
    ParseAllUnits(units, rest);
    ParseCounted(|units|, AllBytes(units) + rest);
    Reassociate([|units|], AllBytes(units), rest);
  }

  lemma Reassociate(a: seq<byte>, b: seq<byte>, c: seq<byte>)
    ensures a + b + c == a + (b + c)
  {
  }

  lemma ParseCounted(count: byte, body: seq<byte>)
    requires count != 0xff
    ensures ParsePacket([count] + body) == ParseUnits(body, count)
  {
    hide ParseUnits;
    assert ([count] + body)[1..] == body;
  }

  /** Main result: what was formatted is parsed back, whatever the data area holds after it;
      and a formatted list has at most 51 units, so its count byte is exact and not 0xff. */
  lemma FormatThenParse(units: seq<Unit>, rest: seq<byte>)
    requires FormatPacket(units).Formatted?
    ensures forall u <- units :: Fits(u)
    ensures |units| <= 51
    ensures FormatPacket(units).area == [|units|] + AllBytes(units)
    ensures ParsePacket(FormatPacket(units).area + rest) == Some(Items(units))
  {
    hide *;
    FormattedArea(units);
    ParseWholeArea(units, rest);
  }

  lemma FormattedArea(units: seq<Unit>)
    requires FormatPacket(units).Formatted?
    ensures (forall u <- units :: Fits(u)) && |units| <= 51
    ensures FormatPacket(units).area == [|units|] + AllBytes(units)
  {
    hide AllBytes, Place, Fits;
    PlaceFits(units, 1);
    CountBound(units);
    assert |units| % 256 == |units|;
  }

  lemma CountBound(units: seq<Unit>)
    requires forall u <- units :: Fits(u)
    ensures 1 + |AllBytes(units)| <= AREA_LIMIT ==> |units| <= 51
  {
    hide AllBytes;
  }

  /** A list of 255 units would read as the sentinel, and one of 256 as empty; the limit on the
      bytes, not a test of the count, keeps both out. */
  lemma LongListsRefused(units: seq<Unit>)
    requires |units| > 51
    ensures !FormatPacket(units).Formatted?
  {
    if FormatPacket(units).Formatted? { FormatThenParse(units, []); }
  }

  // The operations on buffers

  /** `format_data_unit_param` at offset `at`. */
  method FormatUnit(u: Unit, buffer: array<byte>, at: nat) returns (length: nat)
    requires Fits(u) && at + FIXED + u.length <= buffer.Length
    modifies buffer
    ensures length == FIXED + u.length
    ensures buffer[..at + length] == old(buffer[..at]) + UnitBytes(u)
  {
    hide Stored;
    ghost var before := buffer[..at];
    CopyInto(buffer, at, u.asset);
    CopyInto(buffer, at + 16, Stored(u.classId));
    CopyInto(buffer, at + 18, u.obis);
    CopyInto(buffer, at + 24, [u.attribute]);
    CopyInto(buffer, at + 25, Stored(u.length));
    CopyInto(buffer, at + 27, u.buffer[..u.length]);
    length := FIXED + u.length;
    Joined(before, u);
  }

  lemma Joined(before: seq<byte>, u: Unit)
    requires Fits(u)
    ensures before + u.asset + Stored(u.classId) + u.obis + [u.attribute] + Stored(u.length) + u.buffer[..u.length]
         == before + UnitBytes(u)
  {
  }

  /** `inside` is false where the program would leave a buffer. Otherwise returns 0 and fills the
      area exactly when the list is formatted, or returns 1 and leaves the area alone. */
  method FormatPacketWithParam(units: seq<Unit>, area: array<byte>) returns (inside: bool, code: nat)
    requires area.Length >= AREA_LIMIT
    modifies area
    ensures inside <==> !FormatPacket(units).Overrun?
    ensures inside ==> code == if FormatPacket(units).Formatted? then 0 else 1
    ensures inside && code == 0 ==>
      |FormatPacket(units).area| <= area.Length &&
      area[..] == FormatPacket(units).area + old(area[..])[|FormatPacket(units).area|..]
    ensures !inside || code == 1 ==> area[..] == old(area[..])
  {
    hide Place, AllBytes, UnitBytes;
    if |units| == 0 { return true, 1; }
    if units[0].length > VALUE_ROOM { return true, 1; }
    var buffer := new byte[LOCAL_BUFFER](_ => 0);
    buffer[0] := |units| % 256;
    var used := FillBuffer(units, buffer);
    if used.None? { return false, 1; }
    if used.value > AREA_LIMIT { return true, 1; }
    CopyInto(area, 0, buffer[..used.value]);
    PlaceFits(units, 1);
    assert area[..] == area[..used.value] + area[used.value..];
    return true, 0;
  }

  /** The loop over the units; nothing where it would leave a buffer. */
  method FillBuffer(units: seq<Unit>, buffer: array<byte>) returns (total: Option<nat>)
    requires buffer.Length == LOCAL_BUFFER
    modifies buffer
    ensures total == Place(units, 1)
    ensures total.Some? ==> total.value <= LOCAL_BUFFER && forall u <- units :: Fits(u)
    ensures total.Some? ==> buffer[..total.value] == [old(buffer[0])] + AllBytes(units)
  {
    hide UnitBytes;
    ghost var fits := Place(units, 1).Some?;
    if fits { PlaceFits(units, 1); }
    var used, i := 1, 0;
    ghost var count := [buffer[0]];
    while i < |units|
      invariant 0 <= i <= |units| && 1 <= used <= LOCAL_BUFFER
      invariant Place(units[i..], used) == Place(units, 1)
      invariant fits ==> (forall u <- units :: Fits(u)) &&
                         buffer[..used] + AllBytes(units[i..]) == count + AllBytes(units)
    {
      PlaceStep(units[i..], used);
      if units[i].length > VALUE_ROOM || used + FIXED + units[i].length > LOCAL_BUFFER { return None; }
      assert units[i..][1..] == units[i + 1..];
      ghost var done, unit := buffer[..used], UnitBytes(units[i]);
      var length := FormatUnit(units[i], buffer, used);
      if fits { assert done + (unit + AllBytes(units[i + 1..])) == done + unit + AllBytes(units[i + 1..]); }
      used := used + length;
      i := i + 1;
    }
    assert units[i..] == [];
    assert buffer[..used] + [] == buffer[..used];
    return Some(used);
  }

  lemma PlaceStep(units: seq<Unit>, used: nat)
    requires units != []
    ensures Place(units, used) ==
      if !Fits(units[0]) || used + FIXED + units[0].length > LOCAL_BUFFER then None
      else Place(units[1..], used + FIXED + units[0].length)
  {
  }

  /** `parse_data_unit_param` at offset `at`; nothing where it would leave the area or the unit. */
  method ParseDataUnit(area: seq<byte>, at: nat) returns (r: Option<(Item, nat)>)
    requires at <= |area|
    ensures r == ParseUnit(area[at..])
  {
    if at + FIXED > |area| { return None; }
    var s := area[at..];
    var length := Loaded(s, 25);
    if length > VALUE_ROOM || at + FIXED + length > |area| { return None; }
    var item := Item(s[..16], Loaded(s, 16), s[18..24], s[24], s[27..27 + length]);
    return Some((item, FIXED + length));
  }

  /** Appends the items of the area to a list; nothing where it would leave the area or a unit. */
  method ParsePacketWithParam(area: seq<byte>, before: seq<Item>) returns (items: Option<seq<Item>>)
    ensures items == match ParsePacket(area)
                     case None => None
                     case Some(parsed) => Some(before + parsed)
  {
    hide ParseUnit;
    if |area| == 0 { return None; }
    var size := area[0];
    if size == 0xff {
      assert before + [] == before;
      return Some(before);
    }
    var list, at, i := before, 1, 0;
    while i < size
      invariant 0 <= i <= size && 1 <= at <= |area|
      invariant Appended(list, ParseUnits(area[at..], size - i)) == Appended(before, ParsePacket(area))
    {
      var rest := area[at..];
      var r := ParseDataUnit(area, at);
      if r.None? { return None; }
      var (item, length) := r.value;
      assert rest[length..] == area[at + length..];
      AppendedOne(list, item, ParseUnits(area[at + length..], size - i - 1));
      at := at + length;
      list := list + [item];
      i := i + 1;
    }
    assert list + [] == list;
    return Some(list);
  }

  function Appended(list: seq<Item>, items: Option<seq<Item>>): Option<seq<Item>> {
    if items.None? then None else Some(list + items.value)
  }

  lemma AppendedOne(list: seq<Item>, item: Item, items: Option<seq<Item>>)
    ensures Appended(list, Appended([item], items)) == Appended(list + [item], items)
  {
    if items.Some? { assert list + ([item] + items.value) == list + [item] + items.value; }
  }
}
