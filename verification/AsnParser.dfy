/** The recursive-descent parser itself: loops that advance a position over a buffer and
    append to one shared result list, each proved to do what `AsnSpec` says. */
module AsnParser {
  import opened Bytes
  import opened AsnGrammar
  import opened AsnSpec

  /** What a call comes back with: the C return value, or a read outside the buffer. */
  datatype Return = Returned(code: int) | Undefined

  /** `r` and the result list `after` are what `o`, appended to the list `before`, says. */
  ghost predicate Agrees(o: Outcome, r: Return, before: seq<Item>, after: seq<Item>) {
    Leaves(After(0, before, o), r, after)
  }

  ghost predicate Leaves(o: Outcome, r: Return, after: seq<Item>) {
    match o
    case Parsed(n, items) => r == Returned(n) && after == items
    case Rejected(items) => r == Returned(-1) && after == items
    case OutOfBounds => r == Undefined
  }

  lemma AfterAfter(a: nat, x: seq<Item>, b: nat, y: seq<Item>, o: Outcome)
    ensures After(a, x, After(b, y, o)) == After(a + b, x + y, o)
  {
    match o
    case Parsed(_, z) => assert x + y + z == x + (y + z);
    case Rejected(z) => assert x + y + z == x + (y + z);
    case OutOfBounds =>
  }

  /** What a loop adds to its position after a child came back with `o`. */
  function Code(o: Outcome): int
    requires !o.OutOfBounds?
  {
    if o.Parsed? then o.consumed else -1
  }

  lemma AgreesMeans(o: Outcome, r: Return, before: seq<Item>, after: seq<Item>)
    ensures Agrees(o, r, before, after) <==>
            if o.OutOfBounds? then r == Undefined else r == Returned(Code(o)) && after == before + o.items
  {
  }

  lemma AgreesCases(o: Outcome, r: Return, before: seq<Item>, after: seq<Item>)
    requires Agrees(o, r, before, after)
    ensures match o
            case Parsed(n, items) => r == Returned(n) && after == before + items
            case Rejected(items) => r == Returned(-1) && after == before + items
            case OutOfBounds => r == Undefined
  {
  }

  lemma AgreesAtEnd(o: Outcome, pos: int, before: seq<Item>, after: seq<Item>)
    requires -1 <= pos && After(0, before, o) == After(0, after, AtEnd(pos))
    ensures Agrees(o, Returned(pos), before, after)
  {
    LoopOver(after, pos);
  }

  lemma OutOfBoundsAfter(o: Outcome, before: seq<Item>)
    ensures After(0, before, o) == OutOfBounds <==> o == OutOfBounds
  {
  }

  lemma ListLength(rule: Rule, rank: nat, buf: seq<byte>, before: seq<Item>)
    requires (rule.SequenceOfData? || rule.SequenceOfWithList?) && Descends(rule, rank)
    ensures Rank(Data) < rank
    ensures rule.SequenceOfWithList? ==> Rank(CosemAttributeDescriptor) < rank
    ensures ParseLength(buf).BadLength? ==> Agrees(ParseBuf(rule, rank, buf), Returned(-1), before, before)
    ensures ParseLength(buf).LengthOutOfBounds? ==> Agrees(ParseBuf(rule, rank, buf), Undefined, before, before)
  {
    hide RuleOf, ParseDescriptors, ParseElements, LowByte, Octets, ParseLength;
    assert before + [] == before;
  }

  lemma DataItemFirst(rule: Rule, rank: nat, buf: seq<byte>, octets: nat, count: nat, before: seq<Item>)
    requires rule.SequenceOfData? && Descends(rule, rank) && octets <= |buf|
    ensures ParseLength(buf) == Length(octets, count) ==>
              After(0, before, ParseBuf(rule, rank, buf))
              == After(0, before + [Item(rule.tid, rule.des, Octets(count, 4))],
                       ParseElements(buf, octets, count, rank))
  {
    hide RuleOf, ParseElements, Octets, ParseLength;
    AfterAfter(0, before, 0, [Item(rule.tid, rule.des, Octets(count, 4))], ParseElements(buf, octets, count, rank));
  }

  lemma ListItemFirst(rule: Rule, rank: nat, buf: seq<byte>, octets: nat, count: nat, before: seq<Item>)
    requires rule.SequenceOfWithList? && Descends(rule, rank) && octets <= |buf|
    ensures ParseLength(buf) == Length(octets, count) ==>
              After(0, before, ParseBuf(rule, rank, buf))
              == After(0, before + [Item(rule.tid, rule.des, [LowByte(count)])],
                       ParseDescriptors(buf, octets, count, rank))
  {
    hide RuleOf, ParseDescriptors, LowByte, ParseLength;
    AfterAfter(0, before, 0, [Item(rule.tid, rule.des, [LowByte(count)])], ParseDescriptors(buf, octets, count, rank));
  }

  lemma CodeBounds(o: Outcome)
    requires !o.OutOfBounds?
    ensures Code(o) >= -1 && (o.Parsed? ==> Code(o) == o.consumed) && (o.Rejected? ==> Code(o) == -1)
  {
  }

  lemma OutsideParts(parts: seq<TypeId>, mask: nat, prefix: string, i: nat, rank: nat, s: seq<byte>)
    requires i < |parts| && AllBelow(parts, rank) && Optional(mask, i) && s == []
    ensures ParseParts(parts, mask, prefix, i, rank, s) == OutOfBounds
  {
  }

  lemma RankBelow(parts: seq<TypeId>, i: nat, rank: nat)
    requires AllBelow(parts, rank) && i < |parts|
    ensures Rank(parts[i]) < rank
  {
  }

  lemma ElementsEnd(buf: seq<byte>, pos: int, left: nat, rank: nat)
    requires -1 <= pos <= |buf| && Rank(Data) < rank
    ensures left == 0 || pos >= |buf| ==> ParseElements(buf, pos, left, rank) == AtEnd(pos)
    ensures left > 0 && pos < 0 ==> ParseElements(buf, pos, left, rank) == OutOfBounds
  {
  }

  lemma DescriptorsEnd(buf: seq<byte>, pos: int, left: nat, rank: nat)
    requires -1 <= pos <= |buf| && Rank(Data) < rank && Rank(CosemAttributeDescriptor) < rank
    ensures left == 0 || pos >= |buf| ==> ParseDescriptors(buf, pos, left, rank) == AtEnd(pos)
    ensures left > 0 && pos < 0 ==> ParseDescriptors(buf, pos, left, rank) == OutOfBounds
  {
  }

  lemma SelectionOutside(buf: seq<byte>, pos: int, left: nat, rank: nat)
    requires -1 <= pos <= |buf| && left > 0 && Rank(Data) < rank && Rank(CosemAttributeDescriptor) < rank
    ensures pos < 0 || pos >= |buf| ==> ParseSelection(buf, pos, left, rank) == OutOfBounds
  {
  }

  lemma SkipPart(parts: seq<TypeId>, mask: nat, prefix: string, i: nat, rank: nat,
    buf: seq<byte>, pos: nat, added: seq<Item>)
    requires i < |parts| && AllBelow(parts, rank) && pos < |buf|
    requires Optional(mask, i) && buf[pos] == 0
    ensures After(pos, added, ParseParts(parts, mask, prefix, i, rank, buf[pos..]))
         == After(pos + 1, added, ParseParts(parts, mask, prefix, i + 1, rank, buf[pos + 1..]))
  {
    hide ParsePart, RuleOf, Optional;
    assert buf[pos..][1..] == buf[pos + 1..] && added + [] == added;
    AfterAfter(pos, added, 1, [], ParseParts(parts, mask, prefix, i + 1, rank, buf[pos + 1..]));
  }

  lemma EnterPart(parts: seq<TypeId>, mask: nat, prefix: string, i: nat, rank: nat,
    buf: seq<byte>, pos: nat, added: seq<Item>)
    requires i < |parts| && AllBelow(parts, rank) && pos <= |buf|
    requires Optional(mask, i) ==> pos < |buf| && buf[pos] != 0
    ensures After(pos, added, ParseParts(parts, mask, prefix, i, rank, buf[pos..]))
         == if Optional(mask, i) then After(pos + 1, added, ParsePart(parts, mask, prefix, i, rank, buf[pos + 1..]))
            else After(pos, added, ParsePart(parts, mask, prefix, i, rank, buf[pos..]))
  {
    hide ParsePart, RuleOf, Optional;
    if Optional(mask, i) {
      assert buf[pos..][1..] == buf[pos + 1..] && added + [] == added;
      AfterAfter(pos, added, 1, [], ParsePart(parts, mask, prefix, i, rank, buf[pos + 1..]));
    }
  }

  lemma LeavePart(parts: seq<TypeId>, mask: nat, prefix: string, i: nat, rank: nat,
    buf: seq<byte>, pos: nat, added: seq<Item>)
    requires i < |parts| && AllBelow(parts, rank) && pos <= |buf|
    ensures var o := AsnSpec.Parse(parts[i], prefix, buf[pos..]);
            After(pos, added, ParsePart(parts, mask, prefix, i, rank, buf[pos..])) ==
            match o
            case Parsed(n, items) =>
              After(pos + n, added + items, ParseParts(parts, mask, prefix, i + 1, rank, buf[pos + n..]))
            case Rejected(items) => Rejected(added + items)
            case OutOfBounds => OutOfBounds
  {
    hide ParseParts, RuleOf, Optional, AsnSpec.Parse;
    var o := AsnSpec.Parse(parts[i], prefix, buf[pos..]);
    if o.Parsed? {
      assert buf[pos..][o.consumed..] == buf[pos + o.consumed..];
      AfterAfter(pos, added, o.consumed, o.items,
                 ParseParts(parts, mask, prefix, i + 1, rank, buf[pos + o.consumed..]));
    }
  }

  lemma NextElement(buf: seq<byte>, pos: nat, left: nat, rank: nat, added: seq<Item>)
    requires pos < |buf| && 0 < left && Rank(Data) < rank
    ensures var o := AsnSpec.Parse(Data, "", buf[pos..]);
            After(0, added, ParseElements(buf, pos, left, rank)) ==
            if o.OutOfBounds? then OutOfBounds
            else After(0, added + o.items, ParseElements(buf, pos + Code(o), left - 1, rank))
  {
    hide RuleOf, AsnSpec.Parse;
    var o := AsnSpec.Parse(Data, "", buf[pos..]);
    if !o.OutOfBounds? {
      AfterAfter(0, added, 0, o.items, ParseElements(buf, pos + Code(o), left - 1, rank));
    }
  }

  lemma NextDescriptor(buf: seq<byte>, pos: nat, left: nat, rank: nat, added: seq<Item>)
    requires pos < |buf| && 0 < left && Rank(Data) < rank && Rank(CosemAttributeDescriptor) < rank
    ensures var o := AsnSpec.Parse(CosemAttributeDescriptor, "", buf[pos..]);
            After(0, added, ParseDescriptors(buf, pos, left, rank)) ==
            if o.OutOfBounds? then OutOfBounds
            else After(0, added + o.items, ParseSelection(buf, pos + Code(o), left, rank))
  {
    hide RuleOf, AsnSpec.Parse, ParseSelection;
    var o := AsnSpec.Parse(CosemAttributeDescriptor, "", buf[pos..]);
    if !o.OutOfBounds? {
      AfterAfter(0, added, 0, o.items, ParseSelection(buf, pos + Code(o), left, rank));
    }
  }

  lemma NextSelection(buf: seq<byte>, pos: nat, left: nat, rank: nat, added: seq<Item>)
    requires pos < |buf| && 0 < left && Rank(Data) < rank && Rank(CosemAttributeDescriptor) < rank
    ensures var own := added + [SelectionItem(buf[pos])];
            var o := AsnSpec.Parse(Data, "", buf[pos..]);
            After(0, added, ParseSelection(buf, pos, left, rank)) ==
            if buf[pos] == 0 then After(0, own, ParseDescriptors(buf, pos + 1, left - 1, rank))
            else if buf[pos] != 1 then After(0, own, ParseDescriptors(buf, pos, left - 1, rank))
            else if o.OutOfBounds? then OutOfBounds
            else After(0, own + o.items, ParseDescriptors(buf, pos + Code(o), left - 1, rank))
  {
    hide RuleOf, AsnSpec.Parse, ParseDescriptors;
    var own := [SelectionItem(buf[pos])];
    var o := AsnSpec.Parse(Data, "", buf[pos..]);
    if buf[pos] == 0 {
      AfterAfter(0, added, 0, own, ParseDescriptors(buf, pos + 1, left - 1, rank));
    } else if buf[pos] != 1 {
      AfterAfter(0, added, 0, own, ParseDescriptors(buf, pos, left - 1, rank));
    } else if !o.OutOfBounds? {
      assert added + (own + o.items) == added + own + o.items;
      AfterAfter(0, added, 0, own + o.items, ParseDescriptors(buf, pos + Code(o), left - 1, rank));
    }
  }

  lemma BerStart(rule: Rule, rank: nat, buf: seq<byte>, before: seq<Item>)
    requires rule.BerSequence?
    ensures buf == [] ==> Agrees(ParseBuf(rule, rank, buf), Undefined, before, before)
    ensures buf != [] && |buf| < buf[0] as int + 1 ==>
              Agrees(ParseBuf(rule, rank, buf), Returned(-1), before, before)
    ensures buf != [] && |buf| >= buf[0] as int + 1 ==>
              After(0, before, ParseBuf(rule, rank, buf))
              == After(1, before, ParseBerParts(rule.parts, |rule.parts|, buf[1..]))
  {
    hide RuleOf, AsnSpec.Parse, ParseBerParts;
    assert before + [] == before;
    if buf != [] { AfterAfter(0, before, 1, [], ParseBerParts(rule.parts, |rule.parts|, buf[1..])); }
  }

  lemma BerEnd(parts: seq<TypeId>, left: nat, s: seq<byte>)
    ensures left == 0 ==> ParseBerParts(parts, left, s) == Parsed(0, [])
    ensures left > 0 && s == [] ==> ParseBerParts(parts, left, s) == OutOfBounds
    ensures left > 0 && s != [] && s[0] >= |parts| ==> ParseBerParts(parts, left, s) == Rejected([])
  {
    hide AsnSpec.Parse;
  }

  lemma NextBerPart(parts: seq<TypeId>, left: nat, buf: seq<byte>, pos: nat, added: seq<Item>)
    requires left > 0 && pos < |buf| && buf[pos] < |parts|
    ensures After(pos, added, ParseBerParts(parts, left, buf[pos..])) ==
            match AsnSpec.Parse(parts[buf[pos]], "", buf[pos + 1..])
            case Parsed(n, items) =>
              After(pos + 1 + n, added + items, ParseBerParts(parts, left - 1, buf[pos + 1 + n..]))
            case Rejected(items) => Rejected(added + items)
            case OutOfBounds => OutOfBounds
  {
    hide RuleOf, AsnSpec.Parse;
    assert buf[pos..][1..] == buf[pos + 1..];
    var o := AsnSpec.Parse(parts[buf[pos]], "", buf[pos + 1..]);
    if o.Parsed? {
      var n := o.consumed;
      assert buf[pos + 1..][n..] == buf[pos + 1 + n..];
      AfterAfter(pos, added, 1 + n, o.items, ParseBerParts(parts, left - 1, buf[pos + 1 + n..]));
    }
  }

  lemma LoopOver(added: seq<Item>, pos: int)
    requires -1 <= pos
    ensures After(0, added, AtEnd(pos)) == if pos < 0 then Rejected(added) else Parsed(pos, added)
  {
    assert added + [] == added;
  }

  class Parser {
    var results: seq<Item>

    constructor ()
      ensures results == []
    {
      results := [];
    }

    method Push(item: Item)
      modifies this
      ensures results == old(results) + [item]
    {
      results := results + [item];
    }

    method ParseLengthInfo(buf: seq<byte>) returns (ok: bool, inside: bool, octets: nat, length: nat)
      ensures match ParseLength(buf)
              case Length(o, v) => ok && inside && octets == o && length == v
              case BadLength => !ok && inside
              case LengthOutOfBounds => !inside
    {
      ok, inside, octets, length := true, true, 1, 0;
      if |buf| == 0 { return false, false, 0, 0; }
      var flag, count := buf[0] / 128, buf[0] % 128;
      if flag == 0 { return true, true, 1, count; }
      if count > 4 { return false, true, 1, 0; }
      if |buf| < 1 + count { return false, false, 1, 0; }
      var i := 0;
      while i < count
        invariant 0 <= i <= count && octets == 1 + i
        invariant length == BigEndian(buf[1..1 + i])
      {
        assert buf[1..2 + i][..i] == buf[1..1 + i];
        length := length * 256 + buf[octets];
        octets := octets + 1;
        i := i + 1;
      }
    }

    method Parse(tid: TypeId, prefix: string, buf: seq<byte>) returns (r: Return)
      modifies this
      ensures Agrees(AsnSpec.Parse(tid, prefix, buf), r, old(results), results)
      decreases |buf|, 2 * Rank(tid) + 1
    {
      var rule := RuleOf(tid, prefix);
      ghost var rank := Rank(tid);
      hide RuleOf, Rank;
      match rule
      case Sequence(parts, mask, partPrefix) => r := ParseSequence(parts, mask, partPrefix, rank, buf);
      case Choice(_, _, _) => r := ParseChoice(rule, rank, buf);
      case SequenceOfData(_, _) => r := ParseSequenceOfData(rule, rank, buf);
      case SequenceOfWithList(_, _) => r := ParseSequenceOfWithList(rule, rank, buf);
      case FixedLength(_, _, _) => r := ParseFixed(rule, rank, buf);
      case UnfixedLength(_, _) => r := ParseUnfixed(rule, rank, buf);
      case BerSequence(_) => r := ParseBerSequence(rule, rank, buf);
      case NoRule => r := Returned(-1);
    }

    method ParseSequence(parts: seq<TypeId>, mask: nat, prefix: string, ghost rank: nat, buf: seq<byte>)
      returns (r: Return)
      requires AllBelow(parts, rank)
      modifies this
      ensures Agrees(ParseParts(parts, mask, prefix, 0, rank, buf), r, old(results), results)
      decreases |buf|, 2 * rank
    {
      hide RuleOf, Optional, AsnSpec.Parse, ParsePart, AllBelow, Rank;
      ghost var goal := After(0, results, ParseParts(parts, mask, prefix, 0, rank, buf));
      var pos := 0;
      var i := 0;
      assert buf[pos..] == buf;
      while i < |parts|
        invariant 0 <= i <= |parts| && 0 <= pos <= |buf|
        invariant goal == After(pos, results, ParseParts(parts, mask, prefix, i, rank, buf[pos..]))
      {
        hide ParseParts;
        ghost var start := pos;
        if Optional(mask, i) {
          if pos >= |buf| {
            OutsideParts(parts, mask, prefix, i, rank, buf[pos..]);
            return Undefined;
          }
          pos := pos + 1;
          if buf[pos - 1] == 0 {
            SkipPart(parts, mask, prefix, i, rank, buf, start, results);
            i := i + 1;
            continue;
          }
        }
        EnterPart(parts, mask, prefix, i, rank, buf, start, results);
        LeavePart(parts, mask, prefix, i, rank, buf, pos, results);
        RankBelow(parts, i, rank);
        r := Parse(parts[i], prefix, buf[pos..]);
        if r == Undefined { return; }
        if r.code < 0 { return Returned(-1); }
        pos := pos + r.code;
        i := i + 1;
      }
      return Returned(pos);
    }

    method ParseChoice(rule: Rule, ghost rank: nat, buf: seq<byte>) returns (r: Return)
      requires rule.Choice?
      modifies this
      ensures Agrees(ParseBuf(rule, rank, buf), r, old(results), results)
      decreases |buf|, 2 * rank
    {
      if |buf| == 0 { return Undefined; }
      var tag := buf[0];
      if tag >= |rule.alternatives| { return Returned(-1); }
      ghost var o := AsnSpec.Parse(rule.alternatives[tag], "", buf[1..]);
      ghost var own := if rule.tid != Null then [Item(rule.tid, rule.des, [tag])] else [];
      assert ParseBuf(rule, rank, buf) == After(1, own, o);
      hide AsnSpec.Parse, ParseBuf, RuleOf;
      AfterAfter(0, results, 1, own, o);
      if rule.tid != Null {
        Push(Item(rule.tid, rule.des, [tag]));
      }
      assert results == old(results) + own;
      r := Parse(rule.alternatives[tag], "", buf[1..]);
      if r == Undefined || r.code < 0 { return; }
      r := Returned(r.code + 1);
    }

    method ParseSequenceOfData(rule: Rule, ghost rank: nat, buf: seq<byte>) returns (r: Return)
      requires rule.SequenceOfData? && Descends(rule, rank)
      modifies this
      ensures Agrees(ParseBuf(rule, rank, buf), r, old(results), results)
      decreases |buf|, 2 * rank
    {
      hide *;
      ListLength(rule, rank, buf, results);
      var ok, inside, octets, count := ParseLengthInfo(buf);
      if !inside { return Undefined; }
      if !ok { return Returned(-1); }
      assert ParseLength(buf) == Length(octets, count);
      ghost var goal := After(0, results, ParseBuf(rule, rank, buf));
      DataItemFirst(rule, rank, buf, octets, count, results);
      Push(Item(rule.tid, rule.des, Octets(count, 4)));
      var pos: int := octets;
      var i := 0;
      while i < count && pos < |buf|
        invariant 0 <= i <= count && -1 <= pos <= |buf|
        invariant goal == After(0, results, ParseElements(buf, pos, count - i, rank))
      {
        ElementsEnd(buf, pos, count - i, rank);
        OutOfBoundsAfter(ParseElements(buf, pos, count - i, rank), results);
        OutOfBoundsAfter(ParseBuf(rule, rank, buf), old(results));
        AgreesMeans(ParseBuf(rule, rank, buf), Undefined, old(results), results);
        if pos < 0 { return Undefined; }
        NextElement(buf, pos, count - i, rank, results);
        ghost var o, before := AsnSpec.Parse(Data, "", buf[pos..]), results;
        r := Parse(Data, "", buf[pos..]);
        AgreesMeans(o, r, before, results);
        AgreesMeans(ParseBuf(rule, rank, buf), Undefined, old(results), results);
        if r == Undefined { return; }
        CodeBounds(o);
        pos := pos + r.code;
        i := i + 1;
      }
      ElementsEnd(buf, pos, count - i, rank);
      AgreesAtEnd(ParseBuf(rule, rank, buf), pos, old(results), results);
      return Returned(pos);
    }

    method ParseSequenceOfWithList(rule: Rule, ghost rank: nat, buf: seq<byte>) returns (r: Return)
      requires rule.SequenceOfWithList? && Descends(rule, rank)
      modifies this
      ensures Agrees(ParseBuf(rule, rank, buf), r, old(results), results)
      decreases |buf|, 2 * rank, 1
    {
      hide *;
      ListLength(rule, rank, buf, results);
      var ok, inside, octets, count := ParseLengthInfo(buf);
      if !inside { return Undefined; }
      if !ok { return Returned(-1); }
      assert ParseLength(buf) == Length(octets, count);
      ghost var goal := After(0, results, ParseBuf(rule, rank, buf));
      ListItemFirst(rule, rank, buf, octets, count, results);
      Push(Item(rule.tid, rule.des, [LowByte(count)]));
      var pos: int := octets;
      var i := 0;
      while i < count && pos < |buf|
        invariant 0 <= i <= count && -1 <= pos <= |buf|
        invariant goal == After(0, results, ParseDescriptors(buf, pos, count - i, rank))
      {
        DescriptorsEnd(buf, pos, count - i, rank);
        OutOfBoundsAfter(ParseBuf(rule, rank, buf), old(results));
        OutOfBoundsAfter(ParseDescriptors(buf, pos, count - i, rank), results);
        AgreesMeans(ParseBuf(rule, rank, buf), Undefined, old(results), results);
        if pos < 0 { return Undefined; }
        r := ParseOneDescriptor(buf, pos, count - i, rank);
        AgreesMeans(ParseBuf(rule, rank, buf), Undefined, old(results), results);
        if r == Undefined { return; }
        pos := r.code;
        i := i + 1;
      }
      DescriptorsEnd(buf, pos, count - i, rank);
      AgreesAtEnd(ParseBuf(rule, rank, buf), pos, old(results), results);
      return Returned(pos);
    }

    /** One round of the list loop: the position it goes on from, or a read outside. */
    method ParseOneDescriptor(buf: seq<byte>, pos: nat, ghost left: nat, ghost rank: nat) returns (r: Return)
      requires pos < |buf| && 0 < left
      requires Rank(Data) < rank && Rank(CosemAttributeDescriptor) < rank
      modifies this
      ensures r == Undefined ==> After(0, old(results), ParseDescriptors(buf, pos, left, rank)) == OutOfBounds
      ensures r.Returned? ==> -1 <= r.code <= |buf|
      ensures r.Returned? ==>
        After(0, old(results), ParseDescriptors(buf, pos, left, rank))
        == After(0, results, ParseDescriptors(buf, r.code, left - 1, rank))
      decreases |buf|, 2 * rank, 0
    {
      hide *;
      NextDescriptor(buf, pos, left, rank, results);
      r := Parse(CosemAttributeDescriptor, "", buf[pos..]);
      ghost var o := AsnSpec.Parse(CosemAttributeDescriptor, "", buf[pos..]);
      AgreesMeans(o, r, old(results), results);
      if r == Undefined { return; }
      CodeBounds(o);
      var at := pos + r.code;
      SelectionOutside(buf, at, left, rank);
      OutOfBoundsAfter(ParseSelection(buf, at, left, rank), results);
      if at < 0 || at >= |buf| { return Undefined; }
      NextSelection(buf, at, left, rank, results);
      ghost var listed := results;
      Push(SelectionItem(buf[at]));
      if buf[at] == 0 { return Returned(at + 1); }
      if buf[at] != 1 { return Returned(at); }
      r := Parse(Data, "", buf[at..]);
      ghost var o2 := AsnSpec.Parse(Data, "", buf[at..]);
      AgreesMeans(o2, r, listed + [SelectionItem(buf[at])], results);
      if r == Undefined { return; }
      CodeBounds(o2);
      r := Returned(at + r.code);
    }

    method ParseBerSequence(rule: Rule, ghost rank: nat, buf: seq<byte>) returns (r: Return)
      requires rule.BerSequence?
      modifies this
      ensures Agrees(ParseBuf(rule, rank, buf), r, old(results), results)
      decreases |buf|, 2 * rank
    {
      hide RuleOf, AsnSpec.Parse, Rank, ParseBuf, ParseBerParts;
      BerStart(rule, rank, buf, results);
      if |buf| == 0 { return Undefined; }
      var length := buf[0];
      if |buf| < length as int + 1 { return Returned(-1); }
      var parts := rule.parts;
      ghost var goal := After(0, results, ParseBuf(rule, rank, buf));
      var pos, i := 1, 0;
      while i < |parts|
        invariant 0 <= i <= |parts| && 1 <= pos <= |buf|
        invariant goal == After(pos, results, ParseBerParts(parts, |parts| - i, buf[pos..]))
      {
        BerEnd(parts, |parts| - i, buf[pos..]);
        if pos >= |buf| { return Undefined; }
        var tag := buf[pos];
        if tag >= |parts| {
          assert results + [] == results;
          return Returned(-1);
        }
        NextBerPart(parts, |parts| - i, buf, pos, results);
        r := Parse(parts[tag], "", buf[pos + 1..]);
        if r == Undefined { return; }
        if r.code < 0 { return Returned(-1); }
        pos := pos + 1 + r.code;
        i := i + 1;
      }
      BerEnd(parts, 0, buf[pos..]);
      assert results + [] == results;
      return Returned(pos);
    }

    method ParseFixed(rule: Rule, ghost rank: nat, buf: seq<byte>) returns (r: Return)
      requires rule.FixedLength?
      modifies this
      ensures Agrees(ParseBuf(rule, rank, buf), r, old(results), results)
    {
      if |buf| < rule.length { return Returned(-1); }
      Push(Item(rule.tid, rule.des, buf[..rule.length]));
      return Returned(rule.length);
    }

    method ParseUnfixed(rule: Rule, ghost rank: nat, buf: seq<byte>) returns (r: Return)
      requires rule.UnfixedLength?
      modifies this
      ensures Agrees(ParseBuf(rule, rank, buf), r, old(results), results)
    {
      var ok, inside, octets, length := ParseLengthInfo(buf);
      if !inside { return Undefined; }
      if !ok { return Returned(-1); }
      if |buf| < (length + octets) % UINT_MODULUS { return Returned(-1); }
      if |buf| < length + octets { return Undefined; }
      Push(Item(rule.tid, rule.des + "_" + Decimal(length), buf[octets..octets + length]));
      return Returned(length + octets);
    }
  }
}
