// RTCP source descriptions (section 6.5 of RFC 3550): items written one after
// the other and read back up to the length given in the header.
module RtcpSdes {
  import opened Bitwise
  import opened Common
  import opened RtcpReports

  const SDES: u8 := 202

  // An item's length is one byte.
  datatype Item = Item(kind: u8, data: seq<u8>)

  predicate Fits(items: seq<Item>) {
    forall i :: 0 <= i < |items| ==> |items[i].data| < 0x100
  }

  function ItemBytes(item: Item): (b: seq<u8>)
    requires |item.data| < 0x100
    ensures |b| == 2 + |item.data|
  {
    [item.kind, |item.data|] + item.data
  }

  function ItemsBytes(items: seq<Item>): seq<u8>
    requires Fits(items)
  {
    if items == [] then [] else ItemBytes(items[0]) + ItemsBytes(items[1..])
  }

  function SdesBytes(count: nat, ssrc: u32, items: seq<Item>): seq<u8>
    requires Fits(items)
  {
    var body := ItemsBytes(items);
    Head(SDES, count, 8 + |body|, ssrc, []) + body
  }

  // ----- reading -----

  // The items from ptr to end lie inside the packet.
  predicate ItemsInside(m: seq<u8>, ptr: nat, end: nat)
    decreases |m| - ptr
  {
    ptr < end ==>
      ptr + 2 <= |m| && ptr + 2 + m[ptr + 1] <= |m| && ItemsInside(m, ptr + 2 + m[ptr + 1], end)
  }

  function ParseItems(m: seq<u8>, ptr: nat, end: nat): seq<Item>
    requires ItemsInside(m, ptr, end)
    decreases |m| - ptr
  {
    if ptr >= end then []
    else
      var next := ptr + 2 + m[ptr + 1];
      [Item(m[ptr], m[ptr + 2..next])] + ParseItems(m, next, end)
  }

  // Where the reader's loop stops.
  function Stop(m: seq<u8>, ptr: nat, end: nat): nat
    requires ItemsInside(m, ptr, end)
    decreases |m| - ptr
  {
    if ptr >= end then ptr else Stop(m, ptr + 2 + m[ptr + 1], end)
  }

  lemma ItemAt(m: seq<u8>, ptr: nat, end: nat)
    requires ItemsInside(m, ptr, end) && ptr < end
    ensures ptr + 2 <= |m| && var next := ptr + 2 + m[ptr + 1];
            && next <= |m| && ItemsInside(m, next, end)
            && ParseItems(m, ptr, end) == [Item(m[ptr], m[ptr + 2..next])] + ParseItems(m, next, end)
  {
  }

  lemma ItemInside(m: seq<u8>, ptr: nat, end: nat)
    requires ptr < end && ptr + 2 <= |m| && ptr + 2 + m[ptr + 1] <= |m| && ItemsInside(m, ptr + 2 + m[ptr + 1], end)
    ensures ItemsInside(m, ptr, end)
    ensures Stop(m, ptr, end) == Stop(m, ptr + 2 + m[ptr + 1], end)
  {
  }

  lemma NoItem(m: seq<u8>, ptr: nat, end: nat)
    requires end <= ptr
    ensures ItemsInside(m, ptr, end) && ParseItems(m, ptr, end) == [] && Stop(m, ptr, end) == ptr
  {
  }

  // The items that start before end, if the first starts at ptr.
  function StartBefore(items: seq<Item>, ptr: nat, end: nat): seq<Item> {
    if items == [] || ptr >= end then []
    else [items[0]] + StartBefore(items[1..], ptr + 2 + |items[0].data|, end)
  }

  // Read up to any length no greater than the packet, the items written come
  // back as far as they start before it.
  lemma {:induction false} ItemsReadBack(front: seq<u8>, items: seq<Item>, end: nat)
    requires Fits(items) && end <= |front| + |ItemsBytes(items)|
    ensures var m := front + ItemsBytes(items);
            && ItemsInside(m, |front|, end)
            && ParseItems(m, |front|, end) == StartBefore(items, |front|, end)
            && (end == |m| ==> Stop(m, |front|, end) == |m|)
    decreases |items|
  {
    hide ItemBytes, ItemsInside, ParseItems, Stop;
    if items == [] || end <= |front| {
      NoItem(front + ItemsBytes(items), |front|, end);
    } else {
      var item := items[0];
      ItemLength(item);
      Rejoin(front, ItemBytes(item), ItemsBytes(items[1..]));
      ItemsReadBack(front + ItemBytes(item), items[1..], end);
      ItemStep(front, item, ItemsBytes(items[1..]), end);
    }
  }

  lemma ItemStep(front: seq<u8>, item: Item, rest: seq<u8>, end: nat)
    requires |item.data| < 0x100 && |front| < end
    requires ItemsInside(front + ItemBytes(item) + rest, |front| + 2 + |item.data|, end)
    ensures var m, next := front + ItemBytes(item) + rest, |front| + 2 + |item.data|;
            && ItemsInside(m, |front|, end)
            && ParseItems(m, |front|, end) == [item] + ParseItems(m, next, end)
            && Stop(m, |front|, end) == Stop(m, next, end)
  {
    hide ItemBytes, ItemsInside, ParseItems, Stop;
    var m := front + ItemBytes(item) + rest;
    ItemLength(item);
    ItemReadsBack(front, item, rest);
    ItemInside(m, |front|, end);
    ItemAt(m, |front|, end);
  }

  lemma Rejoin(a: seq<u8>, b: seq<u8>, c: seq<u8>)
    ensures a + (b + c) == (a + b) + c
  {
  }

  lemma ItemReadsBack(front: seq<u8>, item: Item, back: seq<u8>)
    requires |item.data| < 0x100
    ensures var m, ptr := front + ItemBytes(item) + back, |front|;
            && m[ptr] == item.kind && m[ptr + 1] == |item.data|
            && m[ptr + 2..ptr + 2 + |item.data|] == item.data
  {
  }

  lemma {:induction false} AllStart(items: seq<Item>, ptr: nat)
    requires Fits(items)
    ensures StartBefore(items, ptr, ptr + |ItemsBytes(items)|) == items
    decreases |items|
  {
    hide ItemBytes;
    if items != [] {
      ItemLength(items[0]);
      AllStart(items[1..], ptr + 2 + |items[0].data|);
    }
  }

  lemma ItemLength(item: Item)
    requires |item.data| < 0x100
    ensures |ItemBytes(item)| == 2 + |item.data|
  {
  }

  lemma {:induction false} LastLeftOut(items: seq<Item>, ptr: nat, end: nat)
    requires Fits(items) && items != [] && end + 0x101 < ptr + |ItemsBytes(items)|
    ensures |StartBefore(items, ptr, end)| < |items|
    decreases |items|
  {
    hide ItemBytes;
    if ptr < end {
      ItemLength(items[0]);
      if |items| > 1 {
        LastLeftOut(items[1..], ptr + 2 + |items[0].data|, end);
      } else {
        assert items[1..] == [];
      }
    }
  }

  // The length field of the packet.
  function LengthField(m: seq<u8>): u16
    requires |m| >= 4
  {
    Word16(m[2..4])
  }

  // What the handlers make of a packet: it must be admitted first.
  function Read(m: seq<u8>): Option<seq<Item>>
    requires |m| >= 8 && ItemsInside(m, 8, LengthField(m))
  {
    if !Admissible(m) || m[1] != SDES then None else Some(ParseItems(m, 8, LengthField(m)))
  }

  // SDES inverse, exactly: for any items and any number of receivers, the
  // reader gets all of the items back if and only if the packet is at most
  // 65535 bytes long and the receiver count, written unmasked, leaves the
  // padding bit and the version alone; it then stops at the packet's end.
  lemma SdesExactly(count: nat, ssrc: u32, items: seq<Item>)
    requires Fits(items) && items != []
    ensures var m := SdesBytes(count, ssrc, items);
            && |m| >= 8 && ItemsInside(m, 8, LengthField(m))
            && (Read(m) == Some(items) <==> |m| <= 0xffff && count % 128 < 32)
            && (|m| <= 0xffff ==> Stop(m, 8, LengthField(m)) == |m|)
  {
    hide Head, Admissible, ItemsInside, ParseItems, Stop, StartBefore, Word16, Field32, ItemsBytes;
    var body := ItemsBytes(items);
    var size := 8 + |body|;
    var front := Head(SDES, count, size, ssrc, []);
    var m := SdesBytes(count, ssrc, items);
    HeadLength(SDES, count, size, ssrc, []);
    assert m == front + body && |m| == size;
    hide SdesBytes;
    HeadReadsBack(SDES, count, size, ssrc, [], body);
    var end := LengthField(m);
    ItemsReadBack(front, items, end);
    AllStart(items, 8);
    if size > 0xffff {
      LastLeftOut(items, 8, end);
    }
  }

  // A short packet that is refused: thirty-two receivers set the padding bit.
  lemma RefusedAtThirtyTwo(ssrc: u32)
    ensures var m := SdesBytes(32, ssrc, [Item(2, [65])]);
            && m == [128 + 32, 202, 0, 11] + Be32(ssrc) + [2, 1, 65]
            && |m| == 11 && ItemsInside(m, 8, LengthField(m)) && Read(m) == None
  {
    hide Head, Read, ItemsInside;
    var items := [Item(2, [65])];
    assert items[1..] == [] && ItemsBytes(items) == ItemBytes(items[0]) + [];
    HeadLength(SDES, 32, 11, ssrc, []);
    SdesExactly(32, ssrc, items);
    assert |SdesBytes(32, ssrc, items)| == 11;
    RefusedUnadmitted(32, ssrc, items);
    HeadOfThirtyTwo(ssrc);
  }

  lemma HeadOfThirtyTwo(ssrc: u32)
    ensures Head(SDES, 32, 11, ssrc, []) == [128 + 32, 202, 0, 11] + Be32(ssrc)
  {
    hide Or, Be32, Be16;
    HeadByte(32);
    Eleven();
    assert Head(SDES, 32, 11, ssrc, []) == [128 + 32, SDES] + [0, 11] + Be32(ssrc) + [];
  }

  lemma Eleven()
    ensures Be16(11) == [0, 11]
  {
  }

  lemma RefusedUnadmitted(count: nat, ssrc: u32, items: seq<Item>)
    requires Fits(items) && items != [] && count % 128 >= 32
    ensures var m := SdesBytes(count, ssrc, items);
            |m| >= 8 && ItemsInside(m, 8, LengthField(m)) && Read(m) == None
  {
    hide Head, Admissible, ItemsInside, ParseItems, Word16, Field32;
    var body := ItemsBytes(items);
    HeadLength(SDES, count, 8 + |body|, ssrc, []);
    HeadReadsBack(SDES, count, 8 + |body|, ssrc, [], body);
    SdesExactly(count, ssrc, items);
  }

  // ----- as implemented -----

  lemma NextItem(items: seq<Item>, i: nat, done: seq<u8>)
    requires Fits(items) && i < |items|
    ensures done + ItemsBytes(items[i..]) == (done + ItemBytes(items[i])) + ItemsBytes(items[i + 1..])
    ensures |ItemsBytes(items[i..])| == 2 + |items[i].data| + |ItemsBytes(items[i + 1..])|
  {
    hide ItemBytes;
    ItemLength(items[i]);
    assert items[i..][0] == items[i] && items[i..][1..] == items[i + 1..];
    assert done + (ItemBytes(items[i]) + ItemsBytes(items[i + 1..])) == (done + ItemBytes(items[i])) + ItemsBytes(items[i + 1..]);
  }

  method FrameSize(items: seq<Item>) returns (size: nat)
    requires Fits(items)
    ensures size == 8 + |ItemsBytes(items)|
  {
    hide ItemsBytes;
    size := 8;
    assert items[0..] == items;
    for i := 0 to |items|
      invariant size + |ItemsBytes(items[i..])| == 8 + |ItemsBytes(items)|
    {
      NextItem(items, i, []);
      size := size + 2 + |items[i].data|;
    }
    NoItems(items);
  }

  lemma NoItems(items: seq<Item>)
    ensures ItemsBytes(items[|items|..]) == []
  {
  }

  method WriteItem(frame: array<u8>, at: nat, item: Item) returns (ptr: nat)
    requires |item.data| < 0x100 && at + 2 + |item.data| <= frame.Length
    modifies frame
    ensures ptr == at + 2 + |item.data|
    ensures frame[..ptr] == old(frame[..at]) + ItemBytes(item)
  {
    ptr := at;
    frame[ptr] := item.kind;
    ptr := ptr + 1;
    frame[ptr] := |item.data|;
    ptr := ptr + 1;
    assert frame[..ptr] == old(frame[..at]) + [item.kind, |item.data|];
    CopyInto(frame, ptr, item.data);
    ptr := ptr + |item.data|;
  }

  method WriteSdes(count: nat, ssrc: u32, items: seq<Item>) returns (code: Code, frame: array<u8>)
    requires Fits(items)
    ensures fresh(frame)
    ensures items == [] ==> code == InvalidValue
    ensures items != [] ==> code == Ok && frame[..] == SdesBytes(count, ssrc, items)
  {
    hide ItemBytes, ItemsBytes, Head;
    if items == [] {
      frame := new u8[0];
      return InvalidValue, frame;
    }
    var size := FrameSize(items);
    frame := new u8[size](_ => 0);
    var head := Head(SDES, count, size, ssrc, []);
    HeadLength(SDES, count, size, ssrc, []);
    CopyInto(frame, 0, head);
    var ptr := 8;
    ghost var done := head;
    assert items[0..] == items;
    for i := 0 to |items|
      invariant ptr == |done| && ptr + |ItemsBytes(items[i..])| == size && frame[..ptr] == done
      invariant done + ItemsBytes(items[i..]) == SdesBytes(count, ssrc, items)
    {
      NextItem(items, i, done);
      ItemLength(items[i]);
      ptr := WriteItem(frame, ptr, items[i]);
      done := done + ItemBytes(items[i]);
    }
    NoItems(items);
    assert frame[..] == frame[..ptr];
    code := Ok;
  }

  method ReadItems(m: seq<u8>, length: nat) returns (items: seq<Item>)
    requires ItemsInside(m, 8, length)
    ensures items == ParseItems(m, 8, length)
  {
    hide ItemsInside, ParseItems;
    var ptr := 8;
    items := [];
    while ptr < length
      invariant ItemsInside(m, ptr, length) && items + ParseItems(m, ptr, length) == ParseItems(m, 8, length)
      decreases |m| - ptr
    {
      ItemAt(m, ptr, length);
      var size: nat := m[ptr + 1];
      var item := Item(m[ptr], m[ptr + 2..ptr + 2 + size]);
      Regroup(items, item, ParseItems(m, ptr + 2 + size, length));
      items := items + [item];
      ptr := ptr + 2 + size;
    }
    NoItem(m, ptr, length);
  }

  // handle_incoming_packet and handle_sdes_packet, for a packet that holds
  // its items.
  method HandleSdes(m: seq<u8>) returns (code: Code, items: Option<seq<Item>>)
    requires |m| >= 8 && ItemsInside(m, 8, LengthField(m))
    ensures items == Read(m) && code == if Read(m).Some? then Ok else InvalidValue
  {
    hide ItemsInside, ParseItems, Word16;
    if !Admissible(m) || m[1] != SDES {
      return InvalidValue, None;
    }
    var read := ReadItems(m, LengthField(m));
    return Ok, Some(read);
  }

  lemma Regroup(items: seq<Item>, item: Item, rest: seq<Item>)
    ensures items + ([item] + rest) == (items + [item]) + rest
  {
  }
}
