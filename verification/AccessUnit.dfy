// The access-unit splitter: an encoder's buffer is cut at its start codes and
// every NAL unit between two codes is handed to the packetiser.
module AccessUnit {
  import opened StartCode
  import opened StartCodeSearch

  // A start code found: where it ends and how long it is reported to be.
  datatype Cut = Cut(end: nat, startLen: nat)

  // A stretch of the buffer given to push_nal_unit.
  datatype Slice = Slice(from: nat, size: nat)

  lemma CutBounds(b: seq<bv8>, len: nat, offset: nat)
    requires len <= |b| && offset <= |b|
    ensures match Scan(b, len, offset, NO_PREV, false)
            case NotFound => true
            case Found(end, startLen) => 3 <= startLen <= 4 && offset + startLen <= end && end + 5 <= len
  {
    hide Scan, WordOf;
    ScanFinds(b, len, offset);
    var found := Scan(b, len, offset, NO_PREV, false);
    if found.Found? {
      LastWord(len, offset, found.offset);
      if found.offset == offset + 3 {
        WordOfInside(offset, 0, found.offset);
      }
    }
  }

  // The codes found when each search starts where the last one ended.
  function Cuts(b: seq<bv8>, len: nat, offset: nat): seq<Cut>
    requires len <= |b| && offset <= |b|
    decreases len - offset
  {
    CutBounds(b, len, offset);
    match Scan(b, len, offset, NO_PREV, false)
    case NotFound => []
    case Found(end, startLen) => [Cut(end, startLen)] + Cuts(b, len, end)
  }

  // The slices between prev and the end of the buffer.
  function SlicesFrom(prev: nat, cuts: seq<Cut>, len: nat): seq<Slice>
    requires Tiled(prev, cuts, len)
    decreases |cuts|
  {
    if cuts == [] then [Slice(prev, len - prev)]
    else [Slice(prev, cuts[0].end - prev - cuts[0].startLen)] + SlicesFrom(cuts[0].end, cuts[1..], len)
  }

  // No slice has a negative length, and every cut moves forward.
  predicate Tiled(prev: nat, cuts: seq<Cut>, len: nat)
    decreases |cuts|
  {
    if cuts == [] then prev <= len
    else 3 <= cuts[0].startLen && prev + cuts[0].startLen <= cuts[0].end && Tiled(cuts[0].end, cuts[1..], len)
  }

  lemma {:induction false} CutsTiled(b: seq<bv8>, len: nat, offset: nat)
    requires offset <= len <= |b|
    ensures Tiled(offset, Cuts(b, len, offset), len)
    decreases len - offset
  {
    hide Scan;
    CutBounds(b, len, offset);
    match Scan(b, len, offset, NO_PREV, false)
    case NotFound =>
    case Found(end, startLen) =>
      CutsTiled(b, len, end);
      assert Cuts(b, len, offset)[1..] == Cuts(b, len, end);
  }

  // What a buffer is split into: everything after the first code, or the whole
  // buffer if it holds none.
  function Slices(b: seq<bv8>, len: nat): seq<Slice>
    requires len <= |b|
  {
    var cuts := Cuts(b, len, 0);
    CutsTiled(b, len, 0);
    if cuts == [] then [Slice(0, len)] else SlicesFrom(cuts[0].end, cuts[1..], len)
  }

  // ----- what the slices are -----

  function SumSizes(slices: seq<Slice>): nat {
    if slices == [] then 0 else slices[0].size + SumSizes(slices[1..])
  }

  function SumCodes(cuts: seq<Cut>): nat {
    if cuts == [] then 0 else cuts[0].startLen + SumCodes(cuts[1..])
  }

  // The slices with the codes put back between them.
  function Glue(data: seq<bv8>, slices: seq<Slice>, cuts: seq<Cut>): seq<bv8>
    requires |slices| == |cuts| + 1
    requires forall s <- slices :: s.from + s.size <= |data|
    requires forall c <- cuts :: c.startLen <= c.end <= |data|
  {
    var head := data[slices[0].from..slices[0].from + slices[0].size];
    if cuts == [] then head
    else head + data[cuts[0].end - cuts[0].startLen..cuts[0].end] + Glue(data, slices[1..], cuts[1..])
  }

  predicate Ascending(from: nat, slices: seq<Slice>, len: nat)
    decreases |slices|
  {
    if slices == [] then from == len
    else from <= slices[0].from && slices[0].from + slices[0].size <= len
         && Ascending(slices[0].from + slices[0].size, slices[1..], len)
  }

  // Slices ascend without overlap up to the end of the buffer, and what lies
  // between them are the codes.
  lemma {:induction false} SlicesTile(prev: nat, cuts: seq<Cut>, len: nat)
    requires Tiled(prev, cuts, len)
    ensures var slices := SlicesFrom(prev, cuts, len);
            && |slices| == |cuts| + 1
            && Ascending(prev, slices, len)
            && prev + SumSizes(slices) + SumCodes(cuts) == len
    decreases |cuts|
  {
    if cuts != [] {
      SlicesTile(cuts[0].end, cuts[1..], len);
      assert SlicesFrom(prev, cuts, len)[1..] == SlicesFrom(cuts[0].end, cuts[1..], len);
      AscendingFrom(prev + SlicesFrom(prev, cuts, len)[0].size, cuts[0].end, SlicesFrom(cuts[0].end, cuts[1..], len), len);
    }
  }

  lemma AscendingFrom(lower: nat, from: nat, slices: seq<Slice>, len: nat)
    requires lower <= from && slices != [] && Ascending(from, slices, len)
    ensures Ascending(lower, slices, len)
  {
  }

  lemma {:induction false} InBounds(prev: nat, cuts: seq<Cut>, len: nat)
    requires Tiled(prev, cuts, len)
    ensures prev <= len && |SlicesFrom(prev, cuts, len)| == |cuts| + 1
    ensures forall s <- SlicesFrom(prev, cuts, len) :: s.from + s.size <= len
    ensures forall c <- cuts :: c.startLen <= c.end <= len
    decreases |cuts|
  {
    if cuts != [] {
      InBounds(cuts[0].end, cuts[1..], len);
      var rest := SlicesFrom(cuts[0].end, cuts[1..], len);
      assert forall s <- SlicesFrom(prev, cuts, len) :: s == SlicesFrom(prev, cuts, len)[0] || s in rest;
      assert forall c <- cuts :: c == cuts[0] || c in cuts[1..];
    }
  }

  lemma Rejoin(data: seq<bv8>, a: nat, b: nat, c: nat, d: nat)
    requires a <= b <= c <= d <= |data|
    ensures data[a..b] + data[b..c] + data[c..d] == data[a..d]
  {
  }

  lemma GlueNext(data: seq<bv8>, slices: seq<Slice>, cuts: seq<Cut>)
    requires |slices| == |cuts| + 1 >= 2
    requires forall s <- slices :: s.from + s.size <= |data|
    requires forall c <- cuts :: c.startLen <= c.end <= |data|
    ensures Glue(data, slices, cuts) == data[slices[0].from..slices[0].from + slices[0].size]
                                        + data[cuts[0].end - cuts[0].startLen..cuts[0].end] + Glue(data, slices[1..], cuts[1..])
  {
  }

  // With the codes put back between them the slices are the buffer, byte for byte.
  lemma {:induction false} SlicesGlue(data: seq<bv8>, prev: nat, cuts: seq<Cut>, len: nat)
    requires len <= |data| && Tiled(prev, cuts, len)
    ensures |SlicesFrom(prev, cuts, len)| == |cuts| + 1 && prev <= len
    ensures forall s <- SlicesFrom(prev, cuts, len) :: s.from + s.size <= len
    ensures forall c <- cuts :: c.startLen <= c.end <= len
    ensures Glue(data, SlicesFrom(prev, cuts, len), cuts) == data[prev..len]
    decreases |cuts|
  {
    InBounds(prev, cuts, len);
    var slices := SlicesFrom(prev, cuts, len);
    if cuts != [] {
      hide Glue;
      SlicesGlue(data, cuts[0].end, cuts[1..], len);
      assert slices[1..] == SlicesFrom(cuts[0].end, cuts[1..], len);
      GlueNext(data, slices, cuts);
      var mid := cuts[0].end - cuts[0].startLen;
      assert slices[0] == Slice(prev, mid - prev);
      Rejoin(data, prev, mid, cuts[0].end, len);
    }
  }

  // The whole buffer: the bytes up to the first code, the slices and the codes
  // between them are the buffer in order, and their lengths add up.
  lemma SplitConserves(data: seq<bv8>, len: nat)
    requires 8 <= len <= |data|
    ensures var b := Guarded(data, len);
            var cuts, slices := Cuts(b, len, 0), Slices(b, len);
            var between := if cuts == [] then [] else cuts[1..];
            && slices[0].from == (if cuts == [] then 0 else cuts[0].end)
            && Ascending(slices[0].from, slices, len)
            && slices[0].from + SumSizes(slices) + SumCodes(between) == len
            && |slices| == |between| + 1
            && (forall s <- slices :: s.from + s.size <= len)
            && (forall c <- between :: c.startLen <= c.end <= len)
            && data[..len] == data[..slices[0].from] + Glue(data, slices, between)
  {
    hide Scan, Cuts, Glue;
    var b := Guarded(data, len);
    CutsTiled(b, len, 0);
    var cuts := Cuts(b, len, 0);
    if cuts == [] {
      assert Tiled(0, [], len) && Slices(b, len) == SlicesFrom(0, [], len);
      SlicesTile(0, [], len);
      SlicesGlue(data, 0, [], len);
    } else {
      SlicesTile(cuts[0].end, cuts[1..], len);
      SlicesGlue(data, cuts[0].end, cuts[1..], len);
    }
  }

  // ----- lost bytes -----

  lemma FoundIsFirst(b: seq<bv8>, len: nat, offset: nat)
    requires len <= |b| && offset <= |b|
    ensures var found := Scan(b, len, offset, NO_PREV, false); found.Found? ==> FirstCode(b, len, offset, found.offset)
  {
    hide Scan, WordOf;
    ScanFinds(b, len, offset);
  }

  // Where the search that found the i-th code began.
  function SearchedFrom(prev: nat, cuts: seq<Cut>, i: nat): nat
    requires i < |cuts|
  {
    if i == 0 then prev else cuts[i - 1].end
  }

  // Between two codes lies a unit; its slice is the whole unit, except that it
  // lacks the unit's last byte exactly if the code after it is a three-byte
  // code that ends its word. The last slice is whole.
  ghost predicate WholeButOverlong(b: seq<bv8>, prev: nat, cuts: seq<Cut>, slices: seq<Slice>, i: nat)
    requires i < |cuts| && |slices| == |cuts| + 1
  {
    var p, end := SearchedFrom(prev, cuts, i), cuts[i].end;
    && CodeEndsAt(b, p, end)
    && var unit := end - TrueLength(b, p, end) - p;
       slices[i].from == p && slices[i].size == unit - if EndsItsWord(b, p, end) then 1 else 0
  }

  lemma {:induction false} SlicesLoseExactly(b: seq<bv8>, len: nat, offset: nat)
    requires offset <= len <= |b|
    ensures Tiled(offset, Cuts(b, len, offset), len)
    ensures var cuts := Cuts(b, len, offset);
            var slices := SlicesFrom(offset, cuts, len);
            && |slices| == |cuts| + 1
            && forall i :: 0 <= i < |cuts| ==> WholeButOverlong(b, offset, cuts, slices, i)
    decreases len - offset
  {
    hide Scan, FirstCode, Recognised, WordOf, CodeEndsAt, TrueLength, EndsItsWord;
    CutsTiled(b, len, offset);
    CutBounds(b, len, offset);
    var cuts := Cuts(b, len, offset);
    var slices := SlicesFrom(offset, cuts, len);
    if cuts != [] {
      var end := cuts[0].end;
      FoundIsFirst(b, len, offset);
      CodeOfFirst(b, len, offset, end);
      LengthExactly(b, len, offset, end);
      SlicesLoseExactly(b, len, end);
      var rest := Cuts(b, len, end);
      var tail := SlicesFrom(end, rest, len);
      assert cuts[1..] == rest && slices[1..] == tail;
      assert WholeButOverlong(b, offset, cuts, slices, 0);
      forall i | 0 < i < |cuts|
        ensures WholeButOverlong(b, offset, cuts, slices, i)
      {
        assert WholeButOverlong(b, end, rest, tail, i - 1);
        assert cuts[i] == rest[i - 1] && slices[i] == tail[i - 1];
        assert SearchedFrom(offset, cuts, i) == SearchedFrom(end, rest, i - 1);
      }
    }
  }

  lemma CodeOfFirst(b: seq<bv8>, len: nat, offset: nat, end: nat)
    requires len <= |b| && FirstCode(b, len, offset, end)
    ensures CodeEndsAt(b, offset, end)
  {
    hide WordOf;
  }

  // Two codes with a unit of one byte between them: nothing of it is pushed.
  function LostByteProbe(): (b: seq<bv8>)
    ensures |b| == 16
  {
    [0, 0, 1, 5, 0, 0, 1, 0xff, 0xff, 0xff, 0xff, 0xff, 0xff, 0xff, 0xff, 0xff]
  }

  // A code of one word, no more than one byte past the earliest place.
  lemma EarlyCode(b: seq<bv8>, len: nat, offset: nat, end: nat)
    requires len <= |b| && offset + 3 <= end <= offset + 4 && offset + 8 < len && CodeEndsAt(b, offset, end)
    requires end == offset + 4 ==> !CodeEndsAt(b, offset, end - 1)
    ensures FirstCode(b, len, offset, end)
  {
    hide WordOf, CodeEndsAt;
    WordOfInside(offset, 0, end);
    assert Recognised(b, len, offset, end);
    forall e | Recognised(b, len, offset, e)
      ensures end <= e
    {
      NotBefore(b, offset, e);
    }
  }

  lemma NotBefore(b: seq<bv8>, offset: nat, end: nat)
    requires CodeEndsAt(b, offset, end)
    ensures offset + 3 <= end
  {
  }

  lemma ProbeBytes()
    ensures |LostByteProbe()| == 16 && LostByteProbe()[3..7] == [5, 0, 0, 1]
    ensures CodeEndsAt(LostByteProbe(), 0, 3)
    ensures CodeEndsAt(LostByteProbe(), 3, 7) && !CodeEndsAt(LostByteProbe(), 3, 6)
    ensures TrueLength(LostByteProbe(), 0, 3) == 3 && LostByteProbe()[3] == 5
  {
  }

  lemma ProbeCodes()
    ensures |LostByteProbe()| == 16
    ensures Scan(LostByteProbe(), 16, 0, NO_PREV, false) == Found(3, 3)
    ensures Scan(LostByteProbe(), 16, 3, NO_PREV, false) == Found(7, 4)
  {
    hide Scan, LostByteProbe, CodeEndsAt, FirstCode;
    var b := LostByteProbe();
    ProbeBytes();
    EarlyCode(b, 16, 0, 3);
    EarlyCode(b, 16, 3, 7);
    LengthExactly(b, 16, 0, 3);
    LengthExactly(b, 16, 3, 7);
  }

  lemma UnitLost()
    ensures |LostByteProbe()| == 16 && LostByteProbe()[3..7] == [5, 0, 0, 1]
    ensures Slices(LostByteProbe(), 16)[0] == Slice(3, 0)
  {
    hide Scan, Tiled, LostByteProbe;
    ProbeBytes();
    ProbeCodes();
    var b := LostByteProbe();
    CutsTiled(b, 16, 0);
    CutsTiled(b, 16, 3);
    assert Cuts(b, 16, 0) == [Cut(3, 3)] + Cuts(b, 16, 3);
    assert Cuts(b, 16, 3) == [Cut(7, 4)] + Cuts(b, 16, 7);
    assert Cuts(b, 16, 0)[1..] == Cuts(b, 16, 3);
  }

  // ----- the splitter as implemented -----

  datatype Push = Push(slice: Slice, more: bool)

  function Pushes(slices: seq<Slice>): seq<Push>
    requires slices != []
  {
    seq(|slices|, i requires 0 <= i < |slices| => Push(slices[i], i + 1 < |slices|))
  }

  lemma PushesCons(first: Slice, rest: seq<Slice>)
    requires rest != []
    ensures Pushes([first] + rest) == [Push(first, true)] + Pushes(rest)
  {
  }

  lemma PushesLast(last: Slice)
    ensures Pushes([last]) == [Push(last, false)]
  {
  }

  // The pushes for a whole buffer.
  function AllPushes(b: seq<bv8>, len: nat): seq<Push>
    requires len <= |b|
  {
    Pushes(Slices(b, len))
  }

  // The pushes still to come when the next search starts at offset, where the
  // last one ended.
  function Remaining(b: seq<bv8>, len: nat, offset: nat): seq<Push>
    requires offset <= len <= |b|
  {
    CutsTiled(b, len, offset);
    Pushes(SlicesFrom(offset, Cuts(b, len, offset), len))
  }

  lemma RemainingStep(b: seq<bv8>, len: nat, offset: nat)
    requires offset <= len <= |b|
    ensures var found := Scan(b, len, offset, NO_PREV, false);
            if found.NotFound? then Remaining(b, len, offset) == [Push(Slice(offset, len - offset), false)]
            else
              && offset + found.startLen <= found.offset <= len
              && Remaining(b, len, offset) ==
                 [Push(Slice(offset, found.offset - offset - found.startLen), true)] + Remaining(b, len, found.offset)
  {
    hide Scan, Pushes;
    CutsTiled(b, len, offset);
    CutBounds(b, len, offset);
    match Scan(b, len, offset, NO_PREV, false)
    case NotFound =>
      PushesLast(Slice(offset, len - offset));
    case Found(end, startLen) =>
      CutsTiled(b, len, end);
      assert Cuts(b, len, offset)[1..] == Cuts(b, len, end);
      PushesCons(Slice(offset, end - offset - startLen), SlicesFrom(end, Cuts(b, len, end), len));
  }

  lemma FirstPushes(b: seq<bv8>, len: nat)
    requires len <= |b|
    ensures var found := Scan(b, len, 0, NO_PREV, false);
            if found.NotFound? then AllPushes(b, len) == [Push(Slice(0, len), false)]
            else found.offset <= len && AllPushes(b, len) == Remaining(b, len, found.offset)
  {
    hide Scan, Pushes;
    CutsTiled(b, len, 0);
    CutBounds(b, len, 0);
    match Scan(b, len, 0, NO_PREV, false)
    case NotFound => PushesLast(Slice(0, len));
    case Found(end, startLen) => assert Cuts(b, len, 0)[1..] == Cuts(b, len, end);
  }

  // push_h26x_frame up to the first push that fails. takes says which pushes
  // the packetiser accepts (RTP_NOT_READY while more follow, RTP_OK at the end).
  method PushFrame(data: array<bv8>, len: nat, takes: Push -> bool) returns (ok: bool, pushes: seq<Push>)
    requires 8 <= len && len + 7 <= data.Length
    modifies data
    ensures data[..] == old(data[..])
    ensures pushes != [] && pushes <= AllPushes(Guarded(data[..], len), len)
    ensures forall i :: 0 <= i < |pushes| - 1 ==> takes(pushes[i])
    ensures ok <==> pushes == AllPushes(Guarded(data[..], len), len) && takes(pushes[|pushes| - 1])
  {
    hide Scan, AllPushes, Remaining;
    ghost var b := Guarded(data[..], len);
    ghost var all := AllPushes(b, len);
    pushes := [];
    FirstPushes(b, len);
    var offset, startLen := FindStartCode(data, len, 0, 0);
    var prevOffset := offset;
    while offset != -1
      invariant data[..] == old(data[..])
      invariant offset == -1 || offset == prevOffset
      invariant prevOffset == -1 ==> all == pushes + [Push(Slice(0, len), false)]
      invariant prevOffset != -1 ==> 0 <= prevOffset <= len
      invariant prevOffset != -1 && offset == -1 ==> all == pushes + [Push(Slice(prevOffset, len - prevOffset), false)]
      invariant offset != -1 ==> all == pushes + Remaining(b, len, offset)
      invariant forall i :: 0 <= i < |pushes| ==> takes(pushes[i])
      decreases if offset == -1 then 0 else 1 + len - offset
    {
      RemainingStep(b, len, offset);
      offset, startLen := FindStartCode(data, len, offset, startLen);
      if offset != -1 {
        var push := Push(Slice(prevOffset, offset - prevOffset - startLen), true);
        pushes := pushes + [push];
        if !takes(push) {
          return false, pushes;
        }
        prevOffset := offset;
      }
    }
    if prevOffset == -1 {
      prevOffset := 0;
    }
    var push := Push(Slice(prevOffset, len - prevOffset), false);
    pushes := pushes + [push];
    ok := takes(push);
  }
}
