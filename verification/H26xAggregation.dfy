// Aggregation packets: what the packetiser builds, the handler takes apart.
module H26xAggregation {
  import opened Common
  import opened FrameQueue
  import opened H26xReceiver
  import opened H26xSender

  function ApPayload(c: Codec, nalus: seq<seq<u8>>): seq<u8>
    requires forall i :: 0 <= i < |nalus| ==> 3 < |nalus[i]| < 0x1_0000
  {
    Concat([ApHeader(c, nalus)] + ApBuffers(nalus))
  }

  // However the packet queued for several units is kept, the socket reads this
  // payload.
  lemma AggregatedRead(c: Codec, nalus: seq<seq<u8>>, copies: bool, h: MediaHeaders, now: MediaHeaders)
    requires nalus != [] && Aggregatable(nalus)
    ensures Joined(now, Kept(copies, h, Aggregated(c, nalus)[0])) == ApPayload(c, nalus)
  {
    hide ApHeader, ApBuffers, AsBuffers, Joined;
    var parts := [ApHeader(c, nalus)] + ApBuffers(nalus);
    AsBuffersRead(h, parts);
    AsBuffersRead(now, parts);
    JoinedOne(now, Bytes(Joined(h, AsBuffers(parts))));
  }

  lemma {:induction false} ApBuffersFirst(nalus: seq<seq<u8>>)
    requires nalus != [] && Aggregatable(nalus)
    ensures ApBuffers(nalus) == [Be16(|nalus[0]|), nalus[0]] + ApBuffers(nalus[1..])
    decreases |nalus|
  {
    if |nalus| > 1 {
      var init := nalus[..|nalus| - 1];
      ApBuffersFirst(init);
      assert nalus[1..][..|nalus| - 2] == init[1..];
    }
  }

  lemma UnitsFirst(nalus: seq<seq<u8>>)
    requires nalus != [] && Aggregatable(nalus)
    ensures Concat(ApBuffers(nalus)) == Be16(|nalus[0]|) + nalus[0] + Concat(ApBuffers(nalus[1..]))
  {
    var size, unit, rest := Be16(|nalus[0]|), nalus[0], ApBuffers(nalus[1..]);
    ApBuffersFirst(nalus);
    ConcatAppend([size, unit], rest);
    assert [size, unit][1..] == [unit] && Concat([unit]) == unit + Concat([]) == unit;
  }

  lemma {:induction false} SplitUnitsOf(p: seq<u8>, i: nat, nalus: seq<seq<u8>>)
    requires Aggregatable(nalus) && i <= |p| && p[i..] == Concat(ApBuffers(nalus))
    ensures WellFormedAp(p, i) && SplitAp(p, i) == nalus
    decreases |nalus|
  {
    hide Word16, Be16;
    if nalus != [] {
      hide ApBuffers;
      var n := |nalus[0]|;
      UnitsFirst(nalus);
      UnitAt(p, i, nalus[0], Concat(ApBuffers(nalus[1..])));
      SplitUnitsOf(p, i + 2 + n, nalus[1..]);
      assert nalus == [nalus[0]] + nalus[1..];
    }
  }

  lemma UnitAt(p: seq<u8>, i: nat, unit: seq<u8>, rest: seq<u8>)
    requires i <= |p| && |unit| < 0x1_0000 && p[i..] == Be16(|unit|) + unit + rest
    ensures i + 2 + |unit| <= |p| && Word16(p[i..i + 2]) == |unit|
    ensures p[i + 2..i + 2 + |unit|] == unit && p[i + 2 + |unit|..] == rest
  {
    var n := |unit|;
    Word16RoundTrip(n);
    assert p[i..i + 2] == p[i..][..2] == Be16(n);
    assert p[i + 2..i + 2 + n] == p[i..][2..2 + n] == unit;
    assert p[i + 2 + n..] == p[i..][2 + n..] == rest;
  }

  // The bytes of an aggregation packet, after RFC 6184 section 5.7.1 and RFC
  // 7798 section 4.4.2: the packet type, 24 or 48, then each unit behind its
  // length, high byte first.
  lemma ApLayout(c: Codec, nalus: seq<seq<u8>>)
    requires nalus != [] && Aggregatable(nalus)
    ensures var p, at, n := ApPayload(c, nalus), if c.H264? then 1 else 2, |nalus[0]|;
            && |p| >= at + 2 + n
            && (c.H264? ==> p[0] % 32 == 24 && p[0] < 128) && (c.H265? ==> p[0] == 48 * 2 && p[1] == 1)
            && p[at] as int == n / 0x100 && p[at + 1] as int == n % 0x100 && p[at + 2..at + 2 + n] == nalus[0]
            && p[at + 2 + n..] == Concat(ApBuffers(nalus[1..]))
  {
    hide ApBuffers, MaxNri;
    var h, p, n := ApHeader(c, nalus), ApPayload(c, nalus), |nalus[0]|;
    assert ([h] + ApBuffers(nalus))[1..] == ApBuffers(nalus);
    UnitsFirst(nalus);
    var rest := Concat(ApBuffers(nalus[1..]));
    assert p == h + [n / 0x100, n % 0x100] + nalus[0] + rest;
  }

  // Splitting the packet built from two or more queued units adds exactly
  // those units, in order, to the queue.
  lemma AggregationRoundTrip(c: Codec, fl: Flags, st: State, nalus: seq<seq<u8>>, header: Header, late: bool)
    requires |nalus| >= 2 && Aggregatable(nalus)
    ensures var f := Frame(header, ApPayload(c, nalus));
            && Readable(c, f)
            && Step(c, fl, st, f, late) == (st.(queued := st.queued + nalus), Queued)
  {
    hide ApBuffers, MaxNri;
    var h, p := ApHeader(c, nalus), ApPayload(c, nalus);
    assert ([h] + ApBuffers(nalus))[1..] == ApBuffers(nalus);
    assert p == h + Concat(ApBuffers(nalus)) && p[|h|..] == Concat(ApBuffers(nalus));
    UnitsFirst(nalus);
    SplitUnitsOf(p, |h|, nalus);
    ApType(c, nalus, p);
  }

  lemma ApType(c: Codec, nalus: seq<seq<u8>>, p: seq<u8>)
    requires Aggregatable(nalus) && ApHeader(c, nalus) <= p && |p| >= HeaderSize(c)
    ensures GetFrag(c, p) == Aggregation && |ApHeader(c, nalus)| == NalSize(c)
  {
    assert p[0] == ApHeader(c, nalus)[0];
  }

  // The H.264 header carries the highest NRI among the units: none exceeds it
  // and one attains it.
  lemma {:induction false} ApHeaderNri(nalus: seq<seq<u8>>)
    requires nalus != [] && Aggregatable(nalus)
    ensures var nri := ApHeader(H264, nalus)[0] / 32;
            && (forall i :: 0 <= i < |nalus| ==> nalus[i][0] / 32 % 4 <= nri)
            && (exists i :: 0 <= i < |nalus| && nalus[i][0] / 32 % 4 == nri)
    decreases |nalus|
  {
    var init, last := nalus[..|nalus| - 1], nalus[|nalus| - 1];
    if init != [] {
      ApHeaderNri(init);
      if MaxNri(nalus) == MaxNri(init) {
        var i :| 0 <= i < |init| && init[i][0] / 32 % 4 == MaxNri(init);
        assert nalus[i] == init[i];
      }
      forall i | 0 <= i < |nalus| ensures nalus[i][0] / 32 % 4 <= MaxNri(nalus) {
        if i < |init| {
          assert nalus[i] == init[i] && nalus[i][0] / 32 % 4 <= MaxNri(init);
        }
      }
    }
    assert MaxNri(nalus) == nalus[|nalus| - 1][0] / 32 % 4 || MaxNri(nalus) == MaxNri(init);
  }
}
