// The generic packet handler as the receiver runs it: the frame table is
// updated in place and a complete frame is copied into one buffer.
module MediaHandler {
  import opened Common
  import opened MediaReceiver
  import H26xHandler

  // The table's entries never hold more payload bytes than were counted.
  ghost predicate Counted(st: Frames) {
    forall ts :: ts in st ==> Total(st[ts].fragments, st[ts].fragments.Keys) <= st[ts].size
  }

  lemma ListedNextSize(m: map<nat, Frame>, keys: set<nat>, done: seq<u8>, all: seq<u8>)
    requires keys <= m.Keys && keys != {} && done + Listed(m, keys) == all
    ensures var k := Least(keys);
            && (done + m[k].payload) + Listed(m, keys - {k}) == all
            && |done + m[k].payload| <= |all|
  {
    var k := Least(keys);
    assert done + (m[k].payload + Listed(m, keys - {k})) == (done + m[k].payload) + Listed(m, keys - {k});
  }

  // Copies the payloads to the head of buf, in ascending order of the keys.
  method CopyPayloads(m: map<nat, Frame>, buf: array<u8>)
    requires Total(m, m.Keys) <= buf.Length
    modifies buf
    ensures buf[..Total(m, m.Keys)] == Listed(m, m.Keys)
  {
    hide Least, IsLeast;
    var at := 0;
    var keys := m.Keys;
    ghost var done: seq<u8> := [];
    while keys != {}
      invariant keys <= m.Keys && at == |done|
      invariant done + Listed(m, keys) == Listed(m, m.Keys)
      invariant at <= buf.Length && buf[..at] == done
      decreases |keys|
    {
      var k := H26xHandler.LeastKey(keys);
      ListedNextSize(m, keys, done, Listed(m, m.Keys));
      var payload := m[k].payload;
      CopyInto(buf, at, payload);
      at, keys, done := at + |payload|, keys - {k}, done + payload;
    }
  }

  lemma AddedCounted(info: Info, f: Frame)
    requires Total(info.fragments, info.fragments.Keys) <= info.size
    ensures var next := Added(info, f); Total(next.fragments, next.fragments.Keys) <= next.size
  {
    hide Listed;
    var k: nat := f.header.seqNo;
    TotalInsert(info.fragments, info.fragments.Keys, k, f);
    assert info.fragments[k := f].Keys == info.fragments.Keys + {k};
  }

  class Handler {
    const generic: bool // RCE_FRAGMENT_GENERIC
    var frames: Frames

    constructor (generic: bool)
      ensures this.generic == generic && frames == map[]
    {
      this.generic := generic;
      frames := map[];
    }

    // media::packet_handler. A merged frame may be shorter than its buffer
    // only if a packet arrived twice.
    method PacketHandler(f: Frame) returns (code: Code, out: Option<Frame>)
      requires Counted(frames)
      modifies this`frames
      ensures Counted(frames)
      ensures !generic ==> code == PktReady && out == Some(f) && frames == old(frames)
      ensures generic ==>
                var (next, o) := Step(old(frames), f);
                && frames == next
                && match o
                   case Held => code == Ok && out == None
                   case Returned(frame) => code == PktReady && out == Some(frame)
                   case Merged(header, payload, size) =>
                     && code == PktReady && out.Some? && out.value.header == header
                     && |out.value.payload| == size && payload <= out.value.payload
    {
      hide Listed, Total, Complete;
      if !generic {
        return PktReady, Some(f);
      }
      var ts := f.header.timestamp;
      if ts in frames {
        var info := Added(frames[ts], f);
        AddedCounted(frames[ts], f);
        frames := frames[ts := info];
        if Complete(info) {
          var buf := new u8[info.size];
          SizeOf(info.fragments);
          CopyPayloads(info.fragments, buf);
          frames := frames - {ts};
          assert frames == old(frames) - {ts};
          assert buf[..|Listed(info.fragments, info.fragments.Keys)|] <= buf[..];
          return PktReady, Some(Frame(f.header, buf[..]));
        }
        return Ok, None;
      }
      if f.header.marker {
        FirstCounted(f);
        frames := frames[ts := Info(f.header.seqNo, None, 1, |f.payload|, map[f.header.seqNo as nat := f])];
        return Ok, None;
      }
      assert frames - {ts} == frames;
      return PktReady, Some(f);
    }
  }

}
