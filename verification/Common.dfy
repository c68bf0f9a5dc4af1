// Vocabulary shared by every component: machine integers, RTP headers and
// frames, handler return codes, and facts about finite sets and concatenation.
module Common {

  type u8 = x: int | 0 <= x < 0x100
  type u16 = x: int | 0 <= x < 0x1_0000
  type u32 = x: int | 0 <= x < 0x1_0000_0000

  datatype Option<+T> = None | Some(value: T)

  // The values of rtp_error_t that the modelled handlers return.
  datatype Code =
    | Ok
    | PktReady
    | MultiplePktsReady
    | PktModified
    | PktNotHandled
    | NotReady
    | NotFound
    | GenericError
    | InvalidValue
    | SendError

  // The header fields the modelled code reads or copies.
  datatype Header = Header(marker: bool, payloadType: u8, seqNo: u16, timestamp: u32, ssrc: u32)

  datatype Frame = Frame(header: Header, payload: seq<u8>)

  // ----- concatenation -----

  function Concat(parts: seq<seq<u8>>): seq<u8> {
    if parts == [] then [] else parts[0] + Concat(parts[1..])
  }

  lemma {:induction false} ConcatAppend(a: seq<seq<u8>>, b: seq<seq<u8>>)
    ensures Concat(a + b) == Concat(a) + Concat(b)
  {
    if a == [] {
      assert a + b == b;
    } else {
      assert (a + b)[1..] == a[1..] + b;
      ConcatAppend(a[1..], b);
    }
  }

  // ----- big-endian words (htons/htonl and back) -----

  function Be16(x: u16): seq<u8> {
    [x / 0x100, x % 0x100]
  }

  function Word16(b: seq<u8>): u16
    requires |b| == 2
  {
    var hi: int, lo: int := b[0], b[1];
    hi * 0x100 + lo
  }

  function Be32(x: u32): seq<u8> {
    [x / 0x100_0000, x / 0x1_0000 % 0x100, x / 0x100 % 0x100, x % 0x100]
  }

  function Word32(b: seq<u8>): u32
    requires |b| == 4
  {
    var b0: int, b1: int, b2: int, b3: int := b[0], b[1], b[2], b[3];
    b0 * 0x100_0000 + b1 * 0x1_0000 + b2 * 0x100 + b3
  }

  lemma Word16RoundTrip(x: u16)
    ensures Word16(Be16(x)) == x
  {
  }

  lemma Word32RoundTrip(x: u32)
    ensures Word32(Be32(x)) == x
  {
    var hi, lo := x / 0x1_0000, x % 0x1_0000;
    assert x / 0x100 % 0x100 == lo / 0x100 && x % 0x100 == lo % 0x100;
    assert x / 0x100_0000 == hi / 0x100 && x / 0x1_0000 % 0x100 == hi % 0x100;
  }

  // ----- finite sets of naturals -----

  ghost predicate IsLeast(k: nat, s: set<nat>) {
    k in s && forall j :: j in s ==> k <= j
  }

  lemma {:induction false} LeastExists(s: set<nat>)
    requires s != {}
    ensures exists k :: IsLeast(k, s)
    decreases |s|
  {
    var x :| x in s;
    var rest := s - {x};
    if rest == {} {
      assert s == {x};
      assert IsLeast(x, s);
    } else {
      LeastExists(rest);
      var m :| IsLeast(m, rest);
      assert s == rest + {x};
      assert IsLeast(if x < m then x else m, s);
    }
  }

  ghost function Least(s: set<nat>): (k: nat)
    requires s != {}
    ensures IsLeast(k, s) && forall j :: IsLeast(j, s) ==> j == k
  {
    LeastExists(s);
    var k :| IsLeast(k, s);
    k
  }

  // The naturals from lo up to, not including, hi.
  ghost function Range(lo: nat, hi: nat): (r: set<nat>)
    ensures forall k :: k in r <==> lo <= k < hi
    decreases hi - lo
  {
    if lo >= hi then {} else {lo} + Range(lo + 1, hi)
  }

  lemma {:induction false} RangeSize(lo: nat, hi: nat)
    requires lo <= hi
    ensures |Range(lo, hi)| == hi - lo
    decreases hi - lo
  {
    if lo < hi {
      RangeSize(lo + 1, hi);
      assert lo !in Range(lo + 1, hi);
    }
  }

  // ----- arrival orders -----

  ghost predicate Distinct(xs: seq<nat>) {
    forall i, j :: 0 <= i < j < |xs| ==> xs[i] != xs[j]
  }

  // Every index below n arrives exactly once.
  ghost predicate ArrivalOrder(xs: seq<nat>, n: nat) {
    |xs| == n && Distinct(xs) && forall i :: 0 <= i < |xs| ==> xs[i] < n
  }

  ghost function Elements(xs: seq<nat>): set<nat> {
    set x | x in xs
  }

  lemma {:induction false} DistinctSize(xs: seq<nat>)
    requires Distinct(xs)
    ensures |Elements(xs)| == |xs|
  {
    if xs != [] {
      var init := xs[..|xs| - 1];
      DistinctSize(init);
      assert xs == init + [xs[|xs| - 1]];
      assert Elements(xs) == Elements(init) + {xs[|xs| - 1]};
    }
  }

  lemma {:induction false} RepeatedSize(xs: seq<nat>)
    ensures |Elements(xs)| <= |xs|
    ensures !Distinct(xs) ==> |Elements(xs)| < |xs|
  {
    if xs != [] {
      var init, last := xs[..|xs| - 1], xs[|xs| - 1];
      RepeatedSize(init);
      assert xs == init + [last];
      if last in init {
        assert Elements(xs) == Elements(init);
      } else {
        assert Elements(xs) == Elements(init) + {last};
      }
    }
  }

  // Where something repeats, something is missing.
  lemma SomethingMissing(xs: seq<nat>, n: nat) returns (l: nat)
    requires |xs| == n && !Distinct(xs)
    ensures l < n && l !in xs
  {
    RepeatedSize(xs);
    RangeSize(0, n);
    LargerHasMore(Range(0, n), Elements(xs));
    l :| l in Range(0, n) && l !in Elements(xs);
  }

  lemma LargerHasMore(a: set<nat>, b: set<nat>)
    requires |b| < |a|
    ensures exists x :: x in a && x !in b
  {
    if a <= b {
      SubsetSize(a, b);
    }
  }

  lemma SubsetSize(a: set<nat>, b: set<nat>)
    requires a <= b
    ensures |a| <= |b|
  {
    assert b == a + (b - a);
  }

  lemma EqualSizeSubset(a: set<nat>, b: set<nat>)
    requires a <= b && |a| == |b|
    ensures a == b
  {
    assert b == a + (b - a);
    assert |b - a| == 0;
  }

  lemma ArrivalOrderCovers(xs: seq<nat>, n: nat)
    requires ArrivalOrder(xs, n)
    ensures Elements(xs) == Range(0, n)
  {
    DistinctSize(xs);
    RangeSize(0, n);
    EqualSizeSubset(Elements(xs), Range(0, n));
  }

  // ----- memory -----

  // memcpy, seen from the start of the buffer.
  method CopyInto(buf: array<u8>, at: nat, src: seq<u8>)
    requires at + |src| <= buf.Length
    modifies buf
    ensures buf[..at + |src|] == old(buf[..at]) + src
  {
    for i := 0 to |src|
      invariant buf[..at + i] == old(buf[..at]) + src[..i]
    {
      buf[at + i] := src[i];
    }
    assert src[..|src|] == src;
  }
}
