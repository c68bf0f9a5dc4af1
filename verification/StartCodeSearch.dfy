// What the start-code search finds, in terms of bytes, and the access-unit
// splitter that calls it.
module StartCodeSearch {
  import opened StartCode

  // ----- recognised codes -----

  // Bytes 00 00 01, all at or after offset, ending just before end.
  predicate CodeEndsAt(b: seq<bv8>, offset: nat, end: nat) {
    offset + 3 <= end <= |b| && b[end - 3] == 0 && b[end - 2] == 0 && b[end - 1] == 1
  }

  // The word, counted from offset, that holds the last byte before end.
  function WordOf(offset: nat, end: nat): nat
    requires offset < end
  {
    offset + (end - 1 - offset) / 4 * 4
  }

  // Which codes the search sees: the word with the 01 must be scanned, and if
  // the 01 is its first byte no byte of that word may be zero.
  predicate Recognised(b: seq<bv8>, len: nat, offset: nat, end: nat)
    requires len <= |b|
  {
    && CodeEndsAt(b, offset, end)
    && var w := WordOf(offset, end);
       w + 8 < len && (end == w + 1 ==> b[w + 1] != 0 && b[w + 2] != 0 && b[w + 3] != 0)
  }

  // The start length reported for it: exact, except that a code ending its
  // word always counts as four bytes.
  function CodeLength(b: seq<bv8>, offset: nat, end: nat): nat
    requires CodeEndsAt(b, offset, end)
  {
    if end == WordOf(offset, end) + 4 then 4
    else if offset + 4 <= end && b[end - 4] == 0 then 4
    else 3
  }

  // What a search from word pos on must answer.
  ghost predicate FirstFrom(b: seq<bv8>, len: nat, offset: nat, pos: nat, found: Found)
    requires len <= |b|
  {
    match found
    case NotFound => forall e :: pos < e ==> !Recognised(b, len, offset, e)
    case Found(end, startLen) =>
      && pos < end
      && Recognised(b, len, offset, end)
      && startLen == CodeLength(b, offset, end)
      && forall e :: pos < e && Recognised(b, len, offset, e) ==> end <= e
  }

  // ----- one word -----

  // The bytes before the search starts count as 0xff.
  function At(b: seq<bv8>, offset: nat, i: int): bv8
    requires i < |b|
  {
    if i < offset then 0xff else b[i]
  }

  function PrevWord(b: seq<bv8>, offset: nat, pos: nat): bv32
    requires pos <= |b|
  {
    Dword(At(b, offset, pos - 4), At(b, offset, pos - 3), At(b, offset, pos - 2), At(b, offset, pos - 1))
  }

  lemma NoPrev(b: seq<bv8>, offset: nat)
    requires offset <= |b|
    ensures PrevWord(b, offset, offset) == NO_PREV && !HasZero32(NO_PREV)
  {
  }

  function WordHit(b: seq<bv8>, offset: nat, pos: nat): Hit
    requires pos + 4 <= |b|
  {
    CheckBytes(At(b, offset, pos - 3), At(b, offset, pos - 2), At(b, offset, pos - 1),
               b[pos], b[pos + 1], b[pos + 2], b[pos + 3])
  }

  lemma WordHitIsCheck(b: seq<bv8>, offset: nat, pos: nat)
    requires pos + 4 <= |b|
    ensures var prev, value := PrevWord(b, offset, pos), Load32(b, pos);
            Check(value, prev, HasZero32(prev), HasZero32(value)) == WordHit(b, offset, pos)
  {
    hide HasZero32, Check, CheckBytes, Dword;
    CheckIsBytes(At(b, offset, pos - 4), At(b, offset, pos - 3), At(b, offset, pos - 2), At(b, offset, pos - 1),
                 b[pos], b[pos + 1], b[pos + 2], b[pos + 3]);
  }

  lemma WordOfInside(offset: nat, k: nat, end: nat)
    requires offset + 4 * k < end <= offset + 4 * k + 4
    ensures WordOf(offset, end) == offset + 4 * k
  {
    assert end - 1 - offset == 4 * k + (end - 1 - offset - 4 * k);
    assert (end - 1 - offset) / 4 == k;
  }

  // A hit in word k is the one code recognised there.
  lemma WordHitMeans(b: seq<bv8>, len: nat, offset: nat, k: nat)
    requires len <= |b| && offset + 4 * k + 8 < len
    ensures var pos := offset + 4 * k;
            match WordHit(b, offset, pos)
            case Miss => forall e :: pos < e <= pos + 4 ==> !Recognised(b, len, offset, e)
            case Hit(advance, startLen) =>
              && 1 <= advance <= 4
              && Recognised(b, len, offset, pos + advance)
              && startLen == CodeLength(b, offset, pos + advance)
              && forall e :: pos < e <= pos + 4 && Recognised(b, len, offset, e) ==> e == pos + advance
  {
    hide WordOf;
    var pos := offset + 4 * k;
    WordOfInside(offset, k, pos + 1);
    WordOfInside(offset, k, pos + 2);
    WordOfInside(offset, k, pos + 3);
    WordOfInside(offset, k, pos + 4);
  }

  lemma PrevIsWord(b: seq<bv8>, offset: nat, pos: nat)
    requires offset <= pos && pos + 4 <= |b|
    ensures PrevWord(b, offset, pos + 4) == Load32(b, pos)
  {
    hide Dword;
  }

  // ----- the whole search -----

  lemma {:induction false} ScanFindsFrom(b: seq<bv8>, len: nat, offset: nat, k: nat)
    requires len <= |b| && offset + 4 * k <= |b|
    ensures var prev := PrevWord(b, offset, offset + 4 * k);
            FirstFrom(b, len, offset, offset + 4 * k, Scan(b, len, offset + 4 * k, prev, HasZero32(prev)))
    decreases len - (offset + 4 * k)
  {
    hide HasZero32, Check, CheckBytes, Dword, CodeLength, WordHit;
    var pos := offset + 4 * k;
    var prev := PrevWord(b, offset, pos);
    if pos + 8 < len {
      var value := Load32(b, pos);
      WordHitIsCheck(b, offset, pos);
      WordHitMeans(b, len, offset, k);
      PrevIsWord(b, offset, pos);
      ScanFindsFrom(b, len, offset, k + 1);
    } else {
      forall end | pos < end && CodeEndsAt(b, offset, end)
        ensures WordOf(offset, end) >= pos
      {
        assert (end - 1 - offset) / 4 >= k;
      }
    }
  }

  // The search answers the first code it can see, or that there is none.
  lemma ScanFinds(b: seq<bv8>, len: nat, offset: nat)
    requires len <= |b| && offset <= |b|
    ensures FirstFrom(b, len, offset, offset, Scan(b, len, offset, NO_PREV, false))
  {
    hide HasZero32, Scan, FirstFrom;
    NoPrev(b, offset);
    ScanFindsFrom(b, len, offset, 0);
  }

  // ----- the reported length -----

  // The first code there is to see.
  ghost predicate FirstCode(b: seq<bv8>, len: nat, offset: nat, end: nat)
    requires len <= |b|
  {
    Recognised(b, len, offset, end) && forall e :: Recognised(b, len, offset, e) ==> end <= e
  }

  // Three bytes, or four if another zero byte precedes them.
  function TrueLength(b: seq<bv8>, offset: nat, end: nat): nat
    requires CodeEndsAt(b, offset, end)
  {
    if offset + 4 <= end && b[end - 4] == 0 then 4 else 3
  }

  // A three-byte code at the end of a word, counted from where the search began.
  predicate EndsItsWord(b: seq<bv8>, offset: nat, end: nat)
    requires CodeEndsAt(b, offset, end)
  {
    (end - offset) % 4 == 0 && b[end - 4] != 0
  }

  // The search finds the first code, and reports one byte too many for it
  // exactly if it is a three-byte code that ends its word.
  lemma LengthExactly(b: seq<bv8>, len: nat, offset: nat, end: nat)
    requires len <= |b| && offset <= |b| && FirstCode(b, len, offset, end)
    ensures Scan(b, len, offset, NO_PREV, false)
         == Found(end, TrueLength(b, offset, end) + if EndsItsWord(b, offset, end) then 1 else 0)
  {
    hide Scan, WordOf;
    ScanFinds(b, len, offset);
    assert Recognised(b, len, offset, end);
    WordEnd(offset, end);
  }

  lemma WordEnd(offset: nat, end: nat)
    requires offset < end
    ensures end == WordOf(offset, end) + 4 <==> (end - offset) % 4 == 0
  {
    var k := (end - 1 - offset) / 4;
    assert 4 * k <= end - 1 - offset < 4 * k + 4;
  }

  // A buffer that starts with such a code.
  function OverlongProbe(len: nat): (b: seq<bv8>)
    ensures |b| == len + 4
  {
    [5, 0, 0, 1] + seq(len, i => 0xff)
  }

  lemma OverlongReported(len: nat)
    requires len > 8
    ensures var b := OverlongProbe(len); Scan(b, len, 0, NO_PREV, false) == Found(4, 4) && b[..4] == [5, 0, 0, 1]
  {
    hide Scan;
    var b := OverlongProbe(len);
    WordOfInside(0, 0, 4);
    assert FirstCode(b, len, 0, 4);
    LengthExactly(b, len, 0, 4);
  }

  // ----- the sentinel -----

  function Sentinel(len: nat): nat
    requires 8 <= len
  {
    len - len % 8 - 1
  }

  // The buffer as the search reads it, with the sentinel in place.
  function Guarded(data: seq<bv8>, len: nat): seq<bv8>
    requires 8 <= len <= |data|
  {
    data[Sentinel(len) := 0]
  }

  // Every code reported in this buffer is there in the caller's bytes.
  predicate TrueCode(data: seq<bv8>, len: nat, offset: nat)
    requires 8 <= len <= |data| && offset <= |data|
  {
    var found := Scan(Guarded(data, len), len, offset, NO_PREV, false);
    found.Found? ==> CodeEndsAt(data, offset, found.offset)
  }

  // The sentinel can stand inside a scanned code.
  predicate SentinelExposed(len: nat, offset: nat) {
    && offset + 9 <= len
    && var left := len - 9 - offset;
       (len % 8 == 6 && left % 4 == 0) || (len % 8 == 7 && left % 4 <= 1)
  }

  lemma LastWord(len: nat, offset: nat, end: nat)
    requires offset < end && WordOf(offset, end) + 8 < len
    ensures end <= len - 5
    ensures end == len - 5 ==> (len - 9 - offset) % 4 == 0
    ensures end == len - 6 ==> (len - 9 - offset) % 4 <= 1
  {
    var k := (end - 1 - offset) / 4;
    assert 4 * k <= end - 1 - offset < 4 * k + 4;
    if end == len - 5 {
      assert len - 9 - offset == 4 * k;
    } else if end == len - 6 {
      assert len - 9 - offset == 4 * k || len - 9 - offset == 4 * k + 1;
    }
  }

  lemma TrueUnlessExposed(data: seq<bv8>, len: nat, offset: nat)
    requires 8 <= len <= |data| && offset <= |data| && !SentinelExposed(len, offset)
    ensures TrueCode(data, len, offset)
  {
    hide Scan, WordOf, CodeLength;
    var b := Guarded(data, len);
    ScanFinds(b, len, offset);
    var found := Scan(b, len, offset, NO_PREV, false);
    if found.Found? {
      LastWord(len, offset, found.offset);
    }
  }

  // A buffer in which the sentinel completes a code that is not in the data.
  function Probe(len: nat): seq<bv8>
    requires 8 <= len
  {
    seq(len + 7, i => if i == Sentinel(len) - 1 then 0 else if i == Sentinel(len) + 1 then 1 else 0xff)
  }

  lemma FalseWhenExposed(len: nat, offset: nat)
    requires 8 <= len && SentinelExposed(len, offset)
    ensures !TrueCode(Probe(len), len, offset)
  {
    hide Scan, CodeLength;
    var b := Guarded(Probe(len), len);
    var end := Sentinel(len) + 2;
    ScanFinds(b, len, offset);
    var k := (end - 1 - offset) / 4;
    if len % 8 == 6 {
      assert WordOf(offset, end) == len - 9;
    } else {
      assert WordOf(offset, end) == len - 9 || WordOf(offset, end) == len - 10;
    }
    assert Recognised(b, len, offset, end);
  }

  // The codes reported are true codes whatever the data, if and only if the
  // sentinel is out of the way of the last word scanned.
  lemma TrueExactly(len: nat, offset: nat)
    requires 8 <= len && offset <= len
    ensures (forall data: seq<bv8> | |data| == len + 7 :: TrueCode(data, len, offset)) <==> !SentinelExposed(len, offset)
  {
    hide TrueCode, SentinelExposed;
    forall data: seq<bv8> | |data| == len + 7 && !SentinelExposed(len, offset)
      ensures TrueCode(data, len, offset)
    {
      TrueUnlessExposed(data, len, offset);
    }
    if SentinelExposed(len, offset) {
      FalseWhenExposed(len, offset);
      assert |Probe(len)| == len + 7;
    }
  }
}
