// The start-code search of the H.26x formats. The search reads the access unit
// one 32-bit word at a time, skips zero-free stretches eight bytes at a time
// and relies on a sentinel zero to stop. Here are the words as the little-endian
// branch reads them, a plain word-by-word scan, and what both find in terms of bytes.
module StartCode {

  // ----- words -----

  function Dword(b0: bv8, b1: bv8, b2: bv8, b3: bv8): bv32 {
    (b0 as bv32) | (b1 as bv32 << 8) | (b2 as bv32 << 16) | (b3 as bv32 << 24)
  }

  function Load32(b: seq<bv8>, i: nat): bv32
    requires i + 4 <= |b|
  {
    Dword(b[i], b[i + 1], b[i + 2], b[i + 3])
  }

  function Load64(b: seq<bv8>, i: nat): bv64
    requires i + 8 <= |b|
  {
    (Load32(b, i) as bv64) | (Load32(b, i + 4) as bv64 << 32)
  }

  // haszero32_le and haszero64_le
  predicate HasZero32(v: bv32) {
    ((v - 0x01010101) & !v & 0x80808080) != 0
  }

  predicate HasZero64(v: bv64) {
    ((v - 0x0101010101010101) & !v & 0x8080808080808080) != 0
  }

  // The bit tricks are exact: they hold of a word if and only if one of its
  // bytes is zero.
  lemma HasZero32Exact(b0: bv8, b1: bv8, b2: bv8, b3: bv8)
    ensures HasZero32(Dword(b0, b1, b2, b3)) <==> b0 == 0 || b1 == 0 || b2 == 0 || b3 == 0
  {
  }

  lemma HasZero64Halves(lo: bv32, hi: bv32)
    ensures HasZero64((lo as bv64) | (hi as bv64 << 32)) <==> HasZero32(lo) || HasZero32(hi)
  {
  }

  lemma WordZero(b: seq<bv8>, i: nat)
    requires i + 4 <= |b|
    ensures HasZero32(Load32(b, i)) <==> b[i] == 0 || b[i + 1] == 0 || b[i + 2] == 0 || b[i + 3] == 0
  {
    HasZero32Exact(b[i], b[i + 1], b[i + 2], b[i + 3]);
  }

  lemma WindowHalves(b: seq<bv8>, i: nat)
    requires i + 8 <= |b|
    ensures HasZero64(Load64(b, i)) <==> HasZero32(Load32(b, i)) || HasZero32(Load32(b, i + 4))
  {
    hide HasZero32, HasZero64, Load32;
    HasZero64Halves(Load32(b, i), Load32(b, i + 4));
  }

  lemma HasZero64Exact(b: seq<bv8>, i: nat)
    requires i + 8 <= |b|
    ensures HasZero64(Load64(b, i)) <==> exists k :: i <= k < i + 8 && b[k] == 0
  {
    hide HasZero32, HasZero64, Load32, Load64, Dword;
    WindowHalves(b, i);
    WordZero(b, i);
    WordZero(b, i + 4);
    var w := b[i..i + 8];
    assert forall k :: i <= k < i + 8 ==> b[k] == w[k - i];
    assert forall k :: 0 <= k < 8 ==> w[k] == b[i + k];
    assert (exists k :: i <= k < i + 8 && b[k] == 0) <==> (exists k :: 0 <= k < 8 && w[k] == 0);
  }

  // ----- one word -----

  // A code ends `advance` bytes into the word.
  datatype Hit = Miss | Hit(advance: nat, startLen: nat)

  // __find_h26x_start
  function FindH26xStart(value: bv32): nat {
    var u, l := (value >> 16) & 0xffff, value & 0xffff;
    if l == 0 then (if u == 0x0100 then 4 else if u & 0xff == 0x01 then 5 else 0)
    else if (l >> 8) & 0xff == 0 && u == 0x0100 then 4
    else 0
  }

  // The tests made on a word, given the previous one; prevZ and curZ tell
  // whether they contain a zero byte.
  function Check(value: bv32, prev: bv32, prevZ: bool, curZ: bool): Hit {
    var u, l, p := (value >> 16) & 0xffff, value & 0xffff, (prev >> 16) & 0xffff;
    var found := FindH26xStart(value);
    if !prevZ && !curZ then Miss
    else if prevZ && !curZ && value & 0xff == 0x01 && p == 0 then Hit(1, if (prev >> 8) & 0xffffff == 0 then 4 else 3)
    else if found == 5 then Hit(3, if (prev >> 24) & 0xff == 0 then 4 else 3)
    else if found > 0 then Hit(found, found)
    else if p == 0 && l == 0x0100 then Hit(2, 4)
    else if (p >> 8) & 0xff == 0 then
      if l == 0 && u == 0x01 then Hit(3, 4)
      else if l == 0x0100 then Hit(2, 3)
      else Miss
    else Miss
  }

  // The same in terms of bytes. A code whose 01 is the first byte of the word
  // is seen only if the word has no zero byte; one whose 01 is the last byte is
  // always reported as four bytes long.
  function CheckBytes(p1: bv8, p2: bv8, p3: bv8, v0: bv8, v1: bv8, v2: bv8, v3: bv8): Hit {
    if v0 == 1 && p2 == 0 && p3 == 0 && v1 != 0 && v2 != 0 && v3 != 0 then Hit(1, if p1 == 0 then 4 else 3)
    else if v0 == 0 && v1 == 1 && p3 == 0 then Hit(2, if p2 == 0 then 4 else 3)
    else if v0 == 0 && v1 == 0 && v2 == 1 then Hit(3, if p3 == 0 then 4 else 3)
    else if v1 == 0 && v2 == 0 && v3 == 1 then Hit(4, 4)
    else Miss
  }

  lemma CheckIsBytes(p0: bv8, p1: bv8, p2: bv8, p3: bv8, v0: bv8, v1: bv8, v2: bv8, v3: bv8)
    ensures var prev, value := Dword(p0, p1, p2, p3), Dword(v0, v1, v2, v3);
            Check(value, prev, HasZero32(prev), HasZero32(value)) == CheckBytes(p1, p2, p3, v0, v1, v2, v3)
  {
  }

  // ----- the plain scan -----

  datatype Found = NotFound | Found(offset: nat, startLen: nat)

  const NO_PREV: bv32 := 0xffffffff

  lemma NoPrevZeroFree()
    ensures !HasZero32(NO_PREV)
  {
  }

  // Every word in turn, from pos on.
  function Scan(b: seq<bv8>, len: nat, pos: nat, prev: bv32, prevZ: bool): Found
    requires len <= |b|
    decreases len - pos
  {
    if pos + 8 >= len then NotFound
    else
      var value := Load32(b, pos);
      match Check(value, prev, prevZ, HasZero32(value))
      case Hit(advance, startLen) => Found(pos + advance, startLen)
      case Miss => Scan(b, len, pos + 4, value, HasZero32(value))
  }

  // While no zero byte has been seen it does not matter which word came before.
  lemma CheckStale(value: bv32, a: bv32, b: bv32, curZ: bool)
    requires !HasZero32(a) && !HasZero32(b)
    ensures Check(value, a, false, curZ) == Check(value, b, false, curZ)
  {
  }

  lemma ScanStale(b: seq<bv8>, len: nat, pos: nat, p: bv32, q: bv32)
    requires len <= |b| && !HasZero32(p) && !HasZero32(q)
    ensures Scan(b, len, pos, p, false) == Scan(b, len, pos, q, false)
  {
    hide HasZero32, Load32, Check;
    if pos + 8 < len {
      CheckStale(Load32(b, pos), p, q, HasZero32(Load32(b, pos)));
    }
  }

  lemma SkipWord(b: seq<bv8>, len: nat, pos: nat, prev: bv32)
    requires len <= |b| && pos + 4 <= |b| && !HasZero32(prev) && !HasZero32(Load32(b, pos))
    ensures Scan(b, len, pos, prev, false) == Scan(b, len, pos + 4, prev, false)
  {
    hide HasZero32, Load32;
    if pos + 8 < len {
      assert Check(Load32(b, pos), prev, false, false) == Miss;
      ScanStale(b, len, pos + 4, Load32(b, pos), prev);
    }
  }

  // Skipping a zero-free eight-byte window does not change the outcome.
  lemma SkipWindow(b: seq<bv8>, len: nat, pos: nat, prev: bv32)
    requires len <= |b| && pos + 8 <= |b| && !HasZero32(prev) && !HasZero64(Load64(b, pos))
    ensures Scan(b, len, pos, prev, false) == Scan(b, len, pos + 8, prev, false)
  {
    hide HasZero32, HasZero64, Load32, Load64, Scan;
    WindowHalves(b, pos);
    SkipWord(b, len, pos, prev);
    SkipWord(b, len, pos + 4, prev);
  }

  // ----- the search as implemented -----

  lemma ScanStep(b: seq<bv8>, len: nat, pos: nat, prev: bv32, prevZ: bool)
    requires len <= |b| && pos + 8 < len
    ensures var value := Load32(b, pos);
            match Check(value, prev, prevZ, HasZero32(value))
            case Hit(advance, startLen) => Scan(b, len, pos, prev, prevZ) == Found(pos + advance, startLen)
            case Miss => Scan(b, len, pos, prev, prevZ) == Scan(b, len, pos + 4, value, HasZero32(value))
  {
    hide Check, HasZero32, Load32;
  }

  lemma ScanEnd(b: seq<bv8>, len: nat, pos: nat, prev: bv32, prevZ: bool)
    requires len <= |b| && pos + 8 >= len
    ensures Scan(b, len, pos, prev, prevZ) == NotFound
  {
  }

  // pad: bytes after the access unit that may be read; an eight-byte read can
  // reach seven bytes past its end.
  method FindStartCode(data: array<bv8>, len: nat, offset: nat, startLenIn: nat) returns (r: int, startLen: nat)
    requires 8 <= len && len + 7 <= data.Length
    modifies data
    ensures data[..] == old(data[..])
    ensures var b := old(data[..])[len - len % 8 - 1 := 0];
            match Scan(b, len, offset, NO_PREV, false)
            case NotFound => r == -1
            case Found(o, l) => r == o && startLen == l
  {
    hide Check, HasZero32, HasZero64, Load32, Load64, Scan;
    NoPrevZeroFree();
    startLen := startLenIn;
    var prevZ, curZ := false, false;
    var pos := offset;
    var rpos := len - len % 8 - 1;
    var ptr := offset;
    var prev: bv32, value: bv32 := NO_PREV, NO_PREV;
    var lb := data[rpos];
    data[rpos] := 0;
    ghost var b := data[..];
    assert b == old(data[..])[rpos := 0];
    if pos + 8 >= len {
      ScanEnd(b, len, pos, prev, false);
    }
    while pos + 8 < len
      invariant data[..] == b && ptr == pos && curZ == prevZ
      invariant !prevZ ==> !HasZero32(prev)
      invariant Scan(b, len, pos, prev, prevZ) == Scan(b, len, offset, NO_PREV, false)
      invariant pos + 8 >= len ==> Scan(b, len, pos, prev, prevZ) == NotFound
      decreases len - pos
    {
      if !prevZ {
        curZ := HasZero64(Load64(data[..], ptr));
        if !curZ {
          ptr := SkipZeroFree(data, len, rpos, ptr, prev);
          curZ := true;
          pos := ptr;
          if pos + 8 >= len {
            ScanEnd(b, len, pos, prev, false);
            break;
          }
        }
      }
      value := Load32(data[..], ptr);
      WindowHalves(b, ptr);
      if curZ {
        curZ := HasZero32(value);
      }
      ScanStep(b, len, pos, prev, prevZ);
      var hit := Check(value, prev, prevZ, curZ);
      if hit.Hit? {
        startLen := hit.startLen;
        data[rpos] := lb;
        return pos + hit.advance, startLen;
      }
      prevZ := curZ;
      pos, ptr := pos + 4, ptr + 4;
      prev := value;
      if pos + 8 >= len {
        ScanEnd(b, len, pos, prev, prevZ);
      }
    }
    data[rpos] := lb;
    return -1, startLen;
  }

  // The inner loop: on to the first eight-byte window with a zero byte.
  method SkipZeroFree(data: array<bv8>, len: nat, rpos: nat, start: nat, ghost prev: bv32) returns (ptr: nat)
    requires rpos < len && len + 7 <= data.Length && data[rpos] == 0 && start + 8 < len && start < rpos
    requires !HasZero64(Load64(data[..], start)) && !HasZero32(prev)
    ensures start < ptr <= rpos && HasZero64(Load64(data[..], ptr))
    ensures Scan(data[..], len, ptr, prev, false) == Scan(data[..], len, start, prev, false)
  {
    hide HasZero32, HasZero64, Load32, Load64, Scan;
    ptr := start;
    var cur := false;
    while !cur
      invariant start <= ptr <= rpos && (ptr > start || !cur)
      invariant cur == HasZero64(Load64(data[..], ptr))
      invariant Scan(data[..], len, ptr, prev, false) == Scan(data[..], len, start, prev, false)
      decreases rpos - ptr, if cur then 0 else 1
    {
      HasZero64Exact(data[..], ptr);
      SkipWindow(data[..], len, ptr, prev);
      assert data[..][rpos] == 0;
      ptr := ptr + 8;
      cur := HasZero64(Load64(data[..], ptr));
    }
  }
}
