/** Bytes, fixed-width big-endian integers and the lexicographic order on
    byte strings that Rust's `Ord` for `[u8]` gives. */
module Bytes {

  type u8 = x: int | 0 <= x < 0x100
  type u16 = x: int | 0 <= x < 0x1_0000
  type u32 = x: int | 0 <= x < 0x1_0000_0000

  type Bytes = seq<u8>

  /** `as u16` and `as u32`: Rust keeps the low bits. */
  function TruncU16(n: nat): (r: u16)
    ensures n < 0x1_0000 ==> r == n
  {
    n % 0x1_0000
  }

  function TruncU32(n: nat): (r: u32)
    ensures n < 0x1_0000_0000 ==> r == n
  {
    n % 0x1_0000_0000
  }

  /** `put_u16`: two bytes, most significant first. */
  function PutU16(n: u16): (r: Bytes)
    ensures |r| == 2
  {
    [n / 0x100, n % 0x100]
  }

  /** `put_u32`: four bytes, most significant first, i.e. the high half
      then the low half. */
  function PutU32(n: u32): (r: Bytes)
    ensures |r| == 4
  {
    PutU16(n / 0x1_0000) + PutU16(n % 0x1_0000)
  }

  /** `get_u16` at position `i`. */
  function GetU16(s: Bytes, i: nat): (r: u16)
    requires i + 2 <= |s|
  {
    (s[i] as int) * 0x100 + s[i + 1] as int
  }

  /** `get_u32` at position `i`: the high half then the low half. */
  function GetU32(s: Bytes, i: nat): (r: u32)
    requires i + 4 <= |s|
  {
    GetU16(s, i) * 0x1_0000 + GetU16(s, i + 2)
  }

  lemma GetPutU16(n: u16, pre: Bytes, post: Bytes)
    ensures GetU16(pre + PutU16(n) + post, |pre|) == n
  {
    var s := pre + PutU16(n) + post;
    assert s[|pre|] == n / 0x100 && s[|pre| + 1] == n % 0x100;
  }

  lemma GetPutU32(n: u32, pre: Bytes, post: Bytes)
    ensures GetU32(pre + PutU32(n) + post, |pre|) == n
  {
    var hi, lo := n / 0x1_0000, n % 0x1_0000;
    var s := pre + PutU32(n) + post;
    assert s == pre + PutU16(hi) + (PutU16(lo) + post);
    GetPutU16(hi, pre, PutU16(lo) + post);
    assert s == (pre + PutU16(hi)) + PutU16(lo) + post;
    GetPutU16(lo, pre + PutU16(hi), post);
  }

  /** Reading two bytes as a `u16` and writing it back gives the same bytes. */
  lemma PutGetU16(s: Bytes, i: nat)
    requires i + 2 <= |s|
    ensures PutU16(GetU16(s, i)) == s[i .. i + 2]
  {
    var hi, lo := s[i] as int, s[i + 1] as int;
    assert (hi * 0x100 + lo) / 0x100 == hi && (hi * 0x100 + lo) % 0x100 == lo;
  }

  lemma PutGetU32(s: Bytes, i: nat)
    requires i + 4 <= |s|
    ensures PutU32(GetU32(s, i)) == s[i .. i + 4]
  {
    var hi, lo := GetU16(s, i) as int, GetU16(s, i + 2) as int;
    assert (hi * 0x1_0000 + lo) / 0x1_0000 == hi && (hi * 0x1_0000 + lo) % 0x1_0000 == lo;
    PutGetU16(s, i);
    PutGetU16(s, i + 2);
    assert s[i .. i + 4] == s[i .. i + 2] + s[i + 2 .. i + 4];
  }

  /** Concatenation regroups freely; stated once so that long chains of
      appends need not be re-proved element by element. */
  lemma AppendAssoc<T>(a: seq<T>, b: seq<T>, c: seq<T>)
    ensures a + b + c == a + (b + c)
  {
  }

  datatype Ordering = Less | Equal | Greater {
    /** `Ordering::reverse`. */
    function Reverse(): (r: Ordering)
      ensures (r == Less) == (this == Greater) && (r == Greater) == (this == Less)
    {
      match this
      case Less => Greater
      case Equal => Equal
      case Greater => Less
    }
  }

  /** Lexicographic comparison of byte strings; a proper prefix is smaller. */
  function Cmp(a: Bytes, b: Bytes): Ordering
  {
    if a == [] then (if b == [] then Equal else Less)
    else if b == [] then Greater
    else if a[0] < b[0] then Less
    else if a[0] > b[0] then Greater
    else Cmp(a[1..], b[1..])
  }

  predicate Lt(a: Bytes, b: Bytes) { Cmp(a, b) == Less }

  predicate Le(a: Bytes, b: Bytes) { Cmp(a, b) != Greater }

  lemma {:induction false} CmpEqualIff(a: Bytes, b: Bytes)
    ensures Cmp(a, b) == Equal <==> a == b
  {
    if a != [] && b != [] && a[0] == b[0] {
      CmpEqualIff(a[1..], b[1..]);
      assert a == [a[0]] + a[1..] && b == [b[0]] + b[1..];
    }
  }

  lemma {:induction false} CmpFlip(a: Bytes, b: Bytes)
    ensures Cmp(b, a) == Cmp(a, b).Reverse()
  {
    if a != [] && b != [] && a[0] == b[0] {
      CmpFlip(a[1..], b[1..]);
    }
  }

  lemma {:induction false} LtTrans(a: Bytes, b: Bytes, c: Bytes)
    requires Lt(a, b) && Lt(b, c)
    ensures Lt(a, c)
  {
    if a != [] && b != [] && c != [] && a[0] == b[0] == c[0] {
      LtTrans(a[1..], b[1..], c[1..]);
    }
  }

  lemma LtIrreflexive(a: Bytes)
    ensures !Lt(a, a)
  {
    CmpEqualIff(a, a);
  }

  lemma LeLtTrans(a: Bytes, b: Bytes, c: Bytes)
    requires Le(a, b) && Lt(b, c)
    ensures Lt(a, c)
  {
    if Cmp(a, b) == Equal { CmpEqualIff(a, b); } else { LtTrans(a, b, c); }
  }

  lemma LtLeTrans(a: Bytes, b: Bytes, c: Bytes)
    requires Lt(a, b) && Le(b, c)
    ensures Lt(a, c)
  {
    if Cmp(b, c) == Equal { CmpEqualIff(b, c); } else { LtTrans(a, b, c); }
  }

  /** Totality: two strings are ordered one way or the other or equal. */
  lemma NotLtIsLe(a: Bytes, b: Bytes)
    ensures !Lt(a, b) <==> Le(b, a)
  {
    CmpFlip(a, b);
  }
}
