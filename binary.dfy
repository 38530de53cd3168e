/**
 * Unsigned little-endian integers and byte strings, the encoding that
 * encoding/binary uses with binary.LittleEndian for every fixed-size field
 * of the FSP tables, and the substring search bytes.Index.
 */
module Binary {

  type byte = x: int | 0 <= x < 0x100
  type u16 = x: int | 0 <= x < 0x1_0000
  type u32 = x: int | 0 <= x < 0x1_0000_0000
  type Bytes = seq<byte>

  type Bytes4 = s: Bytes | |s| == 4 witness [0, 0, 0, 0]
  type Bytes6 = s: Bytes | |s| == 6 witness [0, 0, 0, 0, 0, 0]
  type Bytes8 = s: Bytes | |s| == 8 witness [0, 0, 0, 0, 0, 0, 0, 0]

  /** The 16-bit little-endian value stored at b[off], b[off + 1]. */
  function LE16(b: Bytes, off: nat): u16
    requires off + 2 <= |b|
  {
    b[off] as int + 0x100 * (b[off + 1] as int)
  }

  /** The 32-bit little-endian value stored at b[off .. off + 4]. */
  function LE32(b: Bytes, off: nat): u32
    requires off + 4 <= |b|
  {
    LE16(b, off) + 0x1_0000 * LE16(b, off + 2)
  }

  /** The two bytes a 16-bit value is written as, low byte first. */
  function E16(x: u16): (r: Bytes)
    ensures |r| == 2
  {
    [x % 0x100, x / 0x100]
  }

  /** The four bytes a 32-bit value is written as, low byte first. */
  function E32(x: u32): (r: Bytes)
    ensures |r| == 4
  {
    E16(x % 0x1_0000) + E16(x / 0x1_0000)
  }

  /** Reading back what E16 wrote gives the value, at any position of any buffer. */
  lemma LE16Of(p: Bytes, x: u16, q: Bytes)
    ensures LE16(p + E16(x) + q, |p|) == x
  {
    var s := p + E16(x) + q;
    assert s[|p|] == x % 0x100 && s[|p| + 1] == x / 0x100;
  }

  /** Reading back what E32 wrote gives the value, at any position of any buffer. */
  lemma LE32Of(p: Bytes, x: u32, q: Bytes)
    ensures LE32(p + E32(x) + q, |p|) == x
  {
    var s := p + E32(x) + q;
    assert s == p + E16(x % 0x1_0000) + (E16(x / 0x1_0000) + q);
    assert s == (p + E16(x % 0x1_0000)) + E16(x / 0x1_0000) + q;
    LE16Of(p, x % 0x1_0000, E16(x / 0x1_0000) + q);
    LE16Of(p + E16(x % 0x1_0000), x / 0x1_0000, q);
  }

  /** Writing the value read at off reproduces the two bytes there. */
  lemma E16OfLE16(b: Bytes, off: nat)
    requires off + 2 <= |b|
    ensures E16(LE16(b, off)) == b[off .. off + 2]
  {
  }

  /** Writing the value read at off reproduces the four bytes there. */
  lemma E32OfLE32(b: Bytes, off: nat)
    requires off + 4 <= |b|
    ensures E32(LE32(b, off)) == b[off .. off + 4]
  {
    var x := LE32(b, off);
    assert x % 0x1_0000 == LE16(b, off) && x / 0x1_0000 == LE16(b, off + 2);
    E16OfLE16(b, off);
    E16OfLE16(b, off + 2);
  }

  /** The pattern pat occurs in s starting at index k. */
  predicate MatchAt(s: Bytes, pat: Bytes, k: int)
  {
    0 <= k && k + |pat| <= |s| && s[k .. k + |pat|] == pat
  }

  /** A match in a suffix of s is a match in s, shifted by where the suffix starts. */
  lemma MatchAtSuffix(s: Bytes, pat: Bytes, d: nat, k: nat)
    requires d <= |s|
    ensures MatchAt(s[d..], pat, k) <==> MatchAt(s, pat, d + k)
  {
    if 0 <= k && k + |pat| <= |s| - d {
      assert s[d..][k .. k + |pat|] == s[d + k .. d + k + |pat|];
    }
  }

  /**
   * bytes.Index: the least index at which pat occurs in s, or -1 when it
   * does not occur.
   */
  function IndexOf(s: Bytes, pat: Bytes): (r: int)
    ensures -1 <= r
    ensures r >= 0 ==> MatchAt(s, pat, r)
    ensures r >= 0 ==> forall k :: 0 <= k < r ==> !MatchAt(s, pat, k)
    ensures r < 0 ==> forall k :: !MatchAt(s, pat, k)
    decreases |s|
  {
    if |s| < |pat| then -1
    else if s[..|pat|] == pat then 0
    else
      var i := IndexOf(s[1..], pat);
      assert !MatchAt(s, pat, 0) by { assert s[0 .. |pat|] == s[..|pat|]; }
      forall k | 1 <= k ensures MatchAt(s, pat, k) <==> MatchAt(s[1..], pat, k - 1) {
        MatchAtSuffix(s, pat, 1, k - 1);
      }
      if i < 0 then -1 else i + 1
  }

  /** The values a sequence of offsets holds. */
  function Elems(offsets: seq<nat>): set<nat>
  {
    set o | o in offsets
  }

  /** Strictly increasing offsets are distinct, so there are as many as the set they form. */
  lemma {:induction false} IncreasingCard(offsets: seq<nat>)
    requires forall i, j :: 0 <= i < j < |offsets| ==> offsets[i] < offsets[j]
    ensures |Elems(offsets)| == |offsets|
  {
    if offsets != [] {
      var init, last := offsets[..|offsets| - 1], offsets[|offsets| - 1];
      IncreasingCard(init);
      assert last !in Elems(init) by {
        forall i | 0 <= i < |init| ensures init[i] < last {
          assert init[i] == offsets[i];
        }
      }
      assert Elems(offsets) == Elems(init) + {last} by {
        assert offsets == init + [last];
      }
    }
  }
}
