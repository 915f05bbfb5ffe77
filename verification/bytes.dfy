/** Bytes and the one sequence operation the buffer model is built from. */
module Bytes {
  import opened Arith

  /** An unsigned octet, the element of a QByteArray as the generator reads it. */
  type byte = x: int | 0 <= x < 256

  /** `n` copies of `s`, back to back. */
  function Repeat<T>(s: seq<T>, n: nat): (r: seq<T>)
    ensures |r| == n * |s|
  {
    if n == 0 then [] else Repeat(s, n - 1) + s
  }

  /** Copy `c` of `s` sits at offset `c * |s|`. */
  lemma {:induction false} RepeatSlice<T>(s: seq<T>, n: nat, c: nat)
    requires c < n
    ensures (c + 1) * |s| <= n * |s|
    ensures Repeat(s, n)[c * |s| .. (c + 1) * |s|] == s
  {
    MulLe(c + 1, n, |s|);
    var prefix := Repeat(s, n - 1);
    assert Repeat(s, n) == prefix + s;
    if c == n - 1 {
      assert |prefix| == c * |s|;
    } else {
      RepeatSlice(s, n - 1, c);
      MulLe(c + 1, n - 1, |s|);
      assert Repeat(s, n)[c * |s| .. (c + 1) * |s|] == prefix[c * |s| .. (c + 1) * |s|];
    }
  }

  /** Element `j` of a repetition is element `j % |s|` of the original. */
  lemma {:induction false} RepeatIndex<T>(s: seq<T>, n: nat, j: int)
    requires 0 <= j < n * |s|
    ensures 0 < |s|
    ensures Repeat(s, n)[j] == s[j % |s|]
  {
    if |s| == 0 {
      assert false;
    }
    var prefix := Repeat(s, n - 1);
    assert |prefix| == (n - 1) * |s| == n * |s| - |s|;
    if j < |prefix| {
      RepeatIndex(s, n - 1, j);
    } else {
      ModMultiple(n - 1, j - |prefix|, |s|);
      DivModUnique(j - |prefix|, |s|, 0, j - |prefix|);
    }
  }

  /** Appending leaves every slice of the prefix in place. */
  lemma AppendKeepsSlice<T>(prefix: seq<T>, tail: seq<T>, lo: nat, hi: nat)
    requires lo <= hi <= |prefix|
    ensures (prefix + tail)[lo .. hi] == prefix[lo .. hi]
  {
    assert forall k :: lo <= k < hi ==> (prefix + tail)[k] == prefix[k];
  }

  /** Piece `c` of width `cb` inside block `i` of width `w` sits at offset
      `i * w + c * cb` of the whole sequence. */
  lemma BlockSlice<T>(all: seq<T>, block: seq<T>, piece: seq<T>, i: nat, w: nat, c: nat, cb: nat)
    requires |block| == w && i * w + w <= |all| && all[i * w .. i * w + w] == block
    requires (c + 1) * cb <= w && block[c * cb .. (c + 1) * cb] == piece
    ensures i * w + (c + 1) * cb <= |all|
    ensures all[i * w + c * cb .. i * w + (c + 1) * cb] == piece
  {
    NestedSlice(all, i * w, block, c * cb, (c + 1) * cb);
  }

  /** A slice inside a block whose contents are known. */
  lemma NestedSlice<T>(all: seq<T>, start: nat, block: seq<T>, lo: nat, hi: nat)
    requires start + |block| <= |all| && all[start .. start + |block|] == block
    requires lo <= hi <= |block|
    ensures all[start + lo .. start + hi] == block[lo .. hi]
  {
    forall k | 0 <= k < hi - lo
      ensures all[start + lo .. start + hi][k] == block[lo .. hi][k]
    {
      assert all[start + lo + k] == all[start .. start + |block|][lo + k];
    }
  }
}
