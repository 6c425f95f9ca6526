/** Byte length of a Go string. Go strings are UTF-8 byte sequences and
    `strings.Builder.Len` counts bytes, so the payload limit is a limit on
    the UTF-8 encoding of the text, not on its number of characters. */
module Utf8 {

  /** Bytes UTF-8 spends on one Unicode scalar value. */
  function RuneLength(c: char): (n: nat)
    ensures 1 <= n <= 4
    ensures n == 1 <==> (c as int) < 0x80
  {
    if (c as int) < 0x80 then 1
    else if (c as int) < 0x800 then 2
    else if (c as int) < 0x1_0000 then 3
    else 4
  }

  function Length(s: string): (n: nat)
  {
    if |s| == 0 then 0 else RuneLength(s[0]) + Length(s[1..])
  }

  predicate IsAscii(s: string)
  {
    forall i :: 0 <= i < |s| ==> (s[i] as int) < 0x80
  }

  lemma {:induction false} LengthAppend(a: string, b: string)
    ensures Length(a + b) == Length(a) + Length(b)
    decreases |a|
  {
    if |a| > 0 {
      assert (a + b)[1..] == a[1..] + b;
      LengthAppend(a[1..], b);
    } else {
      assert a + b == b;
    }
  }

  /** A string takes at least one and at most four bytes per character,
      and exactly one per character when it is ASCII. */
  lemma {:induction false} LengthBounds(s: string)
    ensures |s| <= Length(s) <= 4 * |s|
    ensures IsAscii(s) <==> Length(s) == |s|
    decreases |s|
  {
    if |s| > 0 {
      LengthBounds(s[1..]);
      if IsAscii(s[1..]) && (s[0] as int) < 0x80 {
        assert IsAscii(s) by {
          forall i | 0 <= i < |s| ensures (s[i] as int) < 0x80 {
            if i > 0 { assert s[i] == s[1..][i - 1]; }
          }
        }
      }
      if IsAscii(s) {
        assert IsAscii(s[1..]) by {
          forall i | 0 <= i < |s| - 1 ensures (s[1..][i] as int) < 0x80 {
            assert s[1..][i] == s[i + 1];
          }
        }
      }
    }
  }

  /** `k` copies of one character take `k` times its byte length. */
  lemma {:induction false} LengthRepeat(c: char, k: nat)
    ensures Length(seq(k, _ => c)) == k * RuneLength(c)
  {
    if k > 0 {
      assert seq(k, _ => c)[1..] == seq(k - 1, _ => c);
      LengthRepeat(c, k - 1);
    }
  }

  lemma AppendAscii(a: string, b: string)
    requires IsAscii(a) && IsAscii(b)
    ensures IsAscii(a + b)
  {
    forall i | 0 <= i < |a + b| ensures ((a + b)[i] as int) < 0x80 {
      if i >= |a| { assert (a + b)[i] == b[i - |a|]; }
    }
  }
}
