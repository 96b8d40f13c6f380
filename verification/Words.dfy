/** Bytes, their sums, and the big-endian words made of them. */
module Words {
  import opened CString

  type byte = x: nat | x < 256

  function Sum(s: seq<byte>): nat {
    if s == [] then 0 else Sum(s[..|s| - 1]) + s[|s| - 1]
  }

  lemma {:induction false} SumConcat(a: seq<byte>, b: seq<byte>)
    ensures Sum(a + b) == Sum(a) + Sum(b)
  {
    if b == [] {
      assert a + b == a;
    } else {
      assert (a + b)[..|a + b| - 1] == a + b[..|b| - 1];
      SumConcat(a, b[..|b| - 1]);
    }
  }

  /** The word at a byte offset (big_endian). */
  function Word(s: seq<byte>, p: nat): u32
    requires p + 4 <= |s|
  {
    s[p] as int * 0x100_0000 + s[p + 1] as int * 0x1_0000 + s[p + 2] as int * 0x100 + s[p + 3] as int
  }

  function WordBytes(w: u32): (r: seq<byte>)
    ensures |r| == 4
  {
    [w / 0x100_0000, w / 0x1_0000 % 0x100, w / 0x100 % 0x100, w % 0x100]
  }

  lemma WordOfBytes(w: u32)
    ensures Word(WordBytes(w), 0) == w
  {
    var a, b, c := w / 0x100, w / 0x1_0000, w / 0x100_0000;
    assert w == a * 0x100 + w % 0x100;
    assert a == b * 0x100 + a % 0x100;
    assert b == c * 0x100 + b % 0x100;
  }

  /** The same word, cut out of a longer text. */
  lemma WordInside(s: seq<byte>, lo: nat, hi: nat, p: nat)
    requires lo <= hi <= |s| && lo + p + 4 <= hi
    ensures Word(s[lo..hi], p) == Word(s, lo + p)
  {
  }
}
