/** Damaged and unfinished Kermit packets: no change of a single bit behind the length is taken for a packet,
    and what has come of a packet has the effect of its part. */
module KermitDamage {
  import opened BitFields
  import opened Words
  import opened Kermit
  import opened KermitDelivery

  // ---- the block check in bits

  lemma NoBits(a: nat)
    ensures And(a, 0) == 0
  {
  }

  lemma {:induction false} LowerMask(a: nat, n: nat)
    ensures And(a, Pow2(n) - 1) == Low(a, n)
    decreases n
  {
    hide And;
    AndBits(a, Pow2(n) - 1);
    NoBits(a);
    if n > 0 {
      LowerMask(a / 2, n - 1);
      assert (Pow2(n) - 1) / 2 == Pow2(n - 1) - 1;
    }
  }

  lemma TwoPlaces(w: nat, n: nat)
    ensures Shr(w, n + 2) == Shr(w / 4, n) && Shl(w, n + 2) == 4 * Shl(w, n) && Shr(w, 0) == Shl(w, 0) == w
  {
  }

  lemma Places(w: nat)
    ensures Shr(w, 2) == w / 4 && Shr(w, 6) == w / 64 && Shl(w, 2) == 4 * w && Shl(w, 6) == 64 * w
  {
    hide Shr, Shl;
    TwoPlaces(w, 0);
    TwoPlaces(w, 2);
    TwoPlaces(w, 4);
    TwoPlaces(w / 4, 2);
    TwoPlaces(w / 16, 0);
  }

  /** The lower two and the lower six bits. */
  lemma Masked(a: nat)
    ensures And(a, 3) == a % 4 && And(a, 0x3F) == a % 64
  {
    hide And, Low, Shr, Shl;
    Places(a);
    Places(a / 4);
    Places(a / 64);
    UpperAndLower(a, 2);
    UpperAndLower(a, 6);
    LowerMask(a, 2);
    LowerMask(a, 6);
    assert Pow2(2) == 4 && Pow2(4) == 16 && Pow2(6) == 64;
  }

  /** The type 1 block check: the two bits above the lower six of the sum added to it, and six bits of that. */
  lemma CheckIsOfBits(sum: nat)
    ensures Check1(sum) == (And(sum + And(Shr(sum, 6), 3), 0x3F) + 0x20) % 256
  {
    hide And, Shr;
    Places(sum);
    Masked(sum / 64);
    Masked(sum + sum / 64 % 4);
  }

  // ---- single bits

  /** Values that differ in one of eight bits differ by one of these. */
  predicate IsBit(p: nat) {
    p == 1 || p == 2 || p == 4 || p == 8 || p == 16 || p == 32 || p == 64 || p == 128
  }

  predicate OneBit(b: nat, c: nat) {
    (b < c && IsBit(c - b)) || (c < b && IsBit(b - c))
  }

  lemma CheckChars(x: nat, y: nat)
    requires x != y && x != y + 64 && y != x + 64 && -128 < x - y < 128
    ensures ToChar(x % 64) != ToChar(y % 64)
  {
  }

  /** Lower six bits and the two above them, when one bit is added. */
  lemma BitAdded(sum: nat, p: nat)
    requires IsBit(p)
    ensures var a, u := sum % 64, sum / 64;
            && (sum + p) % 64 == (if p >= 64 then a else if a + p < 64 then a + p else a + p - 64)
            && (sum + p) / 64 == (if p >= 64 then u + p / 64 else if a + p < 64 then u else u + 1)
  {
    var a, u := sum % 64, sum / 64;
    assert sum == 64 * u + a;
  }

  lemma SameRest(sum: nat, a: nat, c: nat)
    requires a == sum % 64
    ensures (sum + c) % 64 == (a + c) % 64
  {
  }

  lemma CheckOfMore(sum: nat, p: nat)
    requires IsBit(p)
    ensures Check1(sum + p) != Check1(sum)
  {
    hide ToChar;
    BitAdded(sum, p);
    var a, c, a1, c1 := sum % 64, sum / 64 % 4, (sum + p) % 64, (sum + p) / 64 % 4;
    SameRest(sum, a, c);
    SameRest(sum + p, a1, c1);
    CheckChars(a + c, a1 + c1);
  }

  lemma CheckDiffers(sum: nat, other: nat)
    requires OneBit(sum, other)
    ensures Check1(sum) != Check1(other)
  {
    if sum < other {
      CheckOfMore(sum, other - sum);
    } else {
      CheckOfMore(other, sum - other);
    }
  }

  lemma {:induction false} SumOfChanged(s: seq<byte>, i: nat, b: byte)
    requires i < |s|
    ensures Sum(s[i := b]) == Sum(s) - s[i] + b
  {
    var n, t := |s| - 1, s[i := b];
    if i < n {
      SumOfChanged(s[..n], i, b);
      assert t[..n] == s[..n][i := b];
    } else {
      assert t[..n] == s[..n];
    }
  }

  /** A check over a text does not hold any more when one bit of the text has changed. */
  lemma TextDiffers(s: seq<byte>, i: nat, b: byte, q: nat)
    requires i < q <= |s| && OneBit(s[i], b)
    ensures Check1(Sum(s[i := b][..q])) != Check1(Sum(s[..q]))
  {
    hide Check1, Sum;
    assert s[i := b][..q] == s[..q][i := b];
    SumOfChanged(s[..q], i, b);
    CheckDiffers(Sum(s[..q]), Sum(s[i := b][..q]));
  }

  // ---- damaged packets

  ghost predicate TakenForIntact(s: seq<byte>) {
    ScanPacket(s).Got? && ScanPacket(s).arrival.Intact?
  }

  lemma IntactRest(s: seq<byte>, n: byte, kind: byte, p: nat, count: nat)
    requires p <= |s|
    ensures var r := ScanRest(s, n, kind, p, count);
            r.Got? && r.arrival.Intact? ==>
              p + count + 1 < |s| && s[p + count] == Check1(Sum(s[..p + count])) && s[p + count + 1] == END_CHAR
  {
    hide Check1, Sum;
  }

  lemma ShortIsScanned(s: seq<byte>, count: nat)
    requires |s| >= 3 && s[0] == ToChar(count + 3) && count + 3 < 224 && Printable(s[1]) && Printable(s[2])
    ensures ScanPacket(s) == ScanRest(s, UnToChar(s[1]), s[2], 3, count)
  {
    hide ScanRest;
  }

  /** In a short packet, a change of one bit anywhere behind the length byte is noticed. */
  lemma {:induction false} DamageIsNoticed(n: byte, kind: byte, data: seq<byte>, i: nat, b: byte)
    requires n < 224 && |data| + 3 < 224
    requires var s := Body(n, kind, data) + [END_CHAR]; 0 < i < |s| && OneBit(s[i], b)
    ensures !TakenForIntact((Body(n, kind, data) + [END_CHAR])[i := b])
  {
    hide Check1, Sum, Body, ScanRest;
    var s, q := Body(n, kind, data) + [END_CHAR], 3 + |data|;
    var t := s[i := b];
    BodyLayout(n, kind, data);
    if i < q {
      TextDiffers(s, i, b, q);
    } else {
      assert t[..q] == s[..q];
    }
    if Printable(t[0]) && Printable(t[1]) && Printable(t[2]) {
      IntactRest(t, UnToChar(t[1]), t[2], 3, |data|);
      ShortIsScanned(t, |data|);
    }
  }

  lemma LongIsScanned(s: seq<byte>)
    requires |s| > 6 && s[0] == ToChar(0)
    ensures var length := UnToChar(s[3]) * 95 + UnToChar(s[4]);
            TakenForIntact(s) ==>
              && s[5] == Check1(Sum(s[..5])) && Printable(s[1]) && Printable(s[2])
              && ScanPacket(s) == ScanRest(s, UnToChar(s[1]), s[2], 6, if length > 1 then length - 1 else 0)
  {
    hide ScanRest, Check1, Sum;
  }

  /** In an extended packet, too. */
  lemma {:induction false} LongDamageIsNoticed(n: byte, kind: byte, data: seq<byte>, i: nat, b: byte)
    requires n < 224 && (|data| + 1) / 95 < 224
    requires var s := LongBody(n, kind, data) + [END_CHAR]; 0 < i < |s| && OneBit(s[i], b)
    ensures !TakenForIntact((LongBody(n, kind, data) + [END_CHAR])[i := b])
  {
    hide Check1, Sum, LongBody, ScanRest, LongHeader;
    var s, q := LongBody(n, kind, data) + [END_CHAR], 6 + |data|;
    var t := s[i := b];
    LongLayout(n, kind, data);
    HeaderIs(s, n, kind, |data|);
    if i < 5 {
      TextDiffers(s, i, b, 5);
    } else {
      assert t[..5] == s[..5];
    }
    if i < q {
      TextDiffers(s, i, b, q);
    } else {
      assert t[..q] == s[..q];
    }
    LongIsScanned(t);
    if i >= 6 && Printable(t[1]) && Printable(t[2]) {
      LongLength(|data|);
      IntactRest(t, UnToChar(t[1]), t[2], 6, |data|);
    }
  }

  // ---- how far a packet goes

  lemma {:induction false} DataEndOfPart(s: seq<byte>, t: seq<byte>, p: nat, count: nat)
    requires t <= s && p <= |t| && DataEnd(s, p, count) <= |t|
    ensures DataEnd(t, p, count) == DataEnd(s, p, count)
    decreases count
  {
    if count > 0 && p < |s| && Printable(s[p]) {
      DataEndOfPart(s, t, p + 1, count - 1);
    }
  }

  lemma RestEarliest(s: seq<byte>, n: byte, kind: byte, p: nat, count: nat)
    requires p <= |s| && ScanRest(s, n, kind, p, count).Got?
    ensures ScanRest(s[..ScanRest(s, n, kind, p, count).used - 1], n, kind, p, count).Waiting?
  {
    hide Check1, Sum;
    var q := DataEnd(s, p, count);
    var t := s[..ScanRest(s, n, kind, p, count).used - 1];
    DataEndOfPart(s, t, p, count);
    assert t[..q] == s[..q];
  }

  lemma LongOfPart(s: seq<byte>, t: seq<byte>, n: byte)
    requires t <= s && |t| >= 6
    requires Printable(s[3]) && Printable(s[4]) && Printable(s[5]) && s[5] == Check1(Sum(s[..5]))
    ensures var length := UnToChar(s[3]) * 95 + UnToChar(s[4]);
            ScanLong(t, n, s[2]) == ScanRest(t, n, s[2], 6, if length > 1 then length - 1 else 0)
  {
    hide Check1, Sum, ScanRest;
    assert t[..5] == s[..5];
  }

  /** The verdict comes with the first byte that allows it: with one byte less the receiver still waits. */
  lemma ScanIsEarliest(s: seq<byte>)
    requires ScanPacket(s).Got?
    ensures ScanPacket(s[..ScanPacket(s).used - 1]).Waiting?
  {
    hide Check1, Sum, ScanRest;
    if |s| >= 3 && Printable(s[0]) && Printable(s[1]) && Printable(s[2]) {
      var n, length := UnToChar(s[1]), UnToChar(s[0]) - 2;
      if length != -2 {
        RestEarliest(s, n, s[2], 3, if length > 1 then length - 1 else 0);
      } else if |s| >= 6 && Printable(s[3]) && Printable(s[4]) {
        var long := UnToChar(s[3]) * 95 + UnToChar(s[4]);
        assert s[..6][..5] == s[..5];
        if Printable(s[5]) && s[5] == Check1(Sum(s[..5])) {
          RestEarliest(s, n, s[2], 6, if long > 1 then long - 1 else 0);
          LongOfPart(s, s[..ScanPacket(s).used - 1], n);
        }
      }
    }
  }

  // ---- unfinished packets

  /** How many characters of the data are among the first ones of a packet. */
  function Clip(len: int, count: nat): nat {
    if len < 0 then 0 else if len > count then count else len
  }

  lemma AbsorbNothing(k: State, kind: byte)
    ensures Absorb(k, kind, []) == k
  {
  }

  lemma PartOfData(s: seq<byte>, p: nat, data: seq<byte>, len: nat)
    requires p <= len <= p + |data| + 1 <= |s| && s[p..p + |data|] == data
    requires forall i :: 0 <= i < |data| ==> Printable(data[i])
    ensures var part := s[..len];
            var q := DataEnd(part, p, |data|);
            part[p..q] == data[..Clip(len - p, |data|)]
  {
    var m := Clip(len - p, |data|);
    var part := s[..len];
    assert forall i :: p <= i < p + m ==> part[i] == data[i - p];
    assert part[p..p + m] == data[..m];
  }

  /** Behind the type, or in front of it. */
  lemma PendingHeader(k: State, s: seq<byte>, n: byte, count: nat)
    requires n < 224 && count + 3 < 224
    requires |s| >= 2 ==> s[0] == ToChar(count + 3) && s[1] == ToChar(n)
    ensures Pending(k, s) == if |s| < 2 then k else if |s| == 2 then Checkpoint(k, n)
                             else PendingRest(Checkpoint(k, n), s, s[2], 3, count)
  {
    hide PendingRest, PendingLong, Checkpoint;
    NumberBack(n);
  }

  lemma PendingLongHeader(k: State, s: seq<byte>, n: byte, count: nat)
    requires n < 224 && (count + 1) / 95 < 224
    requires |s| >= 2 ==> s[0] == ToChar(0) && s[1] == ToChar(n)
    requires |s| >= 6 ==> s[3] == ToChar((count + 1) / 95) && s[4] == ToChar((count + 1) % 95)
    ensures Pending(k, s) == if |s| < 2 then k else if |s| < 6 then Checkpoint(k, n)
                             else PendingRest(Checkpoint(k, n), s, s[2], 6, count)
  {
    hide PendingRest, Checkpoint;
    NumberBack(n);
    LongLength(count);
  }

  lemma PendingData(k: State, s: seq<byte>, kind: byte, p: nat, data: seq<byte>, len: nat)
    requires p <= len <= p + |data| + 1 <= |s| && s[p..p + |data|] == data
    requires forall i :: 0 <= i < |data| ==> Printable(data[i])
    ensures PendingRest(k, s[..len], kind, p, |data|) == Absorb(k, kind, data[..Clip(len - p, |data|)])
  {
    hide Absorb, DataEnd;
    PartOfData(s, p, data, len);
  }

  /** While a packet comes in, its number has made a checkpoint and the data have been absorbed as far as
      they are there. */
  lemma {:induction false} PendingIsPart(k: State, n: byte, kind: byte, data: seq<byte>, len: nat)
    requires n < 224 && |data| + 3 < 224 && len <= |data| + 4
    requires forall i :: 0 <= i < |data| ==> Printable(data[i])
    ensures Pending(k, (Body(n, kind, data) + [END_CHAR])[..len])
            == if len < 2 then k else Absorb(Checkpoint(k, n), kind, data[..Clip(len - 3, |data|)])
  {
    hide Body, Absorb, Checkpoint, Pending, PendingRest, Sum, Check1, ToChar, UnToChar;
    var s := Body(n, kind, data) + [END_CHAR];
    BodyLayout(n, kind, data);
    AbsorbNothing(Checkpoint(k, n), kind);
    PendingHeader(k, s[..len], n, |data|);
    if len >= 3 {
      PendingData(Checkpoint(k, n), s, kind, 3, data, len);
    }
  }

  lemma {:induction false} LongPendingIsPart(k: State, n: byte, kind: byte, data: seq<byte>, len: nat)
    requires n < 224 && (|data| + 1) / 95 < 224 && len <= |data| + 7
    requires forall i :: 0 <= i < |data| ==> Printable(data[i])
    ensures Pending(k, (LongBody(n, kind, data) + [END_CHAR])[..len])
            == if len < 2 then k else Absorb(Checkpoint(k, n), kind, data[..Clip(len - 6, |data|)])
  {
    hide LongBody, Absorb, Checkpoint, LongHeader, Pending, PendingRest, Sum, Check1, ToChar, UnToChar;
    var s := LongBody(n, kind, data) + [END_CHAR];
    LongLayout(n, kind, data);
    HeaderIs(s, n, kind, |data|);
    AbsorbNothing(Checkpoint(k, n), kind);
    PendingLongHeader(k, s[..len], n, |data|);
    if len >= 6 {
      PendingData(Checkpoint(k, n), s, kind, 6, data, len);
    }
  }
}
