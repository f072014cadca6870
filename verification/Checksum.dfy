/**
 The Internet checksum of RFC 1071: in_cksum adds 16-bit words in a 32-bit accumulator
 and folds the carries at the end. The reference is the one's-complement sum, with its
 carry brought around after every word.
 */
module Checksum {
  import opened Basics

  /** How the machine lays out a 16-bit word. */
  datatype Order = Big | Little

  function Word(first: Byte, second: Byte, o: Order): (w: nat)
    ensures w <= 0xffff
  {
    if o == Big then first as int * 256 + second else second as int * 256 + first
  }

  /** The bytes of a word, in memory order. */
  function Stored(w: nat, o: Order): seq<Byte>
    requires w <= 0xffff
  {
    if o == Big then [w / 256, w % 256] else [w % 256, w / 256]
  }

  function WordAt(b: seq<Byte>, k: nat, o: Order): (w: nat)
    requires 2 * k < |b|
    ensures w <= 0xffff
  {
    Word(b[2 * k], if 2 * k + 1 < |b| then b[2 * k + 1] else 0, o)
  }

  /** The words of a buffer; an odd last byte counts as the first byte of a word. */
  function Words(b: seq<Byte>, o: Order): (ws: seq<nat>)
    ensures |ws| == (|b| + 1) / 2 && forall k :: 0 <= k < |ws| ==> ws[k] <= 0xffff
  {
    seq((|b| + 1) / 2, k requires 0 <= k < (|b| + 1) / 2 => WordAt(b, k, o))
  }

  function Sum(ws: seq<nat>): nat {
    if ws == [] then 0 else Sum(ws[..|ws| - 1]) + ws[|ws| - 1]
  }

  /** One's-complement addition: a carry out of the top comes back in at the bottom. */
  function OnesAdd(a: nat, b: nat): nat {
    if a + b > 0xffff then a + b - 0xffff else a + b
  }

  function OnesSum(ws: seq<nat>): nat {
    if ws == [] then 0 else OnesAdd(OnesSum(ws[..|ws| - 1]), ws[|ws| - 1])
  }

  /** The checksum a buffer should have. */
  function Cksum(b: seq<Byte>, o: Order): int {
    0xffff - OnesSum(Words(b, o))
  }

  // ---------- sums modulo 65535 ----------

  /** Zero for zero, otherwise the member of 1..65535 that is congruent modulo 65535. */
  function Canon(s: nat): (c: nat)
    ensures c <= 0xffff && (c == 0 <==> s == 0)
  {
    if s == 0 then 0 else (s - 1) % 65535 + 1
  }

  lemma {:induction false} CanonUnique(c: nat, s: nat, k: int)
    requires 1 <= c <= 0xffff && s > 0 && s == c + 65535 * k
    ensures Canon(s) == c
  {
    assert s - 1 == (c - 1) + 65535 * k;
  }

  lemma {:induction false} CanonForm(s: nat) returns (k: nat)
    ensures s == Canon(s) + 65535 * k
  {
    k := if s == 0 then 0 else (s - 1) / 65535;
  }

  lemma {:induction false} CanonAdd(s: nat, w: nat)
    requires w <= 0xffff
    ensures Canon(s + w) == OnesAdd(Canon(s), w)
  {
    var k := CanonForm(s);
    var c := OnesAdd(Canon(s), w);
    if c > 0 {
      CanonUnique(c, s + w, if Canon(s) + w > 0xffff then k + 1 else k);
    }
  }

  lemma {:induction false} OnesSumCanon(ws: seq<nat>)
    requires forall k :: 0 <= k < |ws| ==> ws[k] <= 0xffff
    ensures OnesSum(ws) == Canon(Sum(ws))
  {
    if ws != [] {
      hide Canon, OnesAdd;
      OnesSumCanon(ws[..|ws| - 1]);
      CanonAdd(Sum(ws[..|ws| - 1]), ws[|ws| - 1]);
    } else {
      assert Sum([]) == 0;
    }
  }

  /** The two folds at the end of in_cksum, and the truncation. */
  function Fold(sum: nat): nat {
    var s := sum / 0x10000 + sum % 0x10000;
    (s + s / 0x10000) % 0x10000
  }

  lemma {:induction false} FoldIsCanon(sum: nat)
    requires sum < 0x1_0000_0000
    ensures Fold(sum) == Canon(sum)
  {
    var hi, lo := sum / 0x10000, sum % 0x10000;
    var s := hi + lo;
    assert sum == s + 65535 * hi;
    if sum > 0 {
      if s < 0x10000 {
        assert s / 0x10000 == 0;
        CanonUnique(s, sum, hi);
      } else {
        assert s / 0x10000 == 1;
        CanonUnique(s - 65535, sum, hi + 1);
      }
    }
  }

  lemma {:induction false} SumBound(ws: seq<nat>)
    requires forall k :: 0 <= k < |ws| ==> ws[k] <= 0xffff
    ensures Sum(ws) <= 65535 * |ws|
  {
    if ws != [] {
      SumBound(ws[..|ws| - 1]);
    }
  }

  // ---------- in_cksum ----------

  lemma {:induction false} SumNext(ws: seq<nat>, k: nat)
    requires k < |ws|
    ensures Sum(ws[..k + 1]) == Sum(ws[..k]) + ws[k]
  {
    assert ws[..k + 1][..k] == ws[..k];
  }

  lemma {:induction false} Wrap32(s: nat, w: nat)
    ensures (s % 0x1_0000_0000 + w) % 0x1_0000_0000 == (s + w) % 0x1_0000_0000
  {
  }

  /** in_cksum with its 32-bit accumulator. It gives the checksum the buffer should have
      exactly when the true sum of its words fits 32 bits, for every length an int holds. */
  method InCksum(addr: seq<Byte>, o: Order) returns (answer: nat)
    ensures answer == 0xffff - Fold(Sum(Words(addr, o)) % 0x1_0000_0000)
    ensures |addr| < 0x8000_0000 ==> (answer == Cksum(addr, o) <==> Sum(Words(addr, o)) < 0x1_0000_0000)
    ensures |addr| <= 2 * 65537 ==> answer == Cksum(addr, o)
  {
    hide Fold, Sum, OnesSum;
    var nleft, sum, w := |addr|, 0, 0;
    ghost var ws := Words(addr, o);
    SumNone(ws);
    while nleft > 1
      invariant 0 <= nleft && 2 * w == |addr| - nleft && w <= |ws|
      invariant sum == Sum(ws[..w]) % 0x1_0000_0000
    {
      SumNext(ws, w);
      Wrap32(Sum(ws[..w]), ws[w]);
      sum := (sum + Word(addr[2 * w], addr[2 * w + 1], o)) % 0x1_0000_0000;
      w := w + 1;
      nleft := nleft - 2;
    }
    if nleft == 1 {
      SumNext(ws, w);
      Wrap32(Sum(ws[..w]), ws[w]);
      sum := (sum + Word(addr[2 * w], 0, o)) % 0x1_0000_0000;
      w := w + 1;
    }
    assert ws[..w] == ws;
    FoldRange(sum);
    answer := 0xffff - Fold(sum);
    WhenRight(addr, o);
  }

  lemma {:induction false} SumNone(ws: seq<nat>)
    ensures Sum(ws[..0]) == 0
  {
  }

  lemma {:induction false} FoldRange(sum: nat)
    ensures Fold(sum) <= 0xffff
  {
  }

  /** The wrapped sum has the same canonical form exactly when nothing was lost, as long as
      fewer than 65535 wraps are possible. */
  lemma {:induction false} WrapLoses(s: nat)
    requires s < 0x1_0000_0000 * 65535
    ensures Canon(s % 0x1_0000_0000) == Canon(s) <==> s < 0x1_0000_0000
  {
    var q, r := s / 0x1_0000_0000, s % 0x1_0000_0000;
    if s >= 0x1_0000_0000 {
      assert 1 <= q < 65535;
      var a := CanonForm(s);
      var b := CanonForm(r);
      assert s == r + q + 65535 * (65537 * q);
      assert Canon(s) - Canon(r) == q + 65535 * (65537 * q + b - a);
    }
  }

  lemma {:induction false} WhenRight(addr: seq<Byte>, o: Order)
    ensures var s := Sum(Words(addr, o)); var answer := 0xffff - Fold(s % 0x1_0000_0000);
            && (|addr| < 0x8000_0000 ==> (answer == Cksum(addr, o) <==> s < 0x1_0000_0000))
            && (|addr| <= 2 * 65537 ==> s < 0x1_0000_0000 && answer == Cksum(addr, o))
  {
    hide Fold, Sum, OnesSum, Canon;
    var ws := Words(addr, o);
    SumBound(ws);
    OnesSumCanon(ws);
    FoldIsCanon(Sum(ws) % 0x1_0000_0000);
    if |addr| < 0x8000_0000 {
      WrapLoses(Sum(ws));
    }
  }

  lemma {:induction false} AllOnes(ws: seq<nat>)
    requires forall k :: 0 <= k < |ws| ==> ws[k] == 0xffff
    ensures Sum(ws) == 65535 * |ws|
  {
    if ws != [] {
      AllOnes(ws[..|ws| - 1]);
    }
  }

  /** The shortest buffer whose sum wraps: 65538 words of ones. Its checksum is 0, and
      in_cksum returns 1. */
  method WrappedBuffer(o: Order) returns (addr: seq<Byte>, answer: nat)
    ensures |addr| == 2 * 65538 && forall i :: 0 <= i < |addr| ==> addr[i] == 0xff
    ensures Cksum(addr, o) == 0 && answer == 1
  {
    addr := seq(2 * 65538, i => 0xff);
    answer := InCksum(addr, o);
    WrappedSum(addr, o);
  }

  lemma {:induction false} WrappedSum(addr: seq<Byte>, o: Order)
    requires |addr| == 2 * 65538 && forall i :: 0 <= i < |addr| ==> addr[i] == 0xff
    ensures Cksum(addr, o) == 0 && 0xffff - Fold(Sum(Words(addr, o)) % 0x1_0000_0000) == 1
  {
    hide Sum, OnesSum;
    var ws := Words(addr, o);
    assert forall k :: 0 <= k < |ws| ==> ws[k] == 0xffff;
    AllOnes(ws);
    OnesSumCanon(ws);
    CanonUnique(0xffff, Sum(ws), 65537);
  }

  // ---------- storing the checksum ----------

  /** The buffer with a word stored at an even offset. */
  function Put(b: seq<Byte>, k: nat, v: nat, o: Order): (r: seq<Byte>)
    requires 2 * k + 1 < |b| && v <= 0xffff
    ensures |r| == |b|
  {
    b[2 * k := Stored(v, o)[0]][2 * k + 1 := Stored(v, o)[1]]
  }

  lemma {:induction false} PutWords(b: seq<Byte>, k: nat, v: nat, o: Order)
    requires 2 * k + 1 < |b| && v <= 0xffff
    ensures Words(Put(b, k, v, o), o) == Words(b, o)[k := v]
  {
    var c := Put(b, k, v, o);
    forall i | 0 <= i < (|b| + 1) / 2
      ensures WordAt(c, i, o) == if i == k then v else WordAt(b, i, o)
    {
    }
  }

  lemma {:induction false} SumUpdate(ws: seq<nat>, k: nat, v: nat)
    requires k < |ws|
    ensures Sum(ws[k := v]) == Sum(ws) - ws[k] + v
  {
    var n := |ws| - 1;
    if k < n {
      SumUpdate(ws[..n], k, v);
      assert ws[k := v][..n] == ws[..n][k := v];
    } else {
      assert ws[k := v][..n] == ws[..n];
    }
  }

  lemma {:induction false} Complement(s: nat, v: nat)
    requires v == 0xffff - Canon(s) || (Canon(s) == 0xffff && v == 0xffff)
    ensures Canon(s + v) == 0xffff
  {
    var k := CanonForm(s);
    CanonUnique(0xffff, s + v, if v == 0xffff - Canon(s) then k else k + 1);
  }

  /** A buffer whose checksum is stored in a field that was zero checks as 0, and so does
      one where a checksum of 0 is stored as 0xffff, as UDP does. */
  lemma {:induction false} StoredChecks(b: seq<Byte>, k: nat, o: Order)
    requires 2 * k + 1 < |b| && b[2 * k] == 0 && b[2 * k + 1] == 0
    ensures 0 <= Cksum(b, o) <= 0xffff && Cksum(Put(b, k, Cksum(b, o), o), o) == 0
    ensures Cksum(b, o) == 0 ==> Cksum(Put(b, k, 0xffff, o), o) == 0
  {
    var ws := Words(b, o);
    assert ws[k] == 0;
    hide Canon, Sum, OnesSum, Put, Words;
    OnesSumCanon(ws);
    FieldChecks(b, k, Cksum(b, o), o);
    if Cksum(b, o) == 0 {
      FieldChecks(b, k, 0xffff, o);
    }
  }

  lemma {:induction false} FieldChecks(b: seq<Byte>, k: nat, v: nat, o: Order)
    requires 2 * k + 1 < |b| && Words(b, o)[k] == 0 && v <= 0xffff
    requires var c := Canon(Sum(Words(b, o))); v == 0xffff - c || (c == 0xffff && v == 0xffff)
    ensures Cksum(Put(b, k, v, o), o) == 0
  {
    hide Canon, Sum, OnesSum, Put;
    PutWords(b, k, v, o);
    SumUpdate(Words(b, o), k, v);
    OnesSumCanon(Words(Put(b, k, v, o), o));
    Complement(Sum(Words(b, o)), v);
  }

  // ---------- byte order ----------

  function Swap(w: nat): (r: nat)
    requires w <= 0xffff
    ensures r <= 0xffff && r == 256 * w - 65535 * (w / 256) && (r == 0 <==> w == 0)
  {
    w % 256 * 256 + w / 256
  }

  lemma {:induction false} SwapWord(b: seq<Byte>, k: nat)
    requires k < (|b| + 1) / 2
    ensures Words(b, Big)[k] == Swap(Words(b, Little)[k])
  {
  }

  /** Swapping the bytes of every word multiplies the sum by 256, modulo 65535. */
  lemma {:induction false} SwapSum(b: seq<Byte>, n: nat) returns (k: nat)
    requires n <= (|b| + 1) / 2
    ensures Sum(Words(b, Big)[..n]) == 256 * Sum(Words(b, Little)[..n]) - 65535 * k
    ensures Sum(Words(b, Big)[..n]) == 0 <==> Sum(Words(b, Little)[..n]) == 0
  {
    hide Sum, Words, WordAt, Swap;
    if n == 0 {
      SumNone(Words(b, Big));
      SumNone(Words(b, Little));
      k := 0;
    } else {
      k := SwapSum(b, n - 1);
      SumNext(Words(b, Big), n - 1);
      SumNext(Words(b, Little), n - 1);
      SwapWord(b, n - 1);
      k := k + Words(b, Little)[n - 1] / 256;
    }
  }

  lemma {:induction false} SwapCanon(big: nat, little: nat, k: nat)
    requires big == 256 * little - 65535 * k && (big == 0 <==> little == 0)
    ensures Canon(big) == Swap(Canon(little))
  {
    var j := CanonForm(little);
    var c := Canon(little);
    if big > 0 {
      assert big == Swap(c) + 65535 * (c / 256 + 256 * j - k);
      CanonUnique(Swap(c), big, c / 256 + 256 * j - k);
    }
  }

  /** The checksum's two bytes do not depend on the byte order of the machine. */
  lemma {:induction false} OrderIndependent(b: seq<Byte>)
    ensures 0 <= Cksum(b, Big) <= 0xffff && 0 <= Cksum(b, Little) <= 0xffff
    ensures Stored(Cksum(b, Big), Big) == Stored(Cksum(b, Little), Little)
  {
    var x, y := Words(b, Big), Words(b, Little);
    OnesSumCanon(x);
    OnesSumCanon(y);
    var k := SwapSum(b, (|b| + 1) / 2);
    assert x[..|x|] == x && y[..|y|] == y;
    SwapCanon(Sum(x), Sum(y), k);
    SwapComplement(Canon(Sum(y)));
  }

  lemma {:induction false} SwapComplement(c: nat)
    requires c <= 0xffff
    ensures Stored(0xffff - Swap(c), Big) == Stored(0xffff - c, Little)
  {
    var h, l := c / 256, c % 256;
    assert Swap(c) == 256 * l + h;
    assert 0xffff - c == 256 * (255 - h) + (255 - l) && 0xffff - Swap(c) == 256 * (255 - l) + (255 - h);
  }

  /** An odd last byte counts as if a zero byte followed it. */
  lemma {:induction false} OddByte(b: seq<Byte>, o: Order)
    requires |b| % 2 == 1
    ensures Cksum(b, o) == Cksum(b + [0], o)
  {
    hide OnesSum;
    var c := b + [0];
    assert Words(b, o) == Words(c, o) by {
      forall k | 0 <= k < (|b| + 1) / 2
        ensures WordAt(b, k, o) == WordAt(c, k, o)
      {
      }
    }
  }

  /** A word is its bytes by place value, in the machine's order. */
  lemma {:induction false} WordBytes(first: Byte, second: Byte)
    ensures Word(first, second, Big) == 256 * first as int + second as int
    ensures Word(first, second, Little) == first as int + 256 * second as int
    ensures Stored(Word(first, second, Big), Big) == Stored(Word(first, second, Little), Little) == [first, second]
  {
  }
}
