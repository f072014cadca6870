/**
 The dotted-quad codec: the strict scanner inet_pton4, the printer inet_ntop4 and
 the lenient scanner inet_aton. A text is the sequence of characters before the
 terminating NUL of the C string.
 */
module Ipv4Text {
  import opened Basics
  import opened TextFields

  // ---------- decimal digit runs ----------

  predicate IsDigit(c: char) {
    '0' <= c <= '9'
  }

  function DigitValue(c: char): nat
    requires IsDigit(c)
  {
    c as int - '0' as int
  }

  predicate IsDecimal(s: string) {
    forall i :: 0 <= i < |s| ==> IsDigit(s[i])
  }

  function DecimalValue(s: string): nat
    requires IsDecimal(s)
  {
    if s == "" then 0 else 10 * DecimalValue(s[..|s| - 1]) + DigitValue(s[|s| - 1])
  }

  lemma {:induction false} DecimalSnoc(s: string, c: char)
    requires IsDecimal(s) && IsDigit(c)
    ensures IsDecimal(s + [c]) && DecimalValue(s + [c]) == 10 * DecimalValue(s) + DigitValue(c)
  {
    assert (s + [c])[..|s|] == s;
  }

  /** A digit run is worth at least as much as each of its prefixes. */
  lemma {:induction false} DecimalMonotone(p: string, s: string)
    requires p <= s && IsDecimal(s)
    ensures IsDecimal(p) && DecimalValue(p) <= DecimalValue(s)
  {
    if p != s {
      DecimalMonotone(p, s[..|s| - 1]);
    } else {
      assert p == s;
    }
  }

  /** The digits that `%u` prints. */
  function Decimal(n: nat): string {
    if n < 10 then [(n + '0' as int) as char] else Decimal(n / 10) + [(n % 10 + '0' as int) as char]
  }

  lemma {:induction false} DecimalRoundTrip(n: nat)
    ensures IsDecimal(Decimal(n)) && DecimalValue(Decimal(n)) == n && Decimal(n) != ""
  {
    if n >= 10 {
      DecimalRoundTrip(n / 10);
      DecimalSnoc(Decimal(n / 10), (n % 10 + '0' as int) as char);
    } else {
      assert Decimal(n)[..0] == "";
    }
  }

  // ---------- the strict dotted quad ----------

  predicate IsOctet(f: string) {
    f != "" && IsDecimal(f) && DecimalValue(f) <= 255
  }

  /** Four fields, each an octet. */
  function QuadOf(f: seq<string>): (r: Option<seq<Byte>>)
    ensures r.Some? ==> |r.value| == 4
  {
    if |f| == 4 && forall k :: 0 <= k < 4 ==> IsOctet(f[k])
    then Some(seq(4, k requires 0 <= k < 4 => DecimalValue(f[k])))
    else None
  }

  /** The address a text denotes: four non-empty digit runs between dots, each at most 255. */
  function DottedQuad(s: string): (r: Option<seq<Byte>>)
    ensures r.Some? ==> |r.value| == 4
  {
    QuadOf(Split(s, '.'))
  }

  /** What the scanner knows after a prefix whose fields are `f`: every field before
      the last is an octet stored in its cell, the last is a digit run being read. */
  ghost predicate Scanned4(f: seq<string>, tmp: seq<Byte>, sawDigit: bool, octets: int) {
    && 1 <= |f| <= 4 == |tmp|
    && (forall k :: 0 <= k < |f| - 1 ==> IsOctet(f[k]) && tmp[k] == DecimalValue(f[k]))
    && IsDecimal(f[|f| - 1]) && tmp[|f| - 1] == DecimalValue(f[|f| - 1])
    && (sawDigit <==> f[|f| - 1] != "")
    && octets == |f| - (if sawDigit then 0 else 1)
  }

  lemma {:induction false} ScanDigit(f: seq<string>, tmp: seq<Byte>, sawDigit: bool, octets: int, ch: char)
    requires Scanned4(f, tmp, sawDigit, octets) && IsDigit(ch)
    ensures ch != '.'
    ensures var l := f[|f| - 1] + [ch];
            var n := tmp[|f| - 1] * 10 + DigitValue(ch);
            && 0 <= tmp[|f| - 1] <= 255 && IsDecimal(l) && DecimalValue(l) == n
            && (n <= 255 ==> Scanned4(f[|f| - 1 := l], tmp[|f| - 1 := n], true, octets + if sawDigit then 0 else 1))
  {
    DecimalSnoc(f[|f| - 1], ch);
  }

  lemma {:induction false} ScanDot(f: seq<string>, tmp: seq<Byte>, octets: int)
    requires Scanned4(f, tmp, true, octets)
    ensures octets == |f|
    ensures octets < 4 ==> Scanned4(f + [""], tmp[|f| := 0], false, octets)
  {
  }

  /** Nothing that follows can repair a field that is complete and not an octet. */
  lemma {:induction false} BadField(p: string, r: string, k: nat)
    requires var f := Split(p, '.'); k < |f| - 1 && (k >= 4 || !IsOctet(f[k]))
    ensures DottedQuad(p + r).None?
  {
    SplitPrefix(p, r, '.');
    var f, g := Split(p, '.'), Split(p + r, '.');
    assert g[k] == g[..|f| - 1][k] == f[..|f| - 1][k];
  }

  /** Nothing that follows can repair a last field that is no digit run or already too large. */
  lemma {:induction false} BadLastField(p: string, r: string)
    requires var f := Split(p, '.'); var l := f[|f| - 1]; |f| > 4 || !IsDecimal(l) || DecimalValue(l) > 255
    ensures DottedQuad(p + r).None?
  {
    SplitPrefix(p, r, '.');
    var f, g := Split(p, '.'), Split(p + r, '.');
    var l, m := f[|f| - 1], g[|f| - 1];
    if |f| <= 4 && IsDecimal(m) {
      DecimalMonotone(l, m);
    }
  }

  lemma {:induction false} NotQuadCharacter(f: seq<string>, tmp: seq<Byte>, sawDigit: bool, octets: int, p: string,
      ch: char, r: string)
    requires f == Split(p, '.') && Scanned4(f, tmp, sawDigit, octets)
    requires !IsDigit(ch) && (ch != '.' || !sawDigit)
    ensures DottedQuad(p + [ch] + r).None?
  {
    SplitSnoc(p, ch, '.');
    var l := f[|f| - 1];
    if ch == '.' {
      BadField(p + [ch], r, |f| - 1);
    } else {
      assert !IsDigit((l + [ch])[|l|]);
      BadLastField(p + [ch], r);
    }
  }

  lemma {:induction false} ScanStart()
    ensures [""] == Split("", '.') && Scanned4([""], [0, 0, 0, 0], false, 0)
  {
  }

  /** Once the text is used up, the octet count decides. */
  lemma {:induction false} ScanEnd(src: string, f: seq<string>, tmp: seq<Byte>, sawDigit: bool, octets: int)
    requires f == Split(src, '.') && Scanned4(f, tmp, sawDigit, octets)
    ensures DottedQuad(src) == if octets < 4 then None else Some(tmp)
  {
    assert octets >= 4 ==> QuadOf(f).value == tmp;
  }

  /** The scanning loop of inet_pton4, over its four-byte buffer `tmp`. */
  method ScanQuad(src: string) returns (r: Option<seq<Byte>>)
    ensures r == DottedQuad(src)
  {
    hide *;
    var sawDigit, octets, tp := false, 0, 0;
    var tmp: seq<Byte> := [0, 0, 0, 0];
    var i := 0;
    ghost var f := [""];
    ScanStart();
    while i < |src|
      invariant 0 <= i <= |src|
      invariant f == Split(src[..i], '.') && |f| == tp + 1 <= 4 == |tmp|
      invariant Scanned4(f, tmp, sawDigit, octets)
    {
      var ch := src[i];
      ghost var p, rest := src[..i + 1], src[i + 1..];
      assert p == src[..i] + [ch] && src == p + rest;
      SplitSnoc(src[..i], ch, '.');
      if IsDigit(ch) {
        ScanDigit(f, tmp, sawDigit, octets, ch);
        f := f[tp := f[tp] + [ch]];
        var n := tmp[tp] * 10 + DigitValue(ch);
        if n > 255 {
          BadLastField(p, rest);
          return None;
        }
        tmp := tmp[tp := n];
        if !sawDigit {
          octets := octets + 1; // never the fifth: the source's test for that cannot fire
          sawDigit := true;
        }
      } else if ch == '.' && sawDigit {
        ScanDot(f, tmp, octets);
        f := f + [""];
        if octets == 4 {
          BadLastField(p, rest);
          return None;
        }
        tp := tp + 1;
        tmp := tmp[tp := 0];
        sawDigit := false;
      } else {
        NotQuadCharacter(f, tmp, sawDigit, octets, src[..i], ch, rest);
        return None;
      }
      i := i + 1;
    }
    assert src[..i] == src;
    ScanEnd(src, f, tmp, sawDigit, octets);
    if octets < 4 {
      return None;
    }
    r := Some(tmp);
  }

  /** inet_pton4. `dst` is written at `at` exactly when the text is a dotted quad. */
  method InetPton4(src: string, dst: array<Byte>, at: nat) returns (ok: bool)
    requires at + 4 <= dst.Length
    modifies dst
    ensures ok == DottedQuad(src).Some?
    ensures dst[..] == if ok then old(dst[..at]) + DottedQuad(src).value + old(dst[at + 4..]) else old(dst[..])
  {
    var r := ScanQuad(src);
    if r.None? {
      return false;
    }
    forall k | 0 <= k < 4 {
      dst[at + k] := r.value[k];
    }
    ok := true;
  }

  // ---------- the printer ----------

  function Texts(src: seq<Byte>): seq<string> {
    seq(|src|, i requires 0 <= i < |src| => Decimal(src[i]))
  }

  /** inet_ntop4: the four octets through the format "%u.%u.%u.%u". */
  function InetNtop4(src: seq<Byte>): string
    requires |src| == 4
  {
    Join(Texts(src), '.')
  }

  /** The scanner inverts the printer. */
  lemma {:induction false} RoundTrip4(src: seq<Byte>)
    requires |src| == 4
    ensures DottedQuad(InetNtop4(src)) == Some(src)
  {
    var f := Texts(src);
    forall i | 0 <= i < 4
      ensures '.' !in f[i] && IsOctet(f[i]) && DecimalValue(f[i]) == src[i]
    {
      DecimalRoundTrip(src[i]);
    }
    SplitJoin(f, '.');
    assert QuadOf(f).value == src;
  }

  lemma {:induction false} DecimalShort(n: nat)
    requires n <= 255
    ensures 1 <= |Decimal(n)| <= 3
  {
    assert n / 10 < 10 || Decimal(n / 10) == Decimal(n / 10 / 10) + [(n / 10 % 10 + '0' as int) as char];
  }

  /** A joined text is at most as long as its fields, bounded by `n` each, and their separators. */
  lemma {:induction false} JoinLength(f: seq<string>, n: nat, sep: char)
    requires |f| >= 1 && forall i :: 0 <= i < |f| ==> |f[i]| <= n
    ensures |Join(f, sep)| <= n * |f| + |f| - 1
  {
    if |f| > 1 {
      JoinLength(f[..|f| - 1], n, sep);
      assert n * |f| == n * (|f| - 1) + n;
    }
  }

  /** The printed quad fits the source's buffer, sized for "255.255.255.255". */
  lemma {:induction false} Ntop4Length(src: seq<Byte>)
    requires |src| == 4
    ensures |InetNtop4(src)| <= 15
  {
    forall i | 0 <= i < 4 ensures |Texts(src)[i]| <= 3 { DecimalShort(src[i]); }
    JoinLength(Texts(src), 3, '.');
  }

  /** Every text the strict scanner accepts is made of digits and dots only. */
  lemma {:induction false} QuadCharacters(s: string)
    requires DottedQuad(s).Some?
    ensures forall c :: c in s ==> IsDigit(c) || c == '.'
    ensures '.' in s
  {
    var f := Split(s, '.');
    JoinSplit(s, '.');
    JoinCharacters(f, '.');
    forall c | c in s
      ensures IsDigit(c) || c == '.'
    {
      if c != '.' {
        var k :| 0 <= k < 4 && c in f[k];
        assert IsOctet(f[k]);
      }
    }
    if '.' !in s {
      SplitSingle(s, '.');
      assert false;
    }
  }

  lemma {:induction false} JoinCharacters(f: seq<string>, sep: char)
    requires |f| >= 1
    ensures forall c :: c in Join(f, sep) ==> c == sep || exists k :: 0 <= k < |f| && c in f[k]
  {
    if |f| > 1 {
      var g := f[..|f| - 1];
      JoinCharacters(g, sep);
      forall c | c in Join(f, sep)
        ensures c == sep || exists k :: 0 <= k < |f| && c in f[k]
      {
        if c in Join(g, sep) && c != sep {
          var k :| 0 <= k < |g| && c in g[k];
          assert c in f[k];
        } else if c != sep {
          assert c in f[|f| - 1];
        }
      }
    } else {
      assert Join(f, sep) == f[0];
    }
  }

  // ---------- the lenient scanner ----------

  /** The range of the source's u_long accumulator: 32 bits, or 64 on an LP64 system. */
  function UlongRange(lp64: bool): nat {
    if lp64 then 0x1_0000_0000_0000_0000 else 0x1_0000_0000
  }

  function Wrap(x: nat, lp64: bool): nat {
    if lp64 then x % 0x1_0000_0000_0000_0000 else x % 0x1_0000_0000
  }

  /** A field inet_aton takes: digits, perhaps none, whose wrapped value is at most 255. */
  predicate IsLenient(f: string, lp64: bool)
  {
    IsDecimal(f) && Wrap(DecimalValue(f), lp64) <= 255
  }

  ghost predicate AllLenient(f: seq<string>, lp64: bool)
  {
    forall i :: 0 <= i < |f| ==> IsLenient(f[i], lp64)
  }

  /** The octets of a list of fields. */
  function Octets(f: seq<string>, lp64: bool): (v: seq<Byte>)
    requires AllLenient(f, lp64)
  {
    seq(|f|, i requires 0 <= i < |f| => Wrap(DecimalValue(f[i]), lp64))
  }

  function Zeros(n: nat): (z: seq<Byte>)
    ensures |z| == n && forall i :: 0 <= i < n ==> z[i] == 0
  {
    seq(n, i => 0)
  }

  /** What inet_aton makes of a text: one to four lenient fields, from the left, then zero octets. */
  ghost function Lenient(s: string, lp64: bool): (r: Option<seq<Byte>>)
  {
    var f := Split(s, '.');
    if |f| <= 4 && AllLenient(f, lp64) then Some(Octets(f, lp64) + Zeros(4 - |f|)) else None
  }

  /** The number whose base-256 digits are `v`. */
  function Big(v: seq<Byte>): nat {
    if v == [] then 0 else 256 * Big(v[..|v| - 1]) + v[|v| - 1]
  }

  lemma {:induction false} WrapMultiple(x: nat, k: nat, lp64: bool)
    ensures Wrap(x + k * UlongRange(lp64), lp64) == Wrap(x, lp64)
  {
    if lp64 {
      assert (x + k * 0x1_0000_0000_0000_0000) % 0x1_0000_0000_0000_0000 == x % 0x1_0000_0000_0000_0000;
    } else {
      assert (x + k * 0x1_0000_0000) % 0x1_0000_0000 == x % 0x1_0000_0000;
    }
  }

  /** Wrapping at every digit gives the wrapped value of the run. */
  lemma {:induction false} WrapDigit(a: nat, d: nat, lp64: bool)
    ensures Wrap(10 * Wrap(a, lp64) + d, lp64) == Wrap(10 * a + d, lp64)
  {
    var q := a / UlongRange(lp64);
    assert a == Wrap(a, lp64) + q * UlongRange(lp64);
    WrapMultiple(10 * Wrap(a, lp64) + d, 10 * q, lp64);
  }

  lemma {:induction false} OctetsSnoc(f: seq<string>, l: string, lp64: bool)
    requires AllLenient(f, lp64) && IsLenient(l, lp64)
    ensures AllLenient(f + [l], lp64) && Octets(f + [l], lp64) == Octets(f, lp64) + [Wrap(DecimalValue(l), lp64)]
    ensures Big(Octets(f + [l], lp64)) == 256 * Big(Octets(f, lp64)) + Wrap(DecimalValue(l), lp64)
  {
    BigSnoc(Octets(f, lp64), Wrap(DecimalValue(l), lp64));
    assert Octets(f + [l], lp64) == Octets(f, lp64) + [Wrap(DecimalValue(l), lp64)];
  }

  lemma {:induction false} BigSnoc(v: seq<Byte>, b: Byte)
    ensures Big(v + [b]) == 256 * Big(v) + b
  {
    assert (v + [b])[..|v|] == v;
  }

  /** Nothing that follows can repair a fifth field, a complete field that is not lenient,
      or a last field that is no digit run. */
  lemma {:induction false} LenientHopeless(p: string, r: string, k: nat, lp64: bool)
    requires var f := Split(p, '.'); k < |f| && (k >= 4 || !IsDecimal(f[k]) || (k < |f| - 1 && !IsLenient(f[k], lp64)))
    ensures Lenient(p + r, lp64).None?
  {
    hide Split, DecimalValue, Octets;
    SplitPrefix(p, r, '.');
    var f, g := Split(p, '.'), Split(p + r, '.');
    if k < 4 {
      if k < |f| - 1 {
        assert g[k] == g[..|f| - 1][k] == f[..|f| - 1][k];
      }
      if !IsDecimal(f[k]) {
        var j :| 0 <= j < |f[k]| && !IsDigit(f[k][j]);
        assert !IsDigit(g[k][j]);
      }
      assert !IsLenient(g[k], lp64);
    }
  }

  /** What inet_aton knows after a prefix whose fields are `f`. */
  ghost predicate ScannedLenient(f: seq<string>, dots: int, acc: int, addr: int, lp64: bool)
  {
    && |f| == dots + 1 && 0 <= dots <= 3
    && AllLenient(f[..dots], lp64) && addr == Big(Octets(f[..dots], lp64))
    && IsDecimal(f[dots]) && acc == Wrap(DecimalValue(f[dots]), lp64)
  }

  lemma {:induction false} LenientDigit(f: seq<string>, dots: int, acc: int, addr: int, lp64: bool, cc: char)
    requires ScannedLenient(f, dots, acc, addr, lp64) && IsDigit(cc)
    ensures cc != '.'
    ensures ScannedLenient(f[dots := f[dots] + [cc]], dots, Wrap(acc * 10 + DigitValue(cc), lp64), addr, lp64)
  {
    DecimalSnoc(f[dots], cc);
    WrapDigit(DecimalValue(f[dots]), DigitValue(cc), lp64);
    assert f[dots := f[dots] + [cc]][..dots] == f[..dots];
  }

  lemma {:induction false} LenientDot(f: seq<string>, dots: int, acc: int, addr: int, lp64: bool)
    requires ScannedLenient(f, dots, acc, addr, lp64) && acc <= 255
    ensures AllLenient(f, lp64) && addr * 256 + acc == Big(Octets(f, lp64))
    ensures dots < 3 ==> ScannedLenient(f + [""], dots + 1, 0, addr * 256 + acc, lp64)
  {
    OctetsSnoc(f[..dots], f[dots], lp64);
    assert f[..dots] + [f[dots]] == f == (f + [""])[..dots + 1];
    assert Wrap(DecimalValue(""), lp64) == 0;
  }

  /** Shifting by whole octets appends zero octets. */
  lemma {:induction false} BigZeros(v: seq<Byte>, n: nat)
    requires n <= 3
    ensures Big(v + Zeros(n))
         == Big(v) * (if n == 0 then 1 else if n == 1 then 0x100 else if n == 2 then 0x10000 else 0x1000000)
  {
    if n == 0 {
      assert v + Zeros(0) == v;
    } else {
      BigZeros(v, n - 1);
      BigSnoc(v + Zeros(n - 1), 0);
      assert v + Zeros(n) == (v + Zeros(n - 1)) + [0];
    }
  }

  lemma {:induction false} LenientStart(lp64: bool)
    ensures [""] == Split("", '.') && ScannedLenient([""], 0, 0, 0, lp64)
  {
  }

  /** s_addr as htonl lays it out: the four bytes of the number, highest first. */
  function NetworkOrder(addr: nat): seq<Byte> {
    [addr / 256 / 256 / 256 % 256, addr / 256 / 256 % 256, addr / 256 % 256, addr % 256]
  }

  lemma {:induction false} BigLast(v: seq<Byte>)
    requires v != []
    ensures Big(v) / 256 == Big(v[..|v| - 1]) && Big(v) % 256 == v[|v| - 1]
  {
  }

  lemma {:induction false} NetworkOrderBig(v: seq<Byte>)
    requires |v| == 4
    ensures NetworkOrder(Big(v)) == v
  {
    BigLast(v); BigLast(v[..3]); BigLast(v[..2]); BigLast(v[..1]);
    assert v[..3][..2] == v[..2] && v[..2][..1] == v[..1];
  }

  function Shifted(addr: nat, dots: int): nat {
    if dots >= 3 then addr
    else if dots == 2 then addr * 0x100
    else if dots == 1 then addr * 0x10000
    else addr * 0x1000000
  }

  /** The last field, the normalising shift and htonl together give the address. */
  lemma {:induction false} LenientEnd(cp: string, f: seq<string>, dots: int, acc: int, addr: nat, lp64: bool)
    requires f == Split(cp, '.') && ScannedLenient(f, dots, acc, addr, lp64)
    ensures acc > 255 ==> Lenient(cp, lp64).None?
    ensures 0 <= acc <= 255 ==> Lenient(cp, lp64) == Some(NetworkOrder(Shifted(addr * 256 + acc, dots)))
  {
    if acc <= 255 {
      LenientDot(f, dots, acc, addr, lp64);
      var v := Octets(f, lp64);
      BigZeros(v, 3 - dots);
      NetworkOrderBig(v + Zeros(3 - dots));
    }
  }

  /** inet_aton. The last field, which the source handles when its loop meets the
      terminator, is handled after the loop here. */
  method InetAton(cp: string, lp64: bool) returns (r: Option<seq<Byte>>)
    ensures r == Lenient(cp, lp64)
  {
    hide *;
    var dots, acc, addr := 0, 0, 0;
    var i := 0;
    ghost var f := [""];
    LenientStart(lp64);
    while i < |cp|
      invariant 0 <= i <= |cp| && addr >= 0 && acc >= 0
      invariant f == Split(cp[..i], '.') && |f| == dots + 1 <= 4
      invariant ScannedLenient(f, dots, acc, addr, lp64)
    {
      var cc := cp[i];
      ghost var p, rest := cp[..i + 1], cp[i + 1..];
      assert p == cp[..i] + [cc] && cp == p + rest;
      SplitSnoc(cp[..i], cc, '.');
      if IsDigit(cc) {
        LenientDigit(f, dots, acc, addr, lp64, cc);
        f := f[dots := f[dots] + [cc]];
        acc := Wrap(acc * 10 + DigitValue(cc), lp64);
      } else if cc == '.' {
        ghost var k := dots;
        dots := dots + 1;
        if dots > 3 {
          LenientHopeless(p, rest, 4, lp64);
          return None;
        }
        if acc > 255 {
          LenientTooLarge(f, k, acc, addr, lp64);
          LenientHopeless(p, rest, k, lp64);
          return None;
        }
        LenientDot(f, k, acc, addr, lp64);
        f := f + [""];
        addr := addr * 256 + acc;
        acc := 0;
      } else {
        NotDecimal(f[dots], cc);
        LenientHopeless(p, rest, dots, lp64);
        return None;
      }
      i := i + 1;
    }
    assert cp[..i] == cp;
    LenientEnd(cp, f, dots, acc, addr, lp64);
    if acc > 255 {
      return None;
    }
    addr := addr * 256 + acc;
    r := Some(NetworkOrder(Shifted(addr, dots)));
  }

  lemma {:induction false} LenientTooLarge(f: seq<string>, dots: int, acc: int, addr: int, lp64: bool)
    requires ScannedLenient(f, dots, acc, addr, lp64) && acc > 255
    ensures 0 <= dots < |f| && !IsLenient(f[dots], lp64)
  {
  }

  lemma {:induction false} NotDecimal(l: string, c: char)
    requires !IsDigit(c)
    ensures !IsDecimal(l + [c])
  {
    assert !IsDigit((l + [c])[|l|]);
  }

  /** A field is a strict octet exactly when it is lenient, non-empty and needs no wrapping. */
  lemma {:induction false} StrictField(f: string, lp64: bool)
    ensures && (IsOctet(f) <==> f != "" && IsLenient(f, lp64) && DecimalValue(f) < UlongRange(lp64))
            && (IsOctet(f) ==> Wrap(DecimalValue(f), lp64) == DecimalValue(f))
  {
  }

  /** Strict texts are exactly the lenient ones with four non-empty fields that need
      no wrapping, and both scanners give them the same address. */
  lemma {:induction false} StrictIsLenient(s: string, lp64: bool)
    ensures DottedQuad(s).Some? ==> Lenient(s, lp64) == DottedQuad(s)
    ensures var f := Split(s, '.');
            DottedQuad(s).Some? <==>
              && Lenient(s, lp64).Some?
              && |f| == 4
              && (forall i :: 0 <= i < 4 ==> f[i] != "" && DecimalValue(f[i]) < UlongRange(lp64))
  {
    var f := Split(s, '.');
    forall i | 0 <= i < |f|
      ensures IsOctet(f[i]) <==> f[i] != "" && IsLenient(f[i], lp64) && DecimalValue(f[i]) < UlongRange(lp64)
      ensures IsOctet(f[i]) ==> Wrap(DecimalValue(f[i]), lp64) == DecimalValue(f[i])
    {
      StrictField(f[i], lp64);
    }
    if DottedQuad(s).Some? {
      assert Octets(f, lp64) + Zeros(0) == QuadOf(f).value;
    }
  }

  /** One digit run is one lenient field if its wrapped value is an octet. */
  lemma {:induction false} SingleField(f: string, lp64: bool)
    requires IsDecimal(f) && Wrap(DecimalValue(f), lp64) <= 255
    ensures Lenient(f, lp64) == Some([Wrap(DecimalValue(f), lp64), 0, 0, 0]) && DottedQuad(f).None?
  {
    hide Split, DecimalValue;
    assert forall c :: c in f ==> IsDigit(c);
    SplitSingle(f, '.');
    assert AllLenient([f], lp64);
    assert Octets([f], lp64) == [Wrap(DecimalValue(f), lp64)];
    assert [Wrap(DecimalValue(f), lp64)] + Zeros(3) == [Wrap(DecimalValue(f), lp64), 0, 0, 0];
  }

  /** However many times the accumulator wraps, only what is left counts: every octet has
      infinitely many texts that inet_aton accepts for it and inet_pton4 does not. */
  lemma {:induction false} WrappingField(n: nat, k: nat, lp64: bool)
    requires n <= 255
    ensures Lenient(Decimal(n + k * UlongRange(lp64)), lp64) == Some([n, 0, 0, 0])
    ensures DottedQuad(Decimal(n + k * UlongRange(lp64))).None?
  {
    hide Lenient, Decimal, DecimalValue, DottedQuad, IsDecimal;
    var x := n + k * UlongRange(lp64);
    DecimalRoundTrip(x);
    WrapMultiple(n, k, lp64);
    SingleField(Decimal(x), lp64);
  }

  /** With a 32-bit u_long the text of 2^32 is the address 0.0.0.0. */
  lemma {:induction false} WrappingText()
    ensures Lenient("4294967296", false) == Some([0, 0, 0, 0]) && DottedQuad("4294967296").None?
  {
    hide Lenient, DecimalValue, DottedQuad, IsDecimal;
    NoDigits();
    DecimalSnoc("", '4');
    assert "" + ['4'] == "4";
    DecimalSnoc("4", '2');
    assert "4" + ['2'] == "42";
    DecimalSnoc("42", '9');
    assert "42" + ['9'] == "429";
    DecimalSnoc("429", '4');
    assert "429" + ['4'] == "4294";
    DecimalSnoc("4294", '9');
    assert "4294" + ['9'] == "42949";
    DecimalSnoc("42949", '6');
    assert "42949" + ['6'] == "429496";
    DecimalSnoc("429496", '7');
    assert "429496" + ['7'] == "4294967";
    DecimalSnoc("4294967", '2');
    assert "4294967" + ['2'] == "42949672";
    DecimalSnoc("42949672", '9');
    assert "42949672" + ['9'] == "429496729";
    DecimalSnoc("429496729", '6');
    assert "429496729" + ['6'] == "4294967296";
    SingleField("4294967296", false);
  }

  lemma {:induction false} NoDigits()
    ensures IsDecimal("") && DecimalValue("") == 0
  {
  }
}
