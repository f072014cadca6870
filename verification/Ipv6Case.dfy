/**
 Hexadecimal digits in both cases: inet_pton6 looks a digit up in a lower-case and then in an
 upper-case table, and takes its index. The case of letters never matters, and the printer
 writes lower case, without leading zeros.
 */
module Ipv6Case {
  import opened Basics
  import opened TextFields
  import opened Ipv4Text
  import opened Ipv6Text
  import opened Ipv6Standard

  const XDIGITS_L: string := "0123456789abcdef"
  const XDIGITS_U: string := "0123456789ABCDEF"

  // ---------- the value of a digit is its index in either table ----------

  lemma {:induction false} DigitTables(d: nat)
    requires d < 16
    ensures |XDIGITS_L| == |XDIGITS_U| == 16
    ensures IsHexDigit(XDIGITS_L[d]) && HexDigitValue(XDIGITS_L[d]) == d
    ensures IsHexDigit(XDIGITS_U[d]) && HexDigitValue(XDIGITS_U[d]) == d
  {
  }

  /** The tables hold all hexadecimal digits. */
  lemma {:induction false} OnlyTables(c: char)
    ensures IsHexDigit(c) <==> c in XDIGITS_L || c in XDIGITS_U
  {
    if IsHexDigit(c) {
      var d := HexDigitValue(c);
      DigitTables(d);
      assert c == XDIGITS_L[d] || c == XDIGITS_U[d];
    }
    if c in XDIGITS_L {
      var d :| 0 <= d < 16 && XDIGITS_L[d] == c;
      DigitTables(d);
    }
    if c in XDIGITS_U {
      var d :| 0 <= d < 16 && XDIGITS_U[d] == c;
      DigitTables(d);
    }
  }

  lemma {:induction false} OneDigit(c: char, d: nat)
    requires IsHexDigit(c) && HexDigitValue(c) == d && d < 16
    ensures Address("::" + [c]) == Some(Zeros(15) + [d])
  {
    hide Address, Place, HexValue;
    EmptyGroup();
    HexSnoc("", c);
    assert "" + [c] == [c];
    OneText([c]);
    assert GroupBytes([c]) == [0, d];
    LastByte(d);
  }

  lemma {:induction false} LastByte(d: Byte)
    ensures Place([], [0, d], true) == Some(Zeros(15) + [d])
  {
    assert [] + Zeros(14) + [0, d] == Zeros(15) + [d];
  }

  /** Every digit by itself, in either case, denotes fifteen zero bytes and its index. */
  lemma {:induction false} DigitText(d: nat)
    requires d < 16
    ensures |XDIGITS_L| == |XDIGITS_U| == 16
    ensures Address("::" + [XDIGITS_L[d]]) == Some(Zeros(15) + [d])
    ensures Address("::" + [XDIGITS_U[d]]) == Some(Zeros(15) + [d])
  {
    hide Address;
    DigitTables(d);
    OneDigit(XDIGITS_L[d], d);
    OneDigit(XDIGITS_U[d], d);
  }

  // ---------- the case of letters ----------

  function LowerChar(c: char): char {
    if 'A' <= c <= 'Z' then (c as int + 32) as char else c
  }

  function Lower(s: string): (t: string)
    ensures |t| == |s|
  {
    seq(|s|, i requires 0 <= i < |s| => LowerChar(s[i]))
  }

  function LowerAll(fs: seq<string>): (gs: seq<string>)
    ensures |gs| == |fs|
  {
    seq(|fs|, i requires 0 <= i < |fs| => Lower(fs[i]))
  }

  lemma {:induction false} LowerDigit(c: char)
    ensures IsHexDigit(LowerChar(c)) <==> IsHexDigit(c)
    ensures IsHexDigit(c) ==> HexDigitValue(LowerChar(c)) == HexDigitValue(c)
    ensures IsDigit(LowerChar(c)) || LowerChar(c) == '.' || LowerChar(c) == ':' ==> LowerChar(c) == c
    ensures IsDigit(c) || c == '.' || c == ':' ==> LowerChar(c) == c
  {
  }

  lemma {:induction false} LowerSnoc(s: string, c: char)
    ensures Lower(s + [c]) == Lower(s) + [LowerChar(c)]
  {
  }

  lemma {:induction false} HexLast(p: string, c: char)
    ensures IsHex(p + [c]) <==> IsHex(p) && IsHexDigit(c)
  {
    var s := p + [c];
    assert s[|p|] == c && forall i :: 0 <= i < |p| ==> s[i] == p[i];
  }

  lemma {:induction false} LowerHex(f: string)
    ensures IsHex(Lower(f)) <==> IsHex(f)
    ensures IsHex(f) ==> HexValue(Lower(f)) == HexValue(f)
  {
    hide HexValue, LowerChar, HexDigitValue, IsHexDigit;
    if f == "" {
      assert Lower(f) == "";
    } else {
      var p, c := f[..|f| - 1], f[|f| - 1];
      assert f == p + [c];
      LowerSnoc(p, c);
      LowerHex(p);
      LowerDigit(c);
      HexLast(p, c);
      HexLast(Lower(p), LowerChar(c));
      if IsHex(f) {
        HexSnoc(p, c);
        HexSnoc(Lower(p), LowerChar(c));
      }
    }
  }

  /** A quad has no letters. */
  lemma {:induction false} LowerQuad(f: string)
    ensures DottedQuad(Lower(f)) == DottedQuad(f)
  {
    hide DottedQuad, LowerChar;
    if DottedQuad(f).Some? || DottedQuad(Lower(f)).Some? {
      forall i | 0 <= i < |f|
        ensures Lower(f)[i] == f[i]
      {
        LowerDigit(f[i]);
        if DottedQuad(f).Some? {
          QuadCharacters(f);
          assert f[i] in f;
        } else {
          QuadCharacters(Lower(f));
          assert Lower(f)[i] in Lower(f);
        }
      }
      assert Lower(f) == f;
    }
  }

  lemma {:induction false} LowerGroup(f: string)
    ensures (Lower(f) == "" <==> f == "") && (IsGroup(Lower(f)) <==> IsGroup(f))
    ensures IsGroup(f) ==> GroupBytes(Lower(f)) == GroupBytes(f)
    ensures IsEnding(Lower(f)) <==> IsEnding(f)
    ensures IsEnding(f) ==> EndingBytes(Lower(f)) == EndingBytes(f)
  {
    hide IsHex, HexValue, DottedQuad, LowerChar;
    LowerHex(f);
    LowerQuad(f);
  }

  lemma {:induction false} LowerSplit(s: string)
    ensures Split(Lower(s), ':') == LowerAll(Split(s, ':'))
  {
    hide Split, LowerChar;
    if s == "" {
      assert Lower(s) == "";
      assert Split("", ':') == [""] by { ShortSplits(); }
      assert LowerAll([""]) == [""];
    } else {
      var p, c := s[..|s| - 1], s[|s| - 1];
      assert s == p + [c];
      LowerSnoc(p, c);
      LowerSplit(p);
      LowerDigit(c);
      SplitSnoc(p, c, ':');
      SplitSnoc(Lower(p), LowerChar(c), ':');
      var f := Split(p, ':');
      var n := |f| - 1;
      if c == ':' {
        assert Lower("") == "";
        assert LowerAll(f + [""]) == LowerAll(f) + [""];
      } else {
        LowerSnoc(f[n], c);
        assert LowerAll(f[n := f[n] + [c]]) == LowerAll(f)[n := Lower(f[n]) + [LowerChar(c)]];
      }
    }
  }

  lemma {:induction false} LowerGroups(fs: seq<string>)
    ensures AllGroups(LowerAll(fs)) <==> AllGroups(fs)
    ensures AllGroups(fs) ==> Groups(LowerAll(fs)) == Groups(fs)
  {
    hide IsGroup, GroupBytes, Lower, Groups;
    forall i | 0 <= i < |fs|
      ensures IsGroup(LowerAll(fs)[i]) <==> IsGroup(fs[i])
    {
      LowerGroup(fs[i]);
    }
    if AllGroups(fs) {
      if fs == [] {
        EmptyEnds();
        assert LowerAll(fs) == [];
      } else {
        var p, f := fs[..|fs| - 1], fs[|fs| - 1];
        assert fs == p + [f] && LowerAll(fs) == LowerAll(p) + [Lower(f)];
        LowerGroups(p);
        LowerGroup(f);
        GroupsSnoc(p, f);
        GroupsSnoc(LowerAll(p), Lower(f));
      }
    }
  }

  lemma {:induction false} LowerGap(fs: seq<string>, n: nat)
    requires n <= |fs|
    ensures FindGap(LowerAll(fs), n) == FindGap(fs, n)
  {
    if n > 0 {
      LowerGap(fs, n - 1);
    }
  }

  lemma {:induction false} LowerFormed(fs: seq<string>, gap: int)
    requires |fs| >= 1
    ensures WellFormed(LowerAll(fs), gap) <==> WellFormed(fs, gap)
  {
    hide IsGroup, IsEnding, Lower;
    var gs := LowerAll(fs);
    forall i | 0 <= i < |fs|
      ensures (gs[i] == "" <==> fs[i] == "") && (IsGroup(gs[i]) <==> IsGroup(fs[i]))
      ensures IsEnding(gs[i]) <==> IsEnding(fs[i])
    {
      LowerGroup(fs[i]);
    }
  }

  lemma {:induction false} LowerParts(fs: seq<string>, gap: int)
    requires |fs| >= 1 && WellFormed(fs, gap) && WellFormed(LowerAll(fs), gap)
    ensures Head(LowerAll(fs), gap) == Head(fs, gap) && Tail(LowerAll(fs), gap) == Tail(fs, gap)
  {
    hide IsGroup, IsEnding, EndingBytes, Lower, Groups, GroupBytes;
    var n, gs := |fs| - 1, LowerAll(fs);
    LowerGroup(fs[n]);
    LowerGroups(fs[gap + 1..n]);
    assert gs[gap + 1..n] == LowerAll(fs[gap + 1..n]);
    if gap >= 0 {
      LowerGroups(fs[..gap]);
      assert gs[..gap] == LowerAll(fs[..gap]);
    }
  }

  lemma {:induction false} LowerFields(fs: seq<string>)
    requires |fs| >= 1
    ensures FieldsAddress(LowerAll(fs)) == FieldsAddress(fs)
  {
    hide WellFormed, Head, Tail, Place, LowerAll, FindGap;
    var gap := FindGap(fs, |fs| - 1);
    LowerGap(fs, |fs| - 1);
    LowerFormed(fs, gap);
    if WellFormed(fs, gap) {
      LowerParts(fs, gap);
    }
  }

  /** The case of letters never matters to inet_pton6. */
  lemma {:induction false} CaseIgnored(s: string)
    ensures Address(Lower(s)) == Address(s)
  {
    hide Split, FieldsAddress, LowerChar, LowerAll;
    AddressOf(s);
    AddressOf(Lower(s));
    if s != "" {
      LowerDigit(s[0]);
      if |s| >= 2 {
        LowerDigit(s[1]);
      }
    }
    LowerSplit(s);
    LowerFields(Split(s, ':'));
    if s != "" {
      LowerSplit(s[1..]);
      LowerFields(Split(s[1..], ':'));
      assert Lower(s)[1..] == Lower(s[1..]);
    }
  }

  // ---------- what the printers write ----------

  /** A printed group is in lower case and has no leading zero. */
  lemma {:induction false} HexPlain(n: nat)
    ensures Lower(Hex(n)) == Hex(n) && Hex(n) != "" && (Hex(n)[0] == '0' ==> n == 0 && Hex(n) == "0")
  {
    HexRoundTrip(n);
    if n < 16 {
      assert Lower(Hex(n)) == Hex(n);
    } else {
      HexPlain(n / 16);
      LowerSnoc(Hex(n / 16), HexDigit(n % 16));
      assert Hex(n)[0] == Hex(n / 16)[0];
    }
  }

  /** A printed octet has no leading zero. */
  lemma {:induction false} DecimalPlain(n: nat)
    ensures Decimal(n) != "" && (Decimal(n)[0] == '0' ==> n == 0 && Decimal(n) == "0")
  {
    if n >= 10 {
      DecimalPlain(n / 10);
      assert Decimal(n)[0] == Decimal(n / 10)[0];
    }
  }

  /** A field of a printed address: the gap, a quad, or a plain group. */
  predicate PlainField(f: string) {
    f == "" || '.' in f || (Lower(f) == f && (f[0] == '0' ==> f == "0"))
  }

  lemma {:induction false} HexesPlain(w: seq<nat>, i: nat, j: nat)
    requires i <= j <= |w|
    ensures forall k :: 0 <= k < j - i ==> PlainField(Hexes(w, i, j)[k])
  {
    forall k | 0 <= k < j - i
      ensures PlainField(Hexes(w, i, j)[k])
    {
      HexPlain(w[i + k]);
    }
  }

  /** Every field inet_ntop6 writes is plain: lower case, and no leading zeros. */
  lemma {:induction false} PrintedPlain(b: seq<Byte>, run: Run, k: nat)
    requires |b| == 16 && (run.Run? ==> 1 <= run.len && run.base + run.len <= 8) && k < |PrintedFields(b, run)|
    ensures PlainField(PrintedFields(b, run)[k])
  {
    var w := Words(b);
    if run.NoRun? {
      HexesPlain(w, 0, 8);
    } else {
      HexesPlain(w, 0, run.base);
      HexesPlain(w, run.base + run.len, 8);
      if IsEmbedded(w, run) {
        HexesPlain(w, run.len, 6);
        QuadText(b[12..]);
      }
      hide Hexes, Words, PlainField, InetNtop4;
      assert PlainField("") && (IsEmbedded(w, run) ==> PlainField(InetNtop4(b[12..]))) by { GapAndQuad(b, w, run); }
    }
  }

  lemma {:induction false} GapAndQuad(b: seq<Byte>, w: seq<nat>, run: Run)
    requires |b| == 16 && |w| == 8 && (IsEmbedded(w, run) ==> '.' in InetNtop4(b[12..]))
    ensures PlainField("") && (IsEmbedded(w, run) ==> PlainField(InetNtop4(b[12..])))
  {
  }

  /** A printed address shows a gap exactly when two zero words stand together, and a quad
      exactly for ten zero bytes followed by two bytes of ones, or by two zero bytes and a
      word that is not zero. */
  lemma {:induction false} PrintedForms(b: seq<Byte>, run: Run)
    requires |b| == 16 && IsBest(Words(b), run)
    ensures run.Run? <==> exists i :: 0 <= i < 7 && Words(b)[i] == 0 && Words(b)[i + 1] == 0
    ensures IsEmbedded(Words(b), run) <==>
      && (forall i :: 0 <= i < 10 ==> b[i] == 0)
      && ((b[10] == 0xff && b[11] == 0xff) || (b[10] == 0 && b[11] == 0 && (b[12] != 0 || b[13] != 0)))
  {
    var w := Words(b);
    PairsOfZeros(w, run);
    FromLeft(w, run);
    forall j | 0 <= j < 8
      ensures w[j] <= 0xffff && w[j] / 256 == b[2 * j] && w[j] % 256 == b[2 * j + 1]
    {
      WordAt(b, j);
    }
    hide IsBest, Words, IsEmbedded;
    ZeroBytes(b, w);
  }

  lemma {:induction false} PairsOfZeros(w: seq<nat>, run: Run)
    requires |w| == 8 && IsBest(w, run)
    ensures run.Run? <==> exists i :: 0 <= i < 7 && w[i] == 0 && w[i + 1] == 0
  {
    if run.Run? {
      assert w[run.base] == 0 && w[run.base + 1] == 0;
    } else if i :| 0 <= i < 7 && w[i] == 0 && w[i + 1] == 0 {
      assert ZeroRun(w, i, 2);
    }
  }

  /** The embedded forms, on words. */
  lemma {:induction false} FromLeft(w: seq<nat>, run: Run)
    requires |w| == 8 && IsBest(w, run)
    ensures IsEmbedded(w, run) <==>
      && (forall i :: 0 <= i < 5 ==> w[i] == 0) && (w[5] == 0xffff || (w[5] == 0 && w[6] != 0))
  {
    if IsEmbedded(w, run) {
      assert run.len == 6 ==> !ZeroRun(w, 0, 7);
      assert w[run.base + 4] == 0;
    } else if (forall i :: 0 <= i < 5 ==> w[i] == 0) && (w[5] == 0xffff || (w[5] == 0 && w[6] != 0)) {
      assert ZeroRun(w, 0, 5);
      assert w[5] == 0 ==> ZeroRun(w, 0, 6);
    }
  }

  lemma {:induction false} ZeroBytes(b: seq<Byte>, w: seq<nat>)
    requires |b| == 16 && |w| == 8
    requires forall j :: 0 <= j < 8 ==> w[j] <= 0xffff && w[j] / 256 == b[2 * j] && w[j] % 256 == b[2 * j + 1]
    ensures (forall i :: 0 <= i < 5 ==> w[i] == 0) <==> (forall i :: 0 <= i < 10 ==> b[i] == 0)
    ensures (w[5] == 0xffff <==> b[10] == 0xff && b[11] == 0xff) && (w[5] == 0 <==> b[10] == 0 && b[11] == 0)
    ensures w[6] != 0 <==> b[12] != 0 || b[13] != 0
  {
    if forall i :: 0 <= i < 5 ==> w[i] == 0 {
      forall i | 0 <= i < 10
        ensures b[i] == 0
      {
        assert w[i / 2] == 0;
      }
    }
    if forall i :: 0 <= i < 10 ==> b[i] == 0 {
      forall i | 0 <= i < 5
        ensures w[i] == 0
      {
        assert b[2 * i] == 0 && b[2 * i + 1] == 0;
      }
    }
  }
}
