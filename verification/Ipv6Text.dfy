/**
 The IPv6 text codec: the scanner inet_pton6 with its `::` gap, embedded dotted quad
 and in-place shift, and the printer inet_ntop6 with its longest zero run. The text
 format is the one of section 2.2 of RFC 4291.
 */
module Ipv6Text {
  import opened Basics
  import opened TextFields
  import opened Ipv4Text

  // ---------- hexadecimal groups ----------

  predicate IsHexDigit(c: char) {
    '0' <= c <= '9' || 'a' <= c <= 'f' || 'A' <= c <= 'F'
  }

  function HexDigitValue(c: char): (d: nat)
    requires IsHexDigit(c)
    ensures d < 16
  {
    if c <= '9' then c as int - '0' as int
    else if 'a' <= c then c as int - 'a' as int + 10
    else c as int - 'A' as int + 10
  }

  predicate IsHex(s: string) {
    forall i :: 0 <= i < |s| ==> IsHexDigit(s[i])
  }

  function HexValue(s: string): nat
    requires IsHex(s)
  {
    if s == "" then 0 else 16 * HexValue(s[..|s| - 1]) + HexDigitValue(s[|s| - 1])
  }

  lemma {:induction false} HexSnoc(s: string, c: char)
    requires IsHex(s) && IsHexDigit(c)
    ensures IsHex(s + [c]) && HexValue(s + [c]) == 16 * HexValue(s) + HexDigitValue(c)
  {
    assert (s + [c])[..|s|] == s;
  }

  lemma {:induction false} HexMonotone(p: string, s: string)
    requires p <= s && IsHex(s)
    ensures IsHex(p) && HexValue(p) <= HexValue(s)
  {
    if p != s {
      HexMonotone(p, s[..|s| - 1]);
    } else {
      assert p == s;
    }
  }

  function HexDigit(d: nat): (c: char)
    requires d < 16
    ensures IsHexDigit(c) && HexDigitValue(c) == d
  {
    if d < 10 then (d + '0' as int) as char else (d - 10 + 'a' as int) as char
  }

  /** The digits that `%x` prints. */
  function Hex(n: nat): string {
    if n < 16 then [HexDigit(n)] else Hex(n / 16) + [HexDigit(n % 16)]
  }

  lemma {:induction false} HexRoundTrip(n: nat)
    ensures IsHex(Hex(n)) && HexValue(Hex(n)) == n && Hex(n) != ""
  {
    if n >= 16 {
      HexRoundTrip(n / 16);
      HexSnoc(Hex(n / 16), HexDigit(n % 16));
    } else {
      assert Hex(n)[..0] == "";
    }
  }

  lemma {:induction false} HexShort(n: nat)
    requires n <= 0xffff
    ensures 1 <= |Hex(n)| <= 4
  {
    assert n < 16 || |Hex(n)| == |Hex(n / 16)| + 1;
    assert n / 16 < 16 || |Hex(n / 16)| == |Hex(n / 16 / 16)| + 1;
    assert n / 16 / 16 < 16 || |Hex(n / 16 / 16)| == |Hex(n / 16 / 16 / 16)| + 1;
  }

  /** A group of the address: hex digits, any number of them, worth at most 0xffff. */
  predicate IsGroup(f: string) {
    f != "" && IsHex(f) && HexValue(f) <= 0xffff
  }

  function GroupBytes(f: string): (b: seq<Byte>)
    requires IsGroup(f)
    ensures |b| == 2
  {
    [HexValue(f) / 256, HexValue(f) % 256]
  }

  ghost predicate AllGroups(fs: seq<string>) {
    forall i :: 0 <= i < |fs| ==> IsGroup(fs[i])
  }

  /** The bytes of a list of groups. */
  ghost function Groups(fs: seq<string>): (b: seq<Byte>)
    requires AllGroups(fs)
    ensures |b| == 2 * |fs|
  {
    if fs == [] then [] else Groups(fs[..|fs| - 1]) + GroupBytes(fs[|fs| - 1])
  }

  lemma {:induction false} GroupsSnoc(fs: seq<string>, f: string)
    requires AllGroups(fs) && IsGroup(f)
    ensures AllGroups(fs + [f]) && Groups(fs + [f]) == Groups(fs) + GroupBytes(f)
  {
    assert (fs + [f])[..|fs|] == fs;
  }

  // ---------- what a text denotes ----------

  /** The last field may also be empty or an embedded dotted quad. */
  predicate IsEnding(f: string) {
    f == "" || IsGroup(f) || DottedQuad(f).Some?
  }

  function EndingBytes(f: string): (b: seq<Byte>)
    requires IsEnding(f)
    ensures |b| <= 4
  {
    if f == "" then [] else if IsGroup(f) then GroupBytes(f) else DottedQuad(f).value
  }

  /** The fields before the last: groups, with at most one empty field, the gap, at
      index `gap`; -1 when there is none. */
  ghost predicate Before(fs: seq<string>, gap: int) {
    && -1 <= gap < |fs| - 1
    && (gap >= 0 ==> fs[gap] == "")
    && (forall i :: 0 <= i < |fs| - 1 && i != gap ==> IsGroup(fs[i]))
  }

  /** The fields of a text between colons. */
  ghost predicate WellFormed(fs: seq<string>, gap: int) {
    |fs| >= 1 && Before(fs, gap) && IsEnding(fs[|fs| - 1])
  }

  /** The bytes of the groups before the gap, and of those after it; without a gap all
      groups are after it. */
  ghost function Head(fs: seq<string>, gap: int): (b: seq<Byte>)
    requires |fs| >= 1 && Before(fs, gap)
    ensures |b| == if gap < 0 then 0 else 2 * gap
  {
    if gap < 0 then [] else Groups(fs[..gap])
  }

  ghost function Rest(fs: seq<string>, gap: int): (b: seq<Byte>)
    requires |fs| >= 1 && Before(fs, gap)
    ensures |b| == 2 * (|fs| - 2 - gap)
  {
    Groups(fs[gap + 1..|fs| - 1])
  }

  ghost function Tail(fs: seq<string>, gap: int): seq<Byte>
    requires WellFormed(fs, gap)
  {
    Rest(fs, gap) + EndingBytes(fs[|fs| - 1])
  }

  /** Sixteen bytes made of the two parts. A gap stands for the zero bytes that are
      missing; when none are missing it wipes the part behind it. */
  function Place(head: seq<Byte>, tail: seq<Byte>, gap: bool): (r: Option<seq<Byte>>)
    ensures r.Some? ==> |r.value| == 16
  {
    if |head| + |tail| > 16 || (!gap && |head| + |tail| < 16) then None
    else if !gap then Some(head + tail)
    else if |head| + |tail| == 16 then Some(head + Zeros(|tail|))
    else Some(head + Zeros(16 - |head| - |tail|) + tail)
  }

  /** The index of the first empty field among the first `n`, or -1. */
  function FindGap(fs: seq<string>, n: nat): (g: int)
    requires n <= |fs|
    ensures -1 <= g < n
    ensures g >= 0 ==> fs[g] == "" && forall i :: 0 <= i < g ==> fs[i] != ""
    ensures g < 0 ==> forall i :: 0 <= i < n ==> fs[i] != ""
  {
    if n == 0 then -1 else
      var g := FindGap(fs, n - 1);
      if g >= 0 then g else if fs[n - 1] == "" then n - 1 else -1
  }

  ghost function FieldsAddress(fs: seq<string>): (r: Option<seq<Byte>>)
    requires |fs| >= 1
    ensures r.Some? ==> |r.value| == 16
  {
    var gap := FindGap(fs, |fs| - 1);
    if WellFormed(fs, gap) then Place(Head(fs, gap), Tail(fs, gap), gap >= 0) else None
  }

  /** The address of a text. A leading colon must be doubled, and counts once. */
  ghost function Address(s: string): (r: Option<seq<Byte>>)
    ensures r.Some? ==> |r.value| == 16
  {
    if s != "" && s[0] == ':' then
      if |s| >= 2 && s[1] == ':' then FieldsAddress(Split(s[1..], ':')) else None
    else FieldsAddress(Split(s, ':'))
  }

  /** The gap is the only one possible. */
  lemma {:induction false} GapUnique(fs: seq<string>, gap: int)
    requires WellFormed(fs, gap)
    ensures FieldsAddress(fs) == Place(Head(fs, gap), Tail(fs, gap), gap >= 0)
  {
    hide Head, Tail, Place, IsHex, HexValue, DottedQuad;
    var g := FindGap(fs, |fs| - 1);
    assert g >= 0 ==> !IsGroup(fs[g]);
  }

  // ---------- why the scanner rejects ----------

  /** A field that is neither empty nor a group is fatal, unless it ends the text as a quad. */
  lemma {:induction false} BadGroup(fs: seq<string>, k: nat)
    requires k < |fs| && fs[k] != "" && !IsGroup(fs[k])
    requires k == |fs| - 1 ==> DottedQuad(fs[k]).None?
    ensures FieldsAddress(fs).None?
  {
  }

  /** A decimal run worth at most 255 is also small when read as hexadecimal. */
  lemma {:induction false} OctetAsHex(s: string)
    requires IsDecimal(s) && DecimalValue(s) <= 255
    ensures IsHex(s) && HexValue(s) <= 0xfff
  {
    DecimalAsHex(s, 3);
  }

  lemma {:induction false} DecimalAsHex(s: string, n: nat)
    requires n <= 3 && IsDecimal(s)
    requires DecimalValue(s) < (if n == 0 then 1 else if n == 1 then 10 else if n == 2 then 100 else 1000)
    ensures IsHex(s) && HexValue(s) < (if n == 0 then 1 else if n == 1 then 16 else if n == 2 then 256 else 4096)
  {
    if s != "" {
      var p, c := s[..|s| - 1], s[|s| - 1];
      assert s == p + [c];
      DecimalSnoc(p, c);
      DecimalAsHex(p, if n == 0 then 0 else n - 1);
      HexSnoc(p, c);
    }
  }

  /** No dotted quad starts with hex digits that the group limit rejects. */
  lemma {:induction false} NoQuadAfter(p: string, s: string)
    requires p <= s && p != "" && (IsHex(p) ==> HexValue(p) > 0xffff) && '.' !in p
    ensures DottedQuad(s).None?
  {
    var r := s[|p|..];
    assert s == p + r;
    SplitPrefix(p, r, '.');
    SplitSingle(p, '.');
    var first := Split(s, '.')[0];
    if IsOctet(first) {
      OctetAsHex(first);
      HexMonotone(p, first);
    }
  }

  /** The field in place k of a text that goes on after the prefix `p`. */
  ghost predicate Continues(p: string, fs: seq<string>, t: string, g: seq<string>) {
    && fs == Split(p, ':') && g == Split(t, ':')
    && |fs| <= |g| && fs[|fs| - 1] <= g[|fs| - 1]
    && (forall i :: 0 <= i < |fs| - 1 ==> g[i] == fs[i])
  }

  lemma {:induction false} PrefixContinues(p: string, r: string)
    ensures Continues(p, Split(p, ':'), p + r, Split(p + r, ':'))
  {
    hide Split;
    SplitPrefix(p, r, ':');
    var fs, g := Split(p, ':'), Split(p + r, ':');
    forall i | 0 <= i < |fs| - 1
      ensures g[i] == fs[i]
    {
      assert g[..|fs| - 1][i] == fs[..|fs| - 1][i];
    }
  }

  /** A group that outgrows 0xffff is fatal. */
  lemma {:induction false} RejectLargeGroup(p: string, r: string)
    requires var l := Split(p, ':')[|Split(p, ':')| - 1]; l != "" && IsHex(l) && HexValue(l) > 0xffff
    ensures FieldsAddress(Split(p + r, ':')).None?
  {
    hide Split, DottedQuad, HexValue, FieldsAddress;
    PrefixContinues(p, r);
    var fs, g := Split(p, ':'), Split(p + r, ':');
    var k := |fs| - 1;
    if IsHex(g[k]) {
      HexMonotone(fs[k], g[k]);
    }
    assert '.' !in fs[k];
    NoQuadAfter(fs[k], g[k]);
    BadGroup(g, k);
  }

  /** A character outside the alphabet is fatal. */
  lemma {:induction false} RejectCharacter(p: string, c: char, r: string)
    requires !IsHexDigit(c) && c != ':' && c != '.'
    ensures FieldsAddress(Split(p + [c] + r, ':')).None?
  {
    SplitSnoc(p, c, ':');
    PrefixContinues(p + [c], r);
    var fs, g := Split(p + [c], ':'), Split(p + [c] + r, ':');
    var k := |fs| - 1;
    assert c in fs[k] && c in g[k];
    if DottedQuad(g[k]).Some? {
      QuadCharacters(g[k]);
    }
    BadGroup(g, k);
  }

  /** A dot is fatal unless the rest of the text is a quad. `tok` starts the field. */
  lemma {:induction false} RejectDot(p: string, tok: nat, r: string)
    requires tok <= |p| && Split(p, ':')[|Split(p, ':')| - 1] == p[tok..]
    requires DottedQuad(p[tok..] + ['.'] + r).None?
    ensures FieldsAddress(Split(p + ['.'] + r, ':')).None?
  {
    SplitSnoc(p, '.', ':');
    PrefixContinues(p + ['.'], r);
    var fs, g := Split(p + ['.'], ':'), Split(p + ['.'] + r, ':');
    var k := |fs| - 1;
    assert '.' in fs[k] && '.' in g[k];
    SplitPrefix(p + ['.'], r, ':');
    if ':' !in r {
      SplitAppend(p + ['.'], r, ':');
      assert g[k] == p[tok..] + ['.'] + r;
    }
    BadGroup(g, k);
  }

  /** Two gaps are fatal. */
  lemma {:induction false} RejectSecondGap(p: string, gap: nat, val: nat, r: string)
    requires Scanned6(Split(p, ':'), gap, val, false)
    ensures FieldsAddress(Split(p + [':'] + r, ':')).None?
  {
    SplitSnoc(p, ':', ':');
    PrefixContinues(p + [':'], r);
    var fs, g := Split(p + [':'], ':'), Split(p + [':'] + r, ':');
    assert g[gap] == "" && g[|fs| - 2] == "";
    assert !IsGroup(g[gap]) && !IsGroup(g[|fs| - 2]);
  }

  lemma {:induction false} AddressLength(fs: seq<string>, gap: int)
    requires WellFormed(fs, gap)
    ensures |Head(fs, gap)| + |Tail(fs, gap)|
         == 2 * (|fs| - 1 - (if gap < 0 then 0 else 1)) + |EndingBytes(fs[|fs| - 1])|
  {
  }

  /** A ninth complete group, or an eighth one beside a gap that is already full, is fatal. */
  lemma {:induction false} RejectFull(p: string, gap: int, r: string)
    requires var fs := Split(p, ':');
             Before(fs, gap) && fs[|fs| - 1] != "" && |fs| - 1 - (if gap < 0 then 0 else 1) >= 8
    ensures FieldsAddress(Split(p + [':'] + r, ':')).None?
  {
    hide Split, DottedQuad, Head, Rest;
    SplitSnoc(p, ':', ':');
    PrefixContinues(p + [':'], r);
    var fs, g := Split(p, ':'), Split(p + [':'] + r, ':');
    assert forall i :: 0 <= i < |fs| ==> g[i] == fs[i];
    var found := FindGap(g, |g| - 1);
    if WellFormed(g, found) {
      assert forall i :: 0 <= i < |fs| - 1 && i != gap ==> IsGroup(g[i]);
      assert |g| - 1 - (if found < 0 then 0 else 1) >= 9;
      AddressLength(g, found);
      hide IsGroup, Before, IsEnding, EndingBytes, FindGap;
    }
  }

  // ---------- the scanner ----------

  /** What the scanner knows after a prefix whose fields are `fs`. */
  ghost predicate Scanned6(fs: seq<string>, gap: int, val: nat, sawXdigit: bool) {
    && |fs| >= 1 && Before(fs, gap)
    && var l := fs[|fs| - 1];
       IsHex(l) && HexValue(l) == val <= 0xffff && (sawXdigit <==> l != "")
  }

  /** The bytes stored so far. */
  ghost function Written(fs: seq<string>, gap: int): (b: seq<Byte>)
    requires |fs| >= 1 && Before(fs, gap)
    ensures |b| == 2 * (|fs| - 1 - (if gap < 0 then 0 else 1))
  {
    Head(fs, gap) + Rest(fs, gap)
  }

  ghost predicate Parsed(fs: seq<string>, gap: int, tmp: seq<Byte>, tp: int, colonp: int) {
    && WellFormed(fs, gap)
    && colonp == (if gap < 0 then -1 else |Head(fs, gap)|)
    && tp == |Head(fs, gap)| + |Tail(fs, gap)| <= 16
    && tmp == Head(fs, gap) + Tail(fs, gap) + Zeros(16 - tp)
  }

  lemma {:induction false} ReadStart()
    ensures [""] == Split("", ':') && Before([""], -1) && Scanned6([""], -1, 0, false) && Written([""], -1) == []
  {
  }

  /** The last field has no part in what is stored. */
  lemma {:induction false} ReplaceLast(fs: seq<string>, gap: int, l: string)
    requires |fs| >= 1 && Before(fs, gap)
    ensures var gs := fs[|fs| - 1 := l];
            Before(gs, gap) && Head(gs, gap) == Head(fs, gap) && Rest(gs, gap) == Rest(fs, gap)
  {
    hide Groups, IsGroup;
    var gs := fs[|fs| - 1 := l];
    assert Before(gs, gap);
    assert gs[gap + 1..|fs| - 1] == fs[gap + 1..|fs| - 1];
    assert gap >= 0 ==> gs[..gap] == fs[..gap];
  }

  lemma {:induction false} ReadHex(fs: seq<string>, gap: int, val: nat, sawXdigit: bool, c: char)
    requires Scanned6(fs, gap, val, sawXdigit) && IsHexDigit(c)
    ensures c != ':' && Before(fs[|fs| - 1 := fs[|fs| - 1] + [c]], gap)
    ensures var l := fs[|fs| - 1] + [c];
            var v := val * 16 + HexDigitValue(c);
            var gs := fs[|fs| - 1 := l];
            && IsHex(l) && HexValue(l) == v
            && (v <= 0xffff ==> Scanned6(gs, gap, v, true) && Written(gs, gap) == Written(fs, gap))
  {
    hide Before, Head, Rest, HexValue;
    HexSnoc(fs[|fs| - 1], c);
    ReplaceLast(fs, gap, fs[|fs| - 1] + [c]);
  }

  /** A colon after a colon opens the gap where the next byte would go. */
  lemma {:induction false} ReadGap(fs: seq<string>, val: nat)
    requires Scanned6(fs, -1, val, false)
    ensures val == 0 && Before(fs + [""], |fs| - 1) && Scanned6(fs + [""], |fs| - 1, 0, false)
    ensures Written(fs + [""], |fs| - 1) == Written(fs, -1) && |Written(fs, -1)| == 2 * (|fs| - 1)
  {
    var gs := fs + [""];
    assert gs[..|fs| - 1] == fs[0..|fs| - 1];
    assert gs[|fs|..|gs| - 1] == [];
  }

  lemma {:induction false} EmptyGroup()
    ensures IsHex("") && HexValue("") == 0
  {
  }

  lemma {:induction false} SliceSnoc(fs: seq<string>, x: string, i: nat)
    requires i < |fs|
    ensures (fs + [x])[i..|fs|] == fs[i..|fs| - 1] + [fs[|fs| - 1]]
    ensures (fs + [x])[..i] == fs[..i]
  {
  }

  /** A completed group joins the stored ones. */
  lemma {:induction false} RestSnoc(fs: seq<string>, gap: int)
    requires |fs| >= 1 && Before(fs, gap) && IsGroup(fs[|fs| - 1])
    ensures var gs := fs + [""];
            Before(gs, gap) && Head(gs, gap) == Head(fs, gap)
                && Rest(gs, gap) == Rest(fs, gap) + GroupBytes(fs[|fs| - 1])
  {
    hide IsGroup, Groups, GroupBytes;
    SliceSnoc(fs, "", gap + 1);
    if gap >= 0 {
      SliceSnoc(fs, "", gap);
    }
    assert Before(fs + [""], gap);
    GroupsSnoc(fs[gap + 1..|fs| - 1], fs[|fs| - 1]);
  }

  /** A colon after digits completes a group. */
  lemma {:induction false} ReadGroup(fs: seq<string>, gap: int, val: nat)
    requires Scanned6(fs, gap, val, true)
    ensures val <= 0xffff && fs[|fs| - 1] != "" && Before(fs + [""], gap) && Scanned6(fs + [""], gap, 0, false)
    ensures Written(fs + [""], gap) == Written(fs, gap) + [val / 256, val % 256]
  {
    hide Before, Head, Rest, HexValue, IsHex;
    EmptyGroup();
    assert IsGroup(fs[|fs| - 1]);
    RestSnoc(fs, gap);
  }

  /** The text ends after digits or after a colon. */
  lemma {:induction false} ReadEnd(fs: seq<string>, gap: int, val: nat, sawXdigit: bool, tmp: seq<Byte>, tp: int,
      colonp: int)
    requires Scanned6(fs, gap, val, sawXdigit) && colonp == if gap < 0 then -1 else 2 * gap
    requires var w := Written(fs, gap) + if sawXdigit then [val / 256, val % 256] else [];
             tp == |w| <= 16 && tmp == w + Zeros(16 - tp)
    ensures Parsed(fs, gap, tmp, tp, colonp)
  {
    hide Head, Rest;
    assert Tail(fs, gap) == Rest(fs, gap) + if sawXdigit then [val / 256, val % 256] else [];
  }

  lemma {:induction false} RejectLastFull(fs: seq<string>, gap: int, val: nat)
    requires Scanned6(fs, gap, val, true) && |Written(fs, gap)| + 2 > 16
    ensures FieldsAddress(fs).None?
  {
    hide Head, Rest;
    GapUnique(fs, gap);
    AddressLength(fs, gap);
  }

  /** The text ends with a quad that starts at the current field. */
  lemma {:induction false} ReadQuad(p: string, fs: seq<string>, gap: int, val: nat, sawXdigit: bool, tok: nat,
      r: string, tmp: seq<Byte>, tp: int, colonp: int)
    requires fs == Split(p, ':') && Scanned6(fs, gap, val, sawXdigit) && colonp == if gap < 0 then -1 else 2 * gap
    requires tok <= |p| && fs[|fs| - 1] == p[tok..] && DottedQuad(p[tok..] + r).Some?
    requires var w := Written(fs, gap) + DottedQuad(p[tok..] + r).value;
             tp == |w| <= 16 && tmp == w + Zeros(16 - tp)
    ensures Parsed(Split(p + r, ':'), gap, tmp, tp, colonp)
  {
    hide Before, Head, Rest, Split, DottedQuad;
    var q := p[tok..] + r;
    QuadCharacters(q);
    assert ':' !in r by {
      assert forall c :: c in r ==> c in q;
    }
    SplitAppend(p, r, ':');
    ReplaceLast(fs, gap, q);
    assert Tail(fs[|fs| - 1 := q], gap) == Rest(fs, gap) + DottedQuad(q).value;
  }

  /** The two stores through `tp`, high byte first; `w` are the bytes stored before. */
  method StoreWord(tmp: array<Byte>, tp: nat, val: nat, ghost w: seq<Byte>)
    requires tp + 2 <= 16 && val <= 0xffff && |w| == tp && tmp[..] == w + Zeros(16 - tp)
    modifies tmp
    ensures tmp[..] == w + [val / 256, val % 256] + Zeros(16 - tp - 2)
  {
    tmp[tp] := val / 256;
    tmp[tp + 1] := val % 256;
  }

  lemma {:induction false} StoreQuad(tmp: seq<Byte>, w: seq<Byte>, q: seq<Byte>)
    requires |w| + 4 <= 16 && |q| == 4 && tmp == w + Zeros(16 - |w|)
    ensures tmp[..|w|] + q + tmp[|w| + 4..] == w + q + Zeros(16 - |w| - 4)
  {
  }

  lemma {:induction false} RejectDotFull(p: string, gap: int, val: nat, sawXdigit: bool, r: string)
    requires var fs := Split(p, ':'); Scanned6(fs, gap, val, sawXdigit) && |Written(fs, gap)| + 4 > 16
    ensures FieldsAddress(Split(p + ['.'] + r, ':')).None?
  {
    hide Split, DottedQuad, Head, Rest;
    SplitSnoc(p, '.', ':');
    PrefixContinues(p + ['.'], r);
    var fs, g := Split(p, ':'), Split(p + ['.'] + r, ':');
    var k := |fs| - 1;
    assert '.' in g[k] by { assert (fs[k] + ['.'])[|fs[k]|] == '.'; }
    assert !IsGroup(g[k]);
    if k == |g| - 1 && DottedQuad(g[k]).Some? {
      assert WellFormed(g, gap);
      GapUnique(g, gap);
      AddressLength(g, gap);
    } else {
      BadGroup(g, k);
    }
  }

  /** The branch of inet_pton6 for a character that is neither a hex digit nor a colon. */
  method EmbeddedQuad(t: string, i: nat, curtok: nat, tmp: array<Byte>, tp: nat, ghost colonp: int,
                      ghost fs: seq<string>, ghost gap: int, ghost val: nat, ghost sawXdigit: bool) returns (ok: bool)
    requires curtok <= i < |t| && !IsHexDigit(t[i]) && t[i] != ':'
    requires fs == Split(t[..i], ':') && fs[|fs| - 1] == t[curtok..i]
    requires Before(fs, gap) && Scanned6(fs, gap, val, sawXdigit) && colonp == if gap < 0 then -1 else 2 * gap
    requires tp == |Written(fs, gap)| <= 16 && tmp[..] == Written(fs, gap) + Zeros(16 - tp)
    modifies tmp
    ensures !ok ==> FieldsAddress(Split(t, ':')).None?
    ensures ok ==> Parsed(Split(t, ':'), gap, tmp[..], tp + 4, colonp)
  {
    hide *;
    ghost var p, r := t[..i], t[i + 1..];
    assert t == p + [t[i]] + r;
    ok := false;
    if t[i] == '.' && tp + 4 <= 16 {
      assert t[curtok..] == p[curtok..] + (['.'] + r) == p[curtok..] + ['.'] + r && t == p + (['.'] + r);
      ghost var w, was := Written(fs, gap), tmp[..];
      ok := InetPton4(t[curtok..], tmp, tp);
      if ok {
        StoreQuad(was, w, DottedQuad(t[curtok..]).value);
        ReadQuad(p, fs, gap, val, sawXdigit, curtok, ['.'] + r, tmp[..], tp + 4, colonp);
      } else {
        RejectDot(p, curtok, r);
      }
    } else if t[i] == '.' {
      RejectDotFull(p, gap, val, sawXdigit, r);
    } else {
      RejectCharacter(p, t[i], r);
    }
  }

  /** The group that is still pending when the text ends. */
  method LastGroup(tmp: array<Byte>, tp: nat, ghost colonp: int,
                   ghost fs: seq<string>, ghost gap: int, val: nat, sawXdigit: bool) returns (ok: bool, end: nat)
    requires |fs| >= 1 && Before(fs, gap) && Scanned6(fs, gap, val, sawXdigit)
    requires colonp == if gap < 0 then -1 else 2 * gap
    requires tp == |Written(fs, gap)| <= 16 && tmp[..] == Written(fs, gap) + Zeros(16 - tp)
    modifies tmp
    ensures !ok ==> FieldsAddress(fs).None?
    ensures ok ==> Parsed(fs, gap, tmp[..], end, colonp)
  {
    hide *;
    end := tp;
    if sawXdigit {
      ReadGroup(fs, gap, val);
      if tp + 2 > 16 {
        RejectLastFull(fs, gap, val);
        return false, tp;
      }
      StoreWord(tmp, tp, val, Written(fs, gap));
      end := tp + 2;
    }
    ok := true;
    ReadEnd(fs, gap, val, sawXdigit, tmp[..], end, colonp);
  }

  /** The scanning loop of inet_pton6 over the text after a leading colon. `tmp` holds
      the bytes read so far, then zeros; `colonp` is -1 where the source has NULL. */
  method ScanFields(t: string, tmp: array<Byte>) returns (ok: bool, tp: nat, colonp: int, ghost gap: int)
    requires tmp[..] == Zeros(16)
    modifies tmp
    ensures !ok ==> FieldsAddress(Split(t, ':')).None?
    ensures ok ==> Parsed(Split(t, ':'), gap, tmp[..], tp, colonp)
  {
    hide *;
    var curtok, sawXdigit, val, i := 0, false, 0, 0;
    ok, tp, colonp, gap := false, 0, -1, -1;
    ghost var fs := [""];
    ReadStart();
    while i < |t|
      invariant 0 <= curtok <= i <= |t| && val >= 0 && -1 <= gap
      invariant fs == Split(t[..i], ':') && fs[|fs| - 1] == t[curtok..i]
      invariant Before(fs, gap) && Scanned6(fs, gap, val, sawXdigit)
      invariant tp == |Written(fs, gap)| <= 16 && tmp[..] == Written(fs, gap) + Zeros(16 - tp)
      invariant colonp == if gap < 0 then -1 else 2 * gap
    {
      var ch := t[i];
      ghost var p, r := t[..i], t[i + 1..];
      i := i + 1;
      assert t[..i] == p + [ch] && t == p + [ch] + r;
      SplitSnoc(p, ch, ':');
      if IsHexDigit(ch) {
        ReadHex(fs, gap, val, sawXdigit, ch);
        fs := fs[|fs| - 1 := fs[|fs| - 1] + [ch]];
        val := val * 16 + HexDigitValue(ch);
        if val > 0xffff {
          RejectLargeGroup(p + [ch], r);
          return;
        }
        sawXdigit := true;
      } else if ch == ':' {
        curtok := i;
        if !sawXdigit {
          if colonp >= 0 {
            RejectSecondGap(p, gap, val, r);
            return;
          }
          ReadGap(fs, val);
          colonp, gap := tp, |fs| - 1;
        } else {
          ReadGroup(fs, gap, val);
          if tp + 2 > 16 {
            RejectFull(p, gap, r);
            return;
          }
          StoreWord(tmp, tp, val, Written(fs, gap));
          tp := tp + 2;
          sawXdigit, val := false, 0;
        }
        fs := fs + [""];
      } else {
        ok := EmbeddedQuad(t, i - 1, curtok, tmp, tp, colonp, fs, gap, val, sawXdigit);
        tp := tp + 4;
        return;
      }
    }
    assert t[..i] == t;
    ok, tp := LastGroup(tmp, tp, colonp, fs, gap, val, sawXdigit);
  }

  /** The shift by hand: the bytes from the gap on move to the end of the buffer, from
      the last to the first, each leaving a zero behind. */
  method ShiftTail(tmp: array<Byte>, colonp: nat, tp: nat)
    requires tmp.Length == 16 && colonp <= tp <= 16
    requires tmp[tp..] == Zeros(16 - tp)
    modifies tmp
    ensures Some(tmp[..]) == Place(old(tmp[..colonp]), old(tmp[colonp..tp]), true)
  {
    var n := tp - colonp;
    ghost var was := tmp[..];
    assert forall j :: tp <= j < 16 ==> tmp[j] == tmp[tp..][j - tp];
    var i := 1;
    while i <= n
      invariant 1 <= i <= n + 1
      invariant forall j :: 0 <= j <= tp - i ==> tmp[j] == was[j]
      invariant forall j :: tp - i < j <= 16 - i ==> tmp[j] == 0
      invariant tp < 16 ==> forall j :: 16 - i < j < 16 ==> tmp[j] == was[j - (16 - tp)]
      invariant tp == 16 ==> forall j :: 16 - i < j < 16 ==> tmp[j] == 0
    {
      tmp[16 - i] := tmp[colonp + n - i];
      tmp[colonp + n - i] := 0;
      i := i + 1;
    }
    ShiftedPlace(was, tmp[..], colonp, tp);
  }

  lemma {:induction false} ShiftedPlace(was: seq<Byte>, now: seq<Byte>, colonp: nat, tp: nat)
    requires |was| == |now| == 16 && colonp <= tp <= 16
    requires forall j :: 0 <= j < colonp ==> now[j] == was[j]
    requires tp < 16 ==>
      forall j :: colonp <= j < 16 ==> now[j] == if j < colonp + 16 - tp then 0 else was[j - (16 - tp)]
    requires tp == 16 ==> forall j :: colonp <= j < 16 ==> now[j] == 0
    ensures Some(now) == Place(was[..colonp], was[colonp..tp], true)
  {
    if tp < 16 {
      assert now == was[..colonp] + Zeros(16 - tp) + was[colonp..tp];
    } else {
      assert now == was[..colonp] + Zeros(tp - colonp);
    }
  }

  /** inet_pton6. `dst` is written exactly when the text denotes an address. */
  method InetPton6(src: string, dst: array<Byte>) returns (ok: bool)
    requires dst.Length == 16
    modifies dst
    ensures ok == Address(src).Some?
    ensures dst[..] == if ok then Address(src).value else old(dst[..])
  {
    hide *;
    AddressOf(src);
    var t := src;
    if src != "" && src[0] == ':' {
      if |src| < 2 || src[1] != ':' {
        return false;
      }
      t := src[1..];
    }
    var tmp := new Byte[16](_ => 0);
    assert tmp[..] == Zeros(16);
    var scanned, tp, colonp;
    ghost var gap;
    scanned, tp, colonp, gap := ScanFields(t, tmp);
    if !scanned {
      return false;
    }
    ParsedAddress(Split(t, ':'), gap, tmp[..], tp, colonp);
    if colonp >= 0 {
      assert tmp[tp..] == Zeros(16 - tp) by { assert tmp[tp..] == tmp[..][tp..]; }
      assert tmp[..colonp] == tmp[..][..colonp] && tmp[colonp..tp] == tmp[..][colonp..tp];
      ShiftTail(tmp, colonp, tp);
      tp := 16;
    }
    if tp != 16 {
      return false;
    }
    forall i | 0 <= i < 16 {
      dst[i] := tmp[i];
    }
    ok := true;
    assert dst[..] == tmp[..];
  }

  lemma {:induction false} AddressOf(s: string)
    ensures s != "" && s[0] == ':' && (|s| < 2 || s[1] != ':') ==> Address(s).None?
    ensures s != "" && s[0] == ':' && |s| >= 2 && s[1] == ':' ==> Address(s) == FieldsAddress(Split(s[1..], ':'))
    ensures s == "" || s[0] != ':' ==> Address(s) == FieldsAddress(Split(s, ':'))
  {
  }

  /** What remains to be done with the parsed bytes. */
  lemma {:induction false} ParsedAddress(fs: seq<string>, gap: int, tmp: seq<Byte>, tp: nat, colonp: int)
    requires |fs| >= 1 && Parsed(fs, gap, tmp, tp, colonp)
    ensures |tmp| == 16 && tp <= 16 && tmp[tp..] == Zeros(16 - tp)
    ensures colonp >= 0 ==> colonp <= tp && FieldsAddress(fs) == Place(tmp[..colonp], tmp[colonp..tp], true)
    ensures colonp >= 0 ==> FieldsAddress(fs).Some?
    ensures colonp < 0 ==> FieldsAddress(fs) == if tp == 16 then Some(tmp) else None
  {
    GapUnique(fs, gap);
    hide Head, Tail;
    assert colonp >= 0 ==> tmp[..colonp] == Head(fs, gap) && tmp[colonp..tp] == Tail(fs, gap);
    if colonp < 0 && tp == 16 {
      assert Head(fs, gap) == [] && tmp == Head(fs, gap) + Tail(fs, gap);
    }
  }

  // ---------- the printer ----------

  datatype Run = NoRun | Run(base: nat, len: nat)

  ghost predicate ZeroRun(w: seq<nat>, base: int, len: int) {
    0 <= base && 1 <= len && base + len <= |w| && forall i :: base <= i < base + len ==> w[i] == 0
  }

  /** The leftmost of the longest zero runs, if one of at least two words exists;
      this is also the choice section 4.2 of RFC 5952 asks for. */
  ghost predicate IsBest(w: seq<nat>, r: Run) {
    match r
    case NoRun => forall a, k :: ZeroRun(w, a, k) ==> k < 2
    case Run(base, len) =>
      ZeroRun(w, base, len) && len >= 2 && Dominates(w, base, len, |w|)
  }

  /** No zero run inside the first n words is longer, or as long and further left. */
  ghost predicate Dominates(w: seq<nat>, base: int, len: int, n: int) {
    forall a, k :: ZeroRun(w, a, k) && a + k <= n ==> k < len || (k == len && base <= a)
  }

  lemma {:induction false} BestUnique(w: seq<nat>, r: Run, q: Run)
    requires IsBest(w, r) && IsBest(w, q)
    ensures r == q
  {
    if r.Run? {
      assert ZeroRun(w, r.base, r.len);
    }
    if q.Run? {
      assert ZeroRun(w, q.base, q.len);
    }
  }

  /** What is known while looking for the run: `cur` is the open run that ends at i, `best`
      beats every run before it. A base of -1 means none. */
  ghost predicate Searching(w: seq<nat>, i: int, bestBase: int, bestLen: int, curBase: int, curLen: int) {
    && 0 <= i <= |w|
    && (curBase == -1 ==> i == 0 || w[i - 1] != 0)
    && (curBase != -1 ==> ZeroRun(w, curBase, curLen) && curBase + curLen == i && (curBase == 0 || w[curBase - 1] != 0))
    && var done := if curBase == -1 then i else curBase;
       && (bestBase != -1 ==>
             ZeroRun(w, bestBase, bestLen) && bestBase + bestLen <= done && Dominates(w, bestBase, bestLen, done))
       && (bestBase == -1 ==> forall a, k :: ZeroRun(w, a, k) ==> a + k > done)
  }

  lemma {:induction false} SearchZero(w: seq<nat>, i: int, bb: int, bl: int, cb: int, cl: int)
    requires Searching(w, i, bb, bl, cb, cl) && i < |w| && w[i] == 0
    ensures cb == -1 ==> Searching(w, i + 1, bb, bl, i, 1)
    ensures cb != -1 ==> Searching(w, i + 1, bb, bl, cb, cl + 1)
  {
  }

  lemma {:induction false} InZeroRun(w: seq<nat>, a: int, k: int, x: nat)
    requires ZeroRun(w, a, k) && x < |w|
    ensures a <= x < a + k ==> w[x] == 0
  {
  }

  /** Every zero run that ends by i ends before the open run or lies inside it. */
  lemma {:induction false} SearchClose(w: seq<nat>, i: int, bb: int, bl: int, cb: int, cl: int)
    requires Searching(w, i, bb, bl, cb, cl) && cb != -1
    ensures bb == -1 || cl > bl ==> ZeroRun(w, cb, cl) && Dominates(w, cb, cl, i)
    ensures bb != -1 && cl <= bl ==> Dominates(w, bb, bl, i)
  {
    forall a, k | ZeroRun(w, a, k) && a + k <= i
      ensures (a >= cb && k <= cl) || a + k <= cb
    {
      if cb > 0 {
        InZeroRun(w, a, k, cb - 1);
      }
    }
  }

  lemma {:induction false} SearchNonZero(w: seq<nat>, i: int, bb: int, bl: int, cb: int, cl: int)
    requires Searching(w, i, bb, bl, cb, cl) && i < |w| && w[i] != 0
    ensures cb == -1 ==> Searching(w, i + 1, bb, bl, -1, cl)
    ensures cb != -1 && (bb == -1 || cl > bl) ==> Searching(w, i + 1, cb, cl, -1, cl)
    ensures cb != -1 && !(bb == -1 || cl > bl) ==> Searching(w, i + 1, bb, bl, -1, cl)
  {
    if cb != -1 {
      SearchClose(w, i, bb, bl, cb, cl);
    }
    forall a, k | ZeroRun(w, a, k)
      ensures a + k != i + 1
    {
      assert w[a + k - 1] == 0;
    }
  }

  lemma {:induction false} SearchEnd(w: seq<nat>, bb: int, bl: int, cb: int, cl: int)
    requires Searching(w, |w|, bb, bl, cb, cl)
    ensures var b := if cb != -1 && (bb == -1 || cl > bl) then cb else bb;
            var l := if cb != -1 && (bb == -1 || cl > bl) then cl else bl;
            b >= -1 && IsBest(w, if b != -1 && l >= 2 then Run(b, l) else NoRun)
  {
    if cb != -1 {
      SearchClose(w, |w|, bb, bl, cb, cl);
    }
  }

  /** The search for the run to be written as `::`. */
  method FindRun(words: array<nat>) returns (run: Run)
    requires words.Length == 8
    ensures IsBest(words[..], run)
  {
    hide *;
    var bestBase, bestLen, curBase, curLen := -1, 0, -1, 0;
    ghost var w := words[..];
    SearchStart(w);
    for i := 0 to 8
      invariant Searching(w, i, bestBase, bestLen, curBase, curLen)
    {
      if words[i] == 0 {
        SearchZero(w, i, bestBase, bestLen, curBase, curLen);
        if curBase == -1 {
          curBase, curLen := i, 1;
        } else {
          curLen := curLen + 1;
        }
      } else {
        SearchNonZero(w, i, bestBase, bestLen, curBase, curLen);
        if curBase != -1 {
          if bestBase == -1 || curLen > bestLen {
            bestBase, bestLen := curBase, curLen;
          }
          curBase := -1;
        }
      }
    }
    SearchEnd(w, bestBase, bestLen, curBase, curLen);
    if curBase != -1 {
      if bestBase == -1 || curLen > bestLen {
        bestBase, bestLen := curBase, curLen;
      }
    }
    if bestBase != -1 && bestLen < 2 {
      bestBase := -1;
    }
    run := if bestBase == -1 then NoRun else Run(bestBase, bestLen);
  }

  lemma {:induction false} SearchStart(w: seq<nat>)
    ensures Searching(w, 0, -1, 0, -1, 0)
  {
  }

  /** The sixteen bytes as eight words. */
  function Words(b: seq<Byte>): (w: seq<nat>)
    requires |b| == 16
    ensures |w| == 8
  {
    seq(8, i requires 0 <= i < 8 => b[2 * i] as int * 256 + b[2 * i + 1])
  }

  /** The loop that copies the bytes into words. */
  method FillWords(src: seq<Byte>) returns (words: array<nat>)
    requires |src| == 16
    ensures fresh(words) && words[..] == Words(src)
  {
    words := new nat[8](_ => 0);
    for i := 0 to 16
      invariant forall k :: 0 <= k < i / 2 ==> words[k] == Words(src)[k]
      invariant i % 2 == 1 ==> words[i / 2] == src[i - 1] as int * 256
      invariant forall k :: (i + 1) / 2 <= k < 8 ==> words[k] == 0
    {
      words[i / 2] := words[i / 2] + src[i] as int * (if i % 2 == 0 then 256 else 1);
    }
    assert words[..] == Words(src);
  }

  function Hexes(w: seq<nat>, i: nat, j: nat): (f: seq<string>)
    requires i <= j <= |w|
    ensures |f| == j - i
  {
    seq(j - i, k requires 0 <= k < j - i => Hex(w[i + k]))
  }

  /** An embedded IPv4 address: six zero words, or five and 0xffff, from the left. */
  predicate IsEmbedded(w: seq<nat>, run: Run)
    requires |w| == 8
  {
    run.Run? && run.base == 0 && (run.len == 6 || (run.len == 5 && w[5] == 0xffff))
  }

  /** The fields between the colons of the printed text. */
  function PrintedFields(b: seq<Byte>, run: Run): (f: seq<string>)
    requires |b| == 16 && (run.Run? ==> 1 <= run.len && run.base + run.len <= 8)
  {
    var w := Words(b);
    match run
    case NoRun => Hexes(w, 0, 8)
    case Run(base, len) =>
      Hexes(w, 0, base) + [""] +
      if IsEmbedded(w, run) then Hexes(w, len, 6) + [InetNtop4(b[12..])]
      else if base + len == 8 then [""]
      else Hexes(w, base + len, 8)
  }

  /** The printed text: a run at the very start costs one more colon. */
  function Printed(b: seq<Byte>, run: Run): string
    requires |b| == 16 && (run.Run? ==> 1 <= run.len && run.base + run.len <= 8)
  {
    assert |PrintedFields(b, run)| >= 1;
    (if run.Run? && run.base == 0 then ":" else "") + Join(PrintedFields(b, run), ':')
  }

  // ---------- the round trip ----------

  /** Printed groups give back the bytes of their words. */
  lemma {:induction false} GroupsOfHexes(b: seq<Byte>, i: nat, j: nat)
    requires |b| == 16 && i <= j <= 8
    ensures AllGroups(Hexes(Words(b), i, j)) && Groups(Hexes(Words(b), i, j)) == b[2 * i..2 * j]
  {
    hide *;
    if i < j {
      GroupsOfHexes(b, i, j - 1);
      WordGroup(b, j - 1);
      GroupsSnoc(Hexes(Words(b), i, j - 1), Hex(Words(b)[j - 1]));
      HexesSnoc(Words(b), i, j - 1);
      SliceJoin(b, 2 * i, 2 * (j - 1), 2 * j);
    } else {
      EmptyEnds();
      assert Hexes(Words(b), i, j) == [];
    }
  }

  lemma {:induction false} SliceJoin(b: seq<Byte>, i: nat, j: nat, k: nat)
    requires i <= j <= k <= |b|
    ensures b[i..j] + b[j..k] == b[i..k]
  {
  }

  lemma {:induction false} HexesSnoc(w: seq<nat>, i: nat, j: nat)
    requires i <= j < |w|
    ensures Hexes(w, i, j + 1) == Hexes(w, i, j) + [Hex(w[j])]
  {
    hide Hex;
  }

  lemma {:induction false} WordAt(b: seq<Byte>, j: nat)
    requires |b| == 16 && j < 8
    ensures Words(b)[j] <= 0xffff && Words(b)[j] / 256 == b[2 * j] && Words(b)[j] % 256 == b[2 * j + 1]
  {
  }

  lemma {:induction false} WordGroup(b: seq<Byte>, j: nat)
    requires |b| == 16 && j < 8
    ensures IsGroup(Hex(Words(b)[j])) && GroupBytes(Hex(Words(b)[j])) == b[2 * j..2 * (j + 1)]
  {
    hide Hex, HexValue, IsHex, Words;
    HexRoundTrip(Words(b)[j]);
    WordAt(b, j);
    assert b[2 * j..2 * (j + 1)] == [b[2 * j], b[2 * j + 1]];
  }

  lemma {:induction false} HexFree(n: nat)
    ensures ':' !in Hex(n)
  {
    HexRoundTrip(n);
  }

  lemma {:induction false} HexesFree(w: seq<nat>, i: nat, j: nat)
    requires i <= j <= |w|
    ensures Free(Hexes(w, i, j), ':')
  {
    forall k | 0 <= k < j - i ensures ':' !in Hexes(w, i, j)[k] { HexFree(w[i + k]); }
  }

  lemma {:induction false} QuadFree(b: seq<Byte>)
    requires |b| == 4
    ensures ':' !in InetNtop4(b)
  {
    RoundTrip4(b);
    QuadCharacters(InetNtop4(b));
  }

  lemma {:induction false} PrintedFree(b: seq<Byte>, run: Run)
    requires |b| == 16 && (run.Run? ==> 1 <= run.len && run.base + run.len <= 8)
    ensures |PrintedFields(b, run)| >= 1 && Free(PrintedFields(b, run), ':')
  {
    hide InetNtop4, Hexes;
    var w := Words(b);
    QuadFree(b[12..]);
    match run {
      case NoRun => HexesFree(w, 0, 8);
      case Run(base, len) =>
        HexesFree(w, 0, base);
        HexesFree(w, base + len, 8);
        if IsEmbedded(w, run) {
          HexesFree(w, len, 6);
        }
    }
  }

  /** The shape of a printed list with a gap: groups, the gap, groups and an ending. */
  lemma {:induction false} GapFields(h: seq<string>, m: seq<string>, e: string)
    requires AllGroups(h) && AllGroups(m) && IsEnding(e)
    ensures var fs := h + [""] + m + [e];
            && WellFormed(fs, |h|)
            && Head(fs, |h|) == Groups(h) && Tail(fs, |h|) == Groups(m) + EndingBytes(e)
  {
    hide Groups, IsGroup, IsEnding;
    var fs := h + [""] + m + [e];
    assert fs[..|h|] == h && fs[|h| + 1..|fs| - 1] == m;
    forall i | 0 <= i < |fs| - 1 && i != |h|
      ensures IsGroup(fs[i])
    {
      assert fs[i] == if i < |h| then h[i] else m[i - |h| - 1];
    }
  }

  lemma {:induction false} GroupEnds(f: string)
    requires IsGroup(f)
    ensures IsEnding(f) && EndingBytes(f) == GroupBytes(f)
  {
  }

  /** The groups between the gap and the ending, and the ending, of a printed text. */
  ghost function Middle(b: seq<Byte>, run: Run): seq<string>
    requires |b| == 16 && run.Run? && 1 <= run.len && run.base + run.len <= 8
  {
    var w, e := Words(b), run.base + run.len;
    if IsEmbedded(w, run) then Hexes(w, e, 6) else if e == 8 then [] else Hexes(w, e, 7)
  }

  ghost function Ending(b: seq<Byte>, run: Run): string
    requires |b| == 16 && run.Run? && 1 <= run.len && run.base + run.len <= 8
  {
    var w, e := Words(b), run.base + run.len;
    if IsEmbedded(w, run) then InetNtop4(b[12..]) else if e == 8 then "" else Hex(w[7])
  }

  lemma {:induction false} PrintedShape(b: seq<Byte>, run: Run)
    requires |b| == 16 && run.Run? && 1 <= run.len && run.base + run.len <= 8
    ensures PrintedFields(b, run) == Hexes(Words(b), 0, run.base) + [""] + Middle(b, run) + [Ending(b, run)]
  {
    hide Hexes, Words, InetNtop4, Hex;
    var w, e := Words(b), run.base + run.len;
    if !IsEmbedded(w, run) && e < 8 {
      HexesSnoc(w, e, 7);
    }
  }

  /** After the gap come exactly the bytes behind the run. */
  lemma {:induction false} PrintedTail(b: seq<Byte>, run: Run)
    requires |b| == 16 && run.Run? && 1 <= run.len && run.base + run.len <= 8
    ensures AllGroups(Middle(b, run)) && IsEnding(Ending(b, run))
    ensures Groups(Middle(b, run)) + EndingBytes(Ending(b, run)) == b[2 * (run.base + run.len)..]
  {
    hide Hexes, Words, InetNtop4, Hex, Groups, IsGroup, IsEnding, EndingBytes, AllGroups, GroupBytes;
    var w, e := Words(b), run.base + run.len;
    assert b[2 * e..] == b[2 * e..16];
    if IsEmbedded(w, run) {
      GroupsOfHexes(b, e, 6);
      QuadEnds(b[12..]);
      SliceJoin(b, 2 * e, 12, 16);
    } else if e < 8 {
      GroupsOfHexes(b, e, 7);
      WordGroup(b, 7);
      GroupEnds(Hex(w[7]));
      SliceJoin(b, 2 * e, 14, 16);
    } else {
      EmptyEnds();
    }
  }

  lemma {:induction false} EmptyEnds()
    ensures AllGroups([]) && Groups([]) == [] && IsEnding("") && EndingBytes("") == []
  {
  }

  lemma {:induction false} QuadEnds(q: seq<Byte>)
    requires |q| == 4
    ensures IsEnding(InetNtop4(q)) && EndingBytes(InetNtop4(q)) == q
  {
    RoundTrip4(q);
    var s := InetNtop4(q);
    QuadCharacters(s);
    assert !IsGroup(s);
  }

  lemma {:induction false} FieldsRoundTripGap(b: seq<Byte>, run: Run)
    requires |b| == 16 && run.Run? && ZeroRun(Words(b), run.base, run.len)
    ensures |PrintedFields(b, run)| >= 1 && FieldsAddress(PrintedFields(b, run)) == Some(b)
  {
    hide *;
    RunBytes(b, run);
    PrintedShape(b, run);
    PrintedTail(b, run);
    GroupsOfHexes(b, 0, run.base);
    var h, m, e := Hexes(Words(b), 0, run.base), Middle(b, run), Ending(b, run);
    GapFields(h, m, e);
    GapUnique(h + [""] + m + [e], run.base);
    assert b[2 * 0..2 * run.base] == b[..2 * run.base];
    PlaceRun(b, 2 * run.base, 2 * (run.base + run.len));
  }

  lemma {:induction false} RunBytes(b: seq<Byte>, run: Run)
    requires |b| == 16 && run.Run? && ZeroRun(Words(b), run.base, run.len)
    ensures 1 <= run.len && run.base + run.len <= 8
    ensures b[2 * run.base..2 * (run.base + run.len)] == Zeros(2 * run.len)
  {
    forall j | 2 * run.base <= j < 2 * (run.base + run.len)
      ensures b[j] == 0
    {
      assert Words(b)[j / 2] == 0;
    }
  }

  lemma {:induction false} PlaceRun(b: seq<Byte>, i: nat, j: nat)
    requires |b| == 16 && i < j <= 16 && b[i..j] == Zeros(j - i)
    ensures Place(b[..i], b[j..], true) == Some(b)
  {
    assert b == b[..i] + b[i..j] + b[j..];
  }

  lemma {:induction false} FieldsRoundTripFull(b: seq<Byte>)
    requires |b| == 16
    ensures FieldsAddress(PrintedFields(b, NoRun)) == Some(b)
  {
    hide Hexes, Words, Hex, Groups, IsGroup, FieldsAddress;
    var w := Words(b);
    var fs := Hexes(w, 0, 8);
    GroupsOfHexes(b, 0, 7);
    GroupsOfHexes(b, 0, 8);
    WordGroup(b, 7);
    GroupEnds(Hex(w[7]));
    HexesSnoc(w, 0, 7);
    assert fs[0..7] == Hexes(w, 0, 7);
    assert WellFormed(fs, -1);
    GapUnique(fs, -1);
    SliceJoin(b, 0, 14, 16);
    assert b[0..16] == b && [] + b == b;
    assert Head(fs, -1) == [] && Tail(fs, -1) == b;
  }

  lemma {:induction false} JoinStart(f: seq<string>, sep: char)
    requires |f| >= 1
    ensures f[0] <= Join(f, sep)
    ensures |f| >= 2 ==> f[0] + [sep] <= Join(f, sep)
  {
    if |f| > 2 {
      JoinStart(f[..|f| - 1], sep);
    } else if |f| == 2 {
      assert f[..1][0] == f[0];
    }
  }

  /** The scanner inverts the printer on every address, whatever run it picks. */
  lemma {:induction false} RoundTrip6(b: seq<Byte>, run: Run)
    requires |b| == 16 && IsBest(Words(b), run)
    ensures Address(Printed(b, run)) == Some(b)
  {
    hide PrintedFields, Words, Split, FieldsAddress, Join;
    PrintedFree(b, run);
    var fs := PrintedFields(b, run);
    var t := Join(fs, ':');
    SplitJoin(fs, ':');
    JoinStart(fs, ':');
    if run.NoRun? {
      FieldsRoundTripFull(b);
    } else {
      FieldsRoundTripGap(b, run);
    }
    PrintedFirst(b, run);
    if run.Run? && run.base == 0 {
      assert (":" + t)[1..] == t;
    } else {
      assert "" + t == t;
    }
  }

  /** A text starts with a colon exactly when the run is at the start. */
  lemma {:induction false} PrintedFirst(b: seq<Byte>, run: Run)
    requires |b| == 16 && (run.Run? ==> 1 <= run.len && run.base + run.len <= 8)
    ensures var fs := PrintedFields(b, run);
            if run.Run? && run.base == 0 then |fs| >= 2 && fs[0] == ""
            else |fs| >= 1 && fs[0] != "" && fs[0][0] != ':'
  {
    var w := Words(b);
    if run.NoRun? || run.base > 0 {
      HexRoundTrip(w[0]);
      assert PrintedFields(b, run)[0] == Hex(w[0]);
    } else {
      hide Hexes, Words, InetNtop4, Hex;
      PrintedShape(b, run);
    }
  }

  // ---------- the printing loop ----------

  /** The text after the first i words have been visited. */
  ghost function Partial(w: seq<nat>, run: Run, i: nat): string
    requires |w| == 8 && i <= 8 && (run.Run? ==> 1 <= run.len && run.base + run.len <= 8)
  {
    if run.NoRun? || i <= run.base then
      if i == 0 then "" else Join(Hexes(w, 0, i), ':')
    else
      var e := run.base + run.len;
      (if run.base == 0 then ":" else "") +
      Join(Hexes(w, 0, run.base) + [""] + Hexes(w, e, if i < e then e else i), ':')
  }

  lemma {:induction false} JoinSnoc(f: seq<string>, x: string, sep: char)
    requires |f| >= 1
    ensures Join(f + [x], sep) == Join(f, sep) + [sep] + x
  {
    assert (f + [x])[..|f|] == f;
  }

  lemma {:induction false} PartialGroup(w: seq<nat>, run: Run, i: nat)
    requires |w| == 8 && i < 8 && (run.Run? ==> 1 <= run.len && run.base + run.len <= 8)
    requires run.Run? ==> i < run.base || i >= run.base + run.len
    ensures Partial(w, run, i + 1) == Partial(w, run, i) + (if i != 0 then ":" else "") + Hex(w[i])
  {
    hide Join, Hex;
    if run.NoRun? || i < run.base {
      HexesSnoc(w, 0, i);
      if i == 0 {
        assert Hexes(w, 0, 1) == [Hex(w[0])];
        JoinOne(Hex(w[0]), ':');
        assert "" + "" + Hex(w[0]) == Hex(w[0]);
      } else {
        JoinSnoc(Hexes(w, 0, i), Hex(w[i]), ':');
      }
    } else {
      var e := run.base + run.len;
      HexesSnoc(w, e, i);
      var f := Hexes(w, 0, run.base) + [""] + Hexes(w, e, i);
      assert Hexes(w, 0, run.base) + [""] + (Hexes(w, e, i) + [Hex(w[i])]) == f + [Hex(w[i])];
      JoinSnoc(f, Hex(w[i]), ':');
    }
  }

  lemma {:induction false} JoinOne(x: string, sep: char)
    ensures Join([x], sep) == x
  {
  }

  lemma {:induction false} PartialRun(w: seq<nat>, run: Run, i: nat)
    requires |w| == 8 && run.Run? && 1 <= run.len && run.base + run.len <= 8
    requires run.base <= i < run.base + run.len
    ensures Partial(w, run, i + 1) == Partial(w, run, i) + if i == run.base then ":" else ""
  {
    hide Join, Hex;
    var e := run.base + run.len;
    var h := Hexes(w, 0, run.base);
    assert h + [""] + Hexes(w, e, e) == h + [""];
    if i == run.base {
      if i == 0 {
        assert h + [""] == [""];
        JoinOne("", ':');
      } else {
        JoinSnoc(h, "", ':');
      }
    }
  }

  lemma {:induction false} PartialEnd(b: seq<Byte>, run: Run)
    requires |b| == 16 && (run.Run? ==> 1 <= run.len && run.base + run.len <= 8)
    requires !IsEmbedded(Words(b), run)
    ensures Printed(b, run) == Partial(Words(b), run, 8) + if run.Run? && run.base + run.len == 8 then ":" else ""
  {
    hide Join, Hex, Words;
    var w := Words(b);
    if run.Run? && run.base + run.len == 8 {
      var f := Hexes(w, 0, run.base) + [""];
      assert f + Hexes(w, 8, 8) == f;
      JoinSnoc(f, "", ':');
    }
  }

  lemma {:induction false} PartialQuad(b: seq<Byte>, run: Run)
    requires |b| == 16 && IsEmbedded(Words(b), run)
    ensures Printed(b, run) == Partial(Words(b), run, 6) + ":" + InetNtop4(b[12..])
  {
    hide Join, Hex, Words, InetNtop4;
    var w := Words(b);
    var q := InetNtop4(b[12..]);
    var f := Hexes(w, 0, 0) + [""] + Hexes(w, run.len, 6);
    assert Hexes(w, 0, 0) + [""] + (Hexes(w, run.len, 6) + [q]) == f + [q];
    JoinSnoc(f, q, ':');
  }

  lemma {:induction false} BestBounds(w: seq<nat>, run: Run)
    requires IsBest(w, run)
    ensures run.Run? ==> 1 <= run.len && run.base + run.len <= |w|
  {
  }

  /** inet_ntop6 up to its size check: the text and the run it abbreviates. */
  method InetNtop6(src: seq<Byte>) returns (text: string, run: Run)
    requires |src| == 16
    ensures IsBest(Words(src), run) && (run.Run? ==> 1 <= run.len && run.base + run.len <= 8)
    ensures text == Printed(src, run)
  {
    hide *;
    var words := FillWords(src);
    run := FindRun(words);
    ghost var w := Words(src);
    BestBounds(w, run);
    EmbeddedMeans(w, run);
    text := "";
    PartialStart(w, run);
    var i, quad := 0, false;
    while i < 8 && !quad
      invariant 0 <= i <= 8 && words[..] == w
      invariant if quad then IsEmbedded(w, run) && text == Printed(src, run) else text == Partial(w, run, i)
      invariant !quad && i > 6 ==> !IsEmbedded(w, run)
      decreases 8 - i, !quad
    {
      assert words[..][i] == w[i] && words[..][5] == w[5];
      if run.Run? && run.base <= i < run.base + run.len {
        PartialRun(w, run, i);
        if i == run.base {
          text := text + ":";
        }
        i := i + 1;
      } else {
        PartialGroup(w, run, i);
        if i != 0 {
          text := text + ":";
        }
        if i == 6 && run.Run? && run.base == 0 && (run.len == 6 || (run.len == 5 && words[5] == 0xffff)) {
          PartialQuad(src, run);
          text := text + InetNtop4(src[12..]);
          quad := true;
        } else {
          text := text + Hex(words[i]);
          i := i + 1;
        }
      }
    }
    if !quad {
      PartialEnd(src, run);
    }
    if run.Run? && run.base + run.len == 8 {
      text := text + ":";
    }
  }

  lemma {:induction false} PartialStart(w: seq<nat>, run: Run)
    requires |w| == 8 && (run.Run? ==> 1 <= run.len && run.base + run.len <= 8)
    ensures Partial(w, run, 0) == ""
  {
  }

  lemma {:induction false} EmbeddedMeans(w: seq<nat>, run: Run)
    requires |w| == 8
    ensures IsEmbedded(w, run) <==> run.Run? && run.base == 0 && (run.len == 6 || (run.len == 5 && w[5] == 0xffff))
  {
  }

  /** The two functions composed, as inet_pton(inet_ntop(a)). */
  method PrintThenScan(src: seq<Byte>) returns (text: string, ok: bool, back: seq<Byte>)
    requires |src| == 16
    ensures ok && back == src && |text| <= 39
  {
    hide *;
    var run;
    text, run := InetNtop6(src);
    RoundTrip6(src, run);
    PrintedLength(src, run);
    var dst := new Byte[16](_ => 0);
    ok := InetPton6(text, dst);
    back := dst[..];
  }

  // ---------- the length of the text ----------

  lemma {:induction false} HexesLength(w: seq<nat>, i: nat, j: nat)
    requires i <= j <= |w| && forall k :: 0 <= k < |w| ==> w[k] <= 0xffff
    ensures forall k :: 0 <= k < j - i ==> |Hexes(w, i, j)[k]| <= 4
  {
    forall k | 0 <= k < j - i ensures |Hexes(w, i, j)[k]| <= 4 { HexShort(w[i + k]); }
  }

  lemma {:induction false} EmbeddedLength(b: seq<Byte>, run: Run)
    requires |b| == 16 && IsEmbedded(Words(b), run)
    ensures |Printed(b, run)| <= 39
  {
    hide Hexes, Hex, InetNtop4, Join, Words;
    var w := Words(b);
    WordsSmall(b);
    HexesLength(w, run.len, 6);
    var h := Hexes(w, 0, 0) + [""] + Hexes(w, run.len, 6);
    var q := InetNtop4(b[12..]);
    Ntop4Length(b[12..]);
    assert PrintedFields(b, run) == h + [q];
    JoinLength(h, 4, ':');
    JoinSnoc(h, q, ':');
  }

  lemma {:induction false} WordsSmall(b: seq<Byte>)
    requires |b| == 16
    ensures forall k :: 0 <= k < 8 ==> Words(b)[k] <= 0xffff
  {
  }

  /** The text never exceeds 39 characters, so with its NUL it always fits the 46 of `tmp`. */
  lemma {:induction false} PrintedLength(b: seq<Byte>, run: Run)
    requires |b| == 16 && IsBest(Words(b), run)
    ensures run.Run? ==> 1 <= run.len && run.base + run.len <= 8
    ensures |Printed(b, run)| <= 39
  {
    hide Hexes, Hex, InetNtop4, Join, Words;
    var w := Words(b);
    WordsSmall(b);
    if IsEmbedded(w, run) {
      EmbeddedLength(b, run);
    } else {
      var fs := PrintedFields(b, run);
      if run.NoRun? {
        HexesLength(w, 0, 8);
      } else {
        HexesLength(w, 0, run.base);
        HexesLength(w, run.base + run.len, 8);
      }
      JoinLength(fs, 4, ':');
    }
  }

  // ---------- where the code departs from its comments ----------

  /** The source says that `::` in a full address is silently ignored. It is ignored
      exactly when the part behind it is zero already; otherwise that part is lost. */
  lemma {:induction false} FullAddressGap(fs: seq<string>, gap: nat)
    requires WellFormed(fs, gap) && |Head(fs, gap)| + |Tail(fs, gap)| == 16
    ensures FieldsAddress(fs) == Some(Head(fs, gap) + Zeros(|Tail(fs, gap)|))
    ensures FieldsAddress(fs) == Some(Head(fs, gap) + Tail(fs, gap)) <==> Tail(fs, gap) == Zeros(|Tail(fs, gap)|)
  {
    GapUnique(fs, gap);
    hide Head, Tail;
    var h, t := Head(fs, gap), Tail(fs, gap);
    assert (h + t)[|h|..] == t && (h + Zeros(|t|))[|h|..] == Zeros(|t|);
  }
}
