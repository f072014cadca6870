/**
 Which texts are addresses by section 2.2 of RFC 1884 and of RFC 4291, and how inet_pton6
 relates to them. The three forms of the standards are stated on texts, without the field
 grammar of the scanner. They set no number of digits for the decimal values of an embedded
 quad.
 */
module Ipv6Standard {
  import opened Basics
  import opened TextFields
  import opened Ipv4Text
  import opened Ipv6Text

  // ---------- the standard ----------

  /** The hexadecimal value of a 16-bit piece. */
  predicate IsPiece(f: string) {
    1 <= |f| <= 4 && IsHex(f)
  }

  ghost predicate AllPieces(ps: seq<string>) {
    forall i :: 0 <= i < |ps| ==> IsPiece(ps[i])
  }

  /** Pieces up to the low-order end, where a dotted quad may stand for the last two. */
  ghost predicate LowPieces(ps: seq<string>) {
    ps == [] || (AllPieces(ps[..|ps| - 1]) && (IsPiece(ps[|ps| - 1]) || DottedQuad(ps[|ps| - 1]).Some?))
  }

  function PieceBytes(f: string): (b: seq<Byte>)
    requires IsPiece(f) || DottedQuad(f).Some?
    ensures |b| == if DottedQuad(f).Some? then 4 else 2
  {
    if DottedQuad(f).Some? then DottedQuad(f).value
    else PieceIsGroup(f); [HexValue(f) / 256, HexValue(f) % 256]
  }

  ghost function Value(ps: seq<string>): seq<Byte>
    requires LowPieces(ps)
  {
    if ps == [] then [] else Value(ps[..|ps| - 1]) + PieceBytes(ps[|ps| - 1])
  }

  function Text(ps: seq<string>): string {
    if ps == [] then "" else Join(ps, ':')
  }

  /** Forms 1 and 3: all pieces are written. */
  ghost predicate Full(s: string, b: seq<Byte>, ps: seq<string>) {
    ps != [] && LowPieces(ps) && s == Text(ps) && b == Value(ps) && |b| == 16
  }

  /** What `::` stands for: section 2.2 of RFC 1884 says multiple groups of zeros, section 2.2
      of RFC 4291 one or more. Otherwise the two agree. */
  datatype Standard = Rfc1884 | Rfc4291

  function Least(std: Standard): (n: nat)
    ensures 1 <= n <= 2
  {
    if std == Rfc1884 then 2 else 1
  }

  /** Form 2, also with a quad at the end: `::` stands for the missing pieces. */
  ghost predicate Compressed(s: string, b: seq<Byte>, left: seq<string>, right: seq<string>, std: Standard) {
    && AllPieces(left) && LowPieces(left) && LowPieces(right)
    && s == Text(left) + "::" + Text(right)
    && |Value(left)| + |Value(right)| <= 16 - 2 * Least(std)
    && b == Value(left) + Zeros(16 - |Value(left)| - |Value(right)|) + Value(right)
  }

  /** The text denotes this address by the standard. */
  ghost predicate Denotes(s: string, b: seq<Byte>, std: Standard) {
    (exists ps :: Full(s, b, ps)) || exists left, right :: Compressed(s, b, left, right, std)
  }

  // ---------- what a caller can check ----------

  /** The fields of a text between colons; a doubled colon at the start counts once. */
  function Fields(s: string): (fs: seq<string>)
    ensures |fs| >= 1
  {
    if |s| >= 2 && s[0] == ':' && s[1] == ':' then Split(s[1..], ':') else Split(s, ':')
  }

  /** How many pieces the last field makes up. */
  function LastPieces(f: string): nat {
    if '.' in f then 2 else if f == "" then 0 else 1
  }

  /** No group has more than four digits; the text ends in a colon only with `::`; and `::`
      leaves enough pieces to stand for. */
  ghost predicate StrictFields(fs: seq<string>, std: Standard)
    requires |fs| >= 1
  {
    var n := |fs| - 1;
    && (forall i :: 0 <= i <= n ==> '.' in fs[i] || |fs[i]| <= 4)
    && (fs[n] == "" ==> n >= 1 && fs[n - 1] == "")
    && ((exists i :: 0 <= i < n && fs[i] == "") ==> n - 1 + LastPieces(fs[n]) <= 8 - Least(std))
  }

  // ---------- pieces and groups ----------

  lemma {:induction false} PieceIsGroup(f: string)
    requires IsPiece(f)
    ensures IsGroup(f)
  {
    ShortHex(f, |f|);
  }

  lemma {:induction false} ShortHex(f: string, n: nat)
    requires IsHex(f) && |f| <= n <= 4
    ensures HexValue(f) <
      (if n == 0 then 1 else if n == 1 then 0x10 else if n == 2 then 0x100 else if n == 3 then 0x1000 else 0x10000)
  {
    if f != "" {
      ShortHex(f[..|f| - 1], n - 1);
    }
  }

  lemma {:induction false} QuadHasDot(f: string)
    ensures DottedQuad(f).Some? ==> '.' in f && ':' !in f && f != ""
    ensures IsHex(f) ==> '.' !in f && ':' !in f && DottedQuad(f).None?
  {
    if DottedQuad(f).Some? {
      QuadCharacters(f);
    }
    if IsHex(f) {
      assert forall c :: c in f ==> IsHexDigit(c);
    }
  }

  lemma {:induction false} PiecesAreGroups(ps: seq<string>)
    requires AllPieces(ps)
    ensures AllGroups(ps) && LowPieces(ps) && Value(ps) == Groups(ps)
  {
    if ps != [] {
      var n := |ps| - 1;
      assert IsPiece(ps[n]);
      PiecesAreGroups(ps[..n]);
      PieceIsGroup(ps[n]);
      QuadHasDot(ps[n]);
      assert AllGroups(ps) by {
        forall i | 0 <= i < |ps| ensures IsGroup(ps[i]) { PieceIsGroup(ps[i]); }
      }
    }
  }

  /** The value of low-order pieces in the scanner's terms. */
  lemma {:induction false} LowValue(ps: seq<string>)
    requires LowPieces(ps) && ps != []
    ensures var n := |ps| - 1;
      && AllGroups(ps[..n]) && IsEnding(ps[n]) && ps[n] != ""
      && Value(ps) == Groups(ps[..n]) + EndingBytes(ps[n]) && |EndingBytes(ps[n])| == 2 * LastPieces(ps[n])
  {
    hide DottedQuad, IsHex, HexValue, Groups;
    var n := |ps| - 1;
    PiecesAreGroups(ps[..n]);
    QuadHasDot(ps[n]);
    if IsPiece(ps[n]) {
      PieceIsGroup(ps[n]);
    }
  }

  lemma {:induction false} PiecesFree(ps: seq<string>)
    requires LowPieces(ps)
    ensures Free(ps, ':') && forall i :: 0 <= i < |ps| ==> ps[i] != "" && ('.' in ps[i] || |ps[i]| <= 4)
  {
    hide DottedQuad, IsHex;
    forall i | 0 <= i < |ps|
      ensures ':' !in ps[i] && ps[i] != "" && ('.' in ps[i] || |ps[i]| <= 4)
    {
      assert i < |ps| - 1 ==> ps[..|ps| - 1][i] == ps[i];
      QuadHasDot(ps[i]);
    }
  }

  // ---------- joined texts ----------

  lemma {:induction false} JoinAppend(a: seq<string>, b: seq<string>)
    requires |a| >= 1 && |b| >= 1
    ensures Join(a + b, ':') == Join(a, ':') + ":" + Join(b, ':')
  {
    var n := |b| - 1;
    assert (a + b)[..|a| + n] == a + b[..n];
    if n == 0 {
      assert a + b[..0] == a;
    } else {
      JoinAppend(a, b[..n]);
    }
  }

  /** The fields of a compressed text: the gap is an empty field, and so is what is missing
      behind it. */
  function Laid(left: seq<string>, right: seq<string>): (fs: seq<string>)
    ensures |fs| >= 2
  {
    left + [""] + if right == [] then [""] else right
  }

  lemma {:induction false} LaidText(left: seq<string>, right: seq<string>)
    ensures Text(left) + "::" + Text(right) == (if left == [] then ":" else "") + Join(Laid(left, right), ':')
  {
    hide Join;
    var r := if right == [] then [""] else right;
    JoinOne("", ':');
    JoinAppend(left + [""], r);
    if left == [] {
      assert left + [""] == [""];
    } else {
      JoinAppend(left, [""]);
    }
  }

  /** A joined text starts with a colon exactly when its first field is empty and another
      follows. */
  lemma {:induction false} StartsWithColon(fs: seq<string>)
    requires |fs| >= 1 && Free(fs, ':')
    ensures var t := Join(fs, ':'); (t != "" && t[0] == ':') <==> (fs[0] == "" && |fs| >= 2)
  {
    hide Join;
    JoinStart(fs, ':');
    var t := Join(fs, ':');
    if |fs| == 1 {
      JoinOne(fs[0], ':');
      assert fs == [fs[0]];
      assert t != "" ==> t[0] in fs[0];
    } else if fs[0] == "" {
      assert fs[0] + [':'] == [':'];
    } else {
      assert t[0] == fs[0][0] && fs[0][0] in fs[0];
    }
  }

  // ---------- the theorem ----------

  /** Pieces without a gap: all of them are behind it. */
  lemma {:induction false} Ungapped(ps: seq<string>)
    requires ps != [] && LowPieces(ps)
    ensures WellFormed(ps, -1) && Head(ps, -1) == [] && Tail(ps, -1) == Value(ps)
  {
    LowValue(ps);
    hide DottedQuad, Groups, IsGroup, IsEnding, EndingBytes, Value, LowPieces;
    var n := |ps| - 1;
    forall i | 0 <= i < n ensures IsGroup(ps[i]) { assert ps[..n][i] == ps[i]; }
    assert ps[0..n] == ps[..n];
  }

  lemma {:induction false} FullAddress(ps: seq<string>)
    requires ps != [] && LowPieces(ps) && |Value(ps)| == 16
    ensures FieldsAddress(ps) == Some(Value(ps))
  {
    Ungapped(ps);
    hide Value, LowPieces, Head, Tail, WellFormed, FieldsAddress;
    GapUnique(ps, -1);
    assert [] + Value(ps) == Value(ps);
  }

  lemma {:induction false} FullFields(s: string, b: seq<Byte>, ps: seq<string>, std: Standard)
    requires Full(s, b, ps)
    ensures Fields(s) == ps && StrictFields(ps, std) && Address(s) == Some(b)
  {
    FullAddress(ps);
    PiecesFree(ps);
    hide DottedQuad, IsHex, HexValue, Join, Split, Groups, FieldsAddress, Value, LowPieces;
    SplitJoin(ps, ':');
    StartsWithColon(ps);
    AddressOf(s);
  }

  lemma {:induction false} LaidFree(left: seq<string>, right: seq<string>)
    requires LowPieces(left) && LowPieces(right)
    ensures Free(Laid(left, right), ':') && (Laid(left, right)[0] == "" <==> left == [])
    ensures forall i :: 0 <= i < |Laid(left, right)| ==> '.' in Laid(left, right)[i] || |Laid(left, right)[i]| <= 4
  {
    hide LowPieces;
    PiecesFree(left);
    PiecesFree(right);
    var fs := Laid(left, right);
    forall i | 0 <= i < |fs|
      ensures ':' !in fs[i] && ('.' in fs[i] || |fs[i]| <= 4)
    {
      assert fs[i] == "" || (i < |left| && fs[i] == left[i])
          || (i > |left| && right != [] && fs[i] == right[i - |left| - 1]);
    }
  }

  lemma {:induction false} CompressedText(left: seq<string>, right: seq<string>)
    requires LowPieces(left) && LowPieces(right)
    ensures var s := Text(left) + "::" + Text(right);
            Fields(s) == Laid(left, right) && Address(s) == FieldsAddress(Laid(left, right))
  {
    hide LowPieces, Laid, Join, Split, FieldsAddress, Text, Free;
    var s, fs := Text(left) + "::" + Text(right), Laid(left, right);
    LaidFree(left, right);
    LaidText(left, right);
    SplitJoin(fs, ':');
    StartsWithColon(fs);
    AddressOf(s);
    var t := Join(fs, ':');
    if left == [] {
      assert s == [':'] + t && s[1..] == t;
    } else {
      assert s == t;
    }
  }

  lemma {:induction false} LaidAddress(left: seq<string>, right: seq<string>)
    requires AllPieces(left) && LowPieces(left) && LowPieces(right)
    ensures FieldsAddress(Laid(left, right)) == Place(Value(left), Value(right), true)
  {
    PiecesAreGroups(left);
    if right == [] {
      EmptyEnds();
      assert Laid(left, right) == left + [""] + [] + [""] && Value(right) == [];
      LaidPlace(left, [], "", Laid(left, right), Value(right));
    } else {
      var n := |right| - 1;
      LowValue(right);
      hide *;
      assert Laid(left, right) == left + [""] + right[..n] + [right[n]] by { LaidEnd(left, right); }
      LaidPlace(left, right[..n], right[n], Laid(left, right), Value(right));
    }
  }

  lemma {:induction false} LaidEnd(left: seq<string>, right: seq<string>)
    requires right != []
    ensures Laid(left, right) == left + [""] + right[..|right| - 1] + [right[|right| - 1]]
  {
  }

  lemma {:induction false} LaidPlace(left: seq<string>, m: seq<string>, e: string, fs: seq<string>, value: seq<Byte>)
    requires AllGroups(left) && AllGroups(m) && IsEnding(e) && value == Groups(m) + EndingBytes(e)
    requires fs == left + [""] + m + [e]
    ensures FieldsAddress(fs) == Place(Groups(left), value, true)
  {
    hide *;
    GapFields(left, m, e);
    GapUnique(fs, |left|);
  }

  lemma {:induction false} LaidStrict(left: seq<string>, right: seq<string>, std: Standard)
    requires AllPieces(left) && LowPieces(left) && LowPieces(right)
    requires |Value(left)| + |Value(right)| <= 16 - 2 * Least(std)
    ensures StrictFields(Laid(left, right), std)
  {
    hide AllPieces, LowPieces, IsEnding, EndingBytes, Groups, DottedQuad;
    PiecesAreGroups(left);
    LaidFree(left, right);
    if right != [] {
      LowValue(right);
      PiecesFree(right);
    }
  }

  lemma {:induction false} CompressedFields(s: string, b: seq<Byte>, left: seq<string>, right: seq<string>,
      std: Standard)
    requires Compressed(s, b, left, right, std)
    ensures StrictFields(Fields(s), std) && Address(s) == Some(b)
  {
    CompressedText(left, right);
    LaidAddress(left, right);
    LaidStrict(left, right, std);
    hide Laid, LowPieces, AllPieces, StrictFields, FieldsAddress, Fields, Address, Value, Text, Zeros;
  }

  /** A group that is short enough is a piece. */
  lemma {:induction false} GroupIsPiece(f: string)
    requires '.' in f || |f| <= 4
    ensures IsGroup(f) ==> IsPiece(f)
    ensures IsEnding(f) && f != "" ==> IsPiece(f) || DottedQuad(f).Some?
    ensures IsEnding(f) ==> |EndingBytes(f)| == 2 * LastPieces(f)
  {
    hide DottedQuad, IsHex, HexValue;
    QuadHasDot(f);
  }

  lemma {:induction false} ShortGroups(fs: seq<string>, i: nat, j: nat)
    requires i <= j <= |fs| && AllGroups(fs[i..j]) && forall k :: 0 <= k < |fs| ==> '.' in fs[k] || |fs[k]| <= 4
    ensures AllPieces(fs[i..j])
  {
    forall k | 0 <= k < j - i
      ensures IsPiece(fs[i..j][k])
    {
      GroupIsPiece(fs[i + k]);
    }
  }

  lemma {:induction false} LowFields(fs: seq<string>, i: nat)
    requires i < |fs| && AllGroups(fs[i..|fs| - 1]) && IsEnding(fs[|fs| - 1]) && fs[|fs| - 1] != ""
    requires forall k :: 0 <= k < |fs| ==> '.' in fs[k] || |fs[k]| <= 4
    ensures LowPieces(fs[i..]) && Value(fs[i..]) == Groups(fs[i..|fs| - 1]) + EndingBytes(fs[|fs| - 1])
  {
    hide IsGroup, IsEnding, EndingBytes, DottedQuad, IsPiece, Groups;
    var ps, n := fs[i..], |fs| - 1;
    ShortGroups(fs, i, n);
    GroupIsPiece(fs[n]);
    assert ps[..|ps| - 1] == fs[i..n] && ps[|ps| - 1] == fs[n];
    LowValue(ps);
  }

  lemma {:induction false} FromFull(s: string, b: seq<Byte>, fs: seq<string>, std: Standard)
    requires |fs| >= 1 && WellFormed(fs, -1) && Place(Head(fs, -1), Tail(fs, -1), false) == Some(b)
    requires StrictFields(fs, std) && s == Join(fs, ':')
    ensures Denotes(s, b, std)
  {
    hide IsGroup, IsEnding, EndingBytes, DottedQuad, Groups, Join, IsHex;
    var n := |fs| - 1;
    assert fs[n] != "" by { NoGap(fs, std); }
    assert AllGroups(fs[0..n]);
    LowFields(fs, 0);
    assert fs[0..] == fs;
    assert [] + Tail(fs, -1) == Tail(fs, -1);
    assert Full(s, b, fs);
  }

  lemma {:induction false} NoGap(fs: seq<string>, std: Standard)
    requires |fs| >= 1 && WellFormed(fs, -1) && StrictFields(fs, std)
    ensures fs[|fs| - 1] != ""
  {
    assert |fs| >= 2 ==> IsGroup(fs[|fs| - 2]);
  }

  lemma {:induction false} FromGap(s: string, b: seq<Byte>, fs: seq<string>, gap: nat, std: Standard)
    requires |fs| >= 1 && WellFormed(fs, gap) && Place(Head(fs, gap), Tail(fs, gap), true) == Some(b)
    requires StrictFields(fs, std) && s == (if gap == 0 then ":" else "") + Join(fs, ':')
    ensures Denotes(s, b, std)
  {
    hide *;
    GapBounds(fs, gap);
    var left, right := fs[..gap], if fs[|fs| - 1] == "" then [] else fs[gap + 1..];
    GapRoom(fs, gap, std);
    PlaceRoom(Head(fs, gap), Tail(fs, gap), b);
    GapLeft(fs, gap, std);
    GapRight(fs, gap, std);
    LaidText(left, right);
    assert left == [] <==> gap == 0;
    CompressedDenotes(s, b, left, right, std);
  }

  lemma {:induction false} GapBounds(fs: seq<string>, gap: nat)
    requires WellFormed(fs, gap)
    ensures |fs| >= 1 && Before(fs, gap) && gap < |fs| - 1
  {
  }

  lemma {:induction false} CompressedDenotes(s: string, b: seq<Byte>, left: seq<string>, right: seq<string>,
      std: Standard)
    requires AllPieces(left) && LowPieces(left) && LowPieces(right) && s == Text(left) + "::" + Text(right)
    requires |Value(left)| + |Value(right)| <= 16 - 2 * Least(std)
    requires b == Value(left) + Zeros(16 - |Value(left)| - |Value(right)|) + Value(right)
    ensures Denotes(s, b, std)
  {
    hide AllPieces, LowPieces, Value, Text, Zeros;
    assert Compressed(s, b, left, right, std);
  }

  lemma {:induction false} GapRoom(fs: seq<string>, gap: nat, std: Standard)
    requires |fs| >= 1 && WellFormed(fs, gap) && StrictFields(fs, std)
    ensures |Head(fs, gap)| + |Tail(fs, gap)| <= 16 - 2 * Least(std)
  {
    hide IsGroup, IsEnding, EndingBytes, DottedQuad, Head, Tail;
    AddressLength(fs, gap);
    GroupIsPiece(fs[|fs| - 1]);
  }

  lemma {:induction false} PlaceRoom(head: seq<Byte>, tail: seq<Byte>, b: seq<Byte>)
    requires |head| + |tail| <= 14 && Place(head, tail, true) == Some(b)
    ensures b == head + Zeros(16 - |head| - |tail|) + tail
  {
  }

  lemma {:induction false} GapLeft(fs: seq<string>, gap: nat, std: Standard)
    requires |fs| >= 1 && WellFormed(fs, gap) && StrictFields(fs, std)
    ensures AllPieces(fs[..gap]) && LowPieces(fs[..gap]) && Value(fs[..gap]) == Head(fs, gap)
  {
    hide IsEnding, EndingBytes, DottedQuad, Groups, IsGroup;
    assert AllGroups(fs[0..gap]) && fs[0..gap] == fs[..gap];
    ShortGroups(fs, 0, gap);
    PiecesAreGroups(fs[..gap]);
  }

  lemma {:induction false} GapRight(fs: seq<string>, gap: nat, std: Standard)
    requires |fs| >= 1 && WellFormed(fs, gap) && StrictFields(fs, std)
    ensures var right := if fs[|fs| - 1] == "" then [] else fs[gap + 1..];
            LowPieces(right) && fs == Laid(fs[..gap], right) && Value(right) == Tail(fs, gap)
  {
    hide StrictFields;
    if fs[|fs| - 1] == "" {
      EndsBehindGap(fs, gap, std);
      hide IsGroup, IsEnding, EndingBytes, DottedQuad, Groups;
      EmptyEnds();
      assert fs[gap + 1..|fs| - 1] == [] && fs == fs[..gap] + [""] + [""];
      assert Tail(fs, gap) == [];
    } else {
      GapPieces(fs, gap, std);
    }
  }

  lemma {:induction false} GapPieces(fs: seq<string>, gap: nat, std: Standard)
    requires |fs| >= 1 && WellFormed(fs, gap) && StrictFields(fs, std) && fs[|fs| - 1] != ""
    ensures LowPieces(fs[gap + 1..]) && fs == Laid(fs[..gap], fs[gap + 1..]) && Value(fs[gap + 1..]) == Tail(fs, gap)
  {
    hide IsGroup, IsEnding, EndingBytes, DottedQuad, Groups, LowPieces, Value, LastPieces;
    assert AllGroups(fs[gap + 1..|fs| - 1]);
    LowFields(fs, gap + 1);
    assert fs == fs[..gap] + [""] + fs[gap + 1..];
  }

  lemma {:induction false} EndsBehindGap(fs: seq<string>, gap: nat, std: Standard)
    requires |fs| >= 1 && WellFormed(fs, gap) && StrictFields(fs, std) && fs[|fs| - 1] == ""
    ensures gap == |fs| - 2
  {
    hide IsHex, HexValue, DottedQuad, LastPieces;
  }

  lemma {:induction false} FromFields(s: string, b: seq<Byte>, std: Standard)
    requires Address(s) == Some(b) && StrictFields(Fields(s), std)
    ensures Denotes(s, b, std)
  {
    hide StrictFields, Denotes, FieldsAddress, WellFormed, Head, Tail, Place, Join, Split, Free;
    var fs := Fields(s);
    var gap := FindGap(fs, |fs| - 1);
    AddressOf(s);
    Decomposed(fs, b);
    JoinSplit(if |s| >= 2 && s[0] == ':' && s[1] == ':' then s[1..] else s, ':');
    StartsWithColon(fs);
    assert |s| >= 2 && s[0] == ':' && s[1] == ':' ==> s == ":" + s[1..];
    assert s == (if gap == 0 then ":" else "") + Join(fs, ':');
    if gap < 0 {
      assert s == Join(fs, ':');
      FromFull(s, b, fs, std);
    } else {
      FromGap(s, b, fs, gap, std);
    }
  }

  lemma {:induction false} Decomposed(fs: seq<string>, b: seq<Byte>)
    requires |fs| >= 1 && FieldsAddress(fs) == Some(b)
    ensures var gap := FindGap(fs, |fs| - 1);
            WellFormed(fs, gap) && Place(Head(fs, gap), Tail(fs, gap), gap >= 0) == Some(b)
  {
    hide Head, Tail, Place, IsGroup;
  }

  /** inet_pton6 reads every address of the standard as the standard does. Of the texts it
      accepts, the standard has exactly those with groups of at most four digits, without a
      colon too many at the end, and with `::` standing for something. */
  lemma {:induction false} StandardExactly(s: string, b: seq<Byte>, std: Standard)
    ensures Denotes(s, b, std) <==> Address(s) == Some(b) && StrictFields(Fields(s), std)
  {
    hide StrictFields, Fields, Address, Full, Compressed;
    if exists ps :: Full(s, b, ps) {
      var ps :| Full(s, b, ps);
      FullFields(s, b, ps, std);
    }
    if exists left, right :: Compressed(s, b, left, right, std) {
      var left, right :| Compressed(s, b, left, right, std);
      CompressedFields(s, b, left, right, std);
    }
    if Address(s) == Some(b) && StrictFields(Fields(s), std) {
      FromFields(s, b, std);
    }
  }

  // ---------- what the printer writes ----------

  /** Every text inet_ntop6 writes is an address by both standards, for the bytes printed. */
  lemma {:induction false} PrintedIsStandard(b: seq<Byte>, run: Run, std: Standard)
    requires |b| == 16 && IsBest(Words(b), run)
    ensures (run.Run? ==> 1 <= run.len && run.base + run.len <= 8) && Denotes(Printed(b, run), b, std)
  {
    BestLength(Words(b), run);
    hide *;
    RoundTrip6(b, run);
    FieldsPrinted(b, run);
    PrintedStrict(b, run, std);
    StandardExactly(Printed(b, run), b, std);
  }

  lemma {:induction false} BestLength(w: seq<nat>, run: Run)
    requires IsBest(w, run) && |w| == 8
    ensures run.Run? ==> 2 <= run.len && run.base + run.len <= 8
  {
  }

  lemma {:induction false} FieldsPrinted(b: seq<Byte>, run: Run)
    requires |b| == 16 && (run.Run? ==> 1 <= run.len && run.base + run.len <= 8)
    ensures |PrintedFields(b, run)| >= 1 && Fields(Printed(b, run)) == PrintedFields(b, run)
  {
    hide PrintedFields, Split, Join, Words;
    PrintedFree(b, run);
    var fs := PrintedFields(b, run);
    var t := Join(fs, ':');
    SplitJoin(fs, ':');
    PrintedFirst(b, run);
    StartsWithColon(fs);
    if run.Run? && run.base == 0 {
      assert (":" + t)[1..] == t;
    } else {
      assert "" + t == t;
    }
  }

  lemma {:induction false} HexesShort(b: seq<Byte>, i: nat, j: nat)
    requires |b| == 16 && i <= j <= 8
    ensures forall k :: 0 <= k < j - i ==>
      var f := Hexes(Words(b), i, j)[k]; f != "" && '.' !in f && |f| <= 4
  {
    forall k | 0 <= k < j - i
      ensures var f := Hexes(Words(b), i, j)[k]; f != "" && '.' !in f && |f| <= 4
    {
      var w := Words(b)[i + k];
      assert w <= 0xffff by { WordAt(b, i + k); }
      hide Words, Hex;
      HexShort(w);
      HexRoundTrip(w);
      QuadHasDot(Hex(w));
    }
  }

  lemma {:induction false} QuadText(b: seq<Byte>)
    requires |b| == 4
    ensures '.' in InetNtop4(b) && InetNtop4(b) != ""
  {
    hide InetNtop4;
    RoundTrip4(b);
    QuadHasDot(InetNtop4(b));
  }

  lemma {:induction false} PrintedStrict(b: seq<Byte>, run: Run, std: Standard)
    requires |b| == 16 && (run.Run? ==> 2 <= run.len && run.base + run.len <= 8)
    ensures |PrintedFields(b, run)| >= 1 && StrictFields(PrintedFields(b, run), std)
  {
    if run.NoRun? {
      HexesShort(b, 0, 8);
      hide Hexes, Words;
    } else {
      HexesShort(b, 0, run.base);
      PrintedShape(b, run);
      EndingStrict(b, run);
      hide *;
      ShapeStrict(Hexes(Words(b), 0, run.base), Middle(b, run), Ending(b, run), PrintedFields(b, run), std);
    }
  }

  /** What is printed behind a run leaves at least its length free. */
  lemma {:induction false} EndingStrict(b: seq<Byte>, run: Run)
    requires |b| == 16 && run.Run? && 2 <= run.len && run.base + run.len <= 8
    ensures var m, e := Middle(b, run), Ending(b, run);
      && (forall i :: 0 <= i < |m| ==> m[i] != "" && |m[i]| <= 4)
      && (e == "" ==> m == []) && ('.' in e || |e| <= 4) && run.base + |m| + LastPieces(e) <= 6
  {
    var w, e := Words(b), run.base + run.len;
    if IsEmbedded(w, run) {
      HexesShort(b, e, 6);
      QuadText(b[12..]);
      hide Hexes, Words, InetNtop4;
    } else if e < 8 {
      HexesShort(b, e, 7);
      HexesShort(b, 7, 8);
      assert Hexes(w, 7, 8)[0] == Hex(w[7]);
      hide Hexes, Words, Hex;
    }
  }

  lemma {:induction false} ShapeStrict(h: seq<string>, m: seq<string>, e: string, fs: seq<string>, std: Standard)
    requires fs == h + [""] + m + [e]
    requires forall i :: 0 <= i < |h| ==> h[i] != "" && |h[i]| <= 4
    requires forall i :: 0 <= i < |m| ==> m[i] != "" && |m[i]| <= 4
    requires (e == "" ==> m == []) && ('.' in e || |e| <= 4) && |h| + |m| + LastPieces(e) <= 6
    ensures StrictFields(fs, std)
  {
    var n := |fs| - 1;
    forall i | 0 <= i <= n
      ensures '.' in fs[i] || |fs[i]| <= 4
    {
      assert fs[i] == if i < |h| then h[i] else if i == |h| then "" else if i < n then m[i - |h| - 1] else e;
    }
  }

  // ---------- accepted texts outside the standard ----------

  /** A colon too many behind a group goes unnoticed, with or without `::`. */
  lemma {:induction false} TrailingColon(s: string, std: Standard)
    requires IsGroup(Fields(s)[|Fields(s)| - 1])
    ensures Address(s + ":") == Address(s) && !StrictFields(Fields(s + ":"), std)
  {
    var fs := Fields(s);
    assert fs[|fs| - 1] != "";
    hide Split, FieldsAddress, StrictFields, IsGroup;
    ColonFields(s);
    AddressOf(s);
    AddressOf(s + ":");
    ExtraColon(fs, std);
  }

  lemma {:induction false} ColonFields(s: string)
    requires Fields(s)[|Fields(s)| - 1] != ""
    ensures Fields(s + ":") == Fields(s) + [""]
    ensures s != "" && (|s| >= 2 || s[0] != ':')
  {
    hide Split;
    SplitSnoc(s, ':', ':');
    ShortSplits();
    assert s != "" && s != ":";
    assert |s| == 1 ==> s == [s[0]];
    assert (s + ":")[0] == s[0] && (|s| >= 2 ==> (s + ":")[1] == s[1]);
    if |s| >= 2 && s[0] == ':' && s[1] == ':' {
      SplitSnoc(s[1..], ':', ':');
      assert (s + ":")[1..] == s[1..] + [':'];
    }
  }

  lemma {:induction false} ShortSplits()
    ensures Split("", ':') == [""] && Split(":", ':') == ["", ""]
  {
    SplitSnoc("", ':', ':');
    assert "" + [':'] == ":";
  }

  lemma {:induction false} ExtraColon(fs: seq<string>, std: Standard)
    requires |fs| >= 1 && IsGroup(fs[|fs| - 1])
    ensures FieldsAddress(fs + [""]) == FieldsAddress(fs) && !StrictFields(fs + [""], std)
  {
    var n, gs := |fs| - 1, fs + [""];
    assert gs[n] == fs[n] && fs[n] != "";
    hide IsGroup, FindGap, Place, Head, Tail, WellFormed;
    SameGap(fs);
    var gap := FindGap(fs, n);
    SameShape(fs, gap);
    if WellFormed(fs, gap) {
      SameParts(fs, gap);
    }
  }

  lemma {:induction false} SameGap(fs: seq<string>)
    requires |fs| >= 1 && fs[|fs| - 1] != ""
    ensures FindGap(fs + [""], |fs|) == FindGap(fs, |fs| - 1)
  {
    GapPrefix(fs, [""], |fs| - 1);
  }

  lemma {:induction false} GapPrefix(fs: seq<string>, more: seq<string>, n: nat)
    requires n <= |fs|
    ensures FindGap(fs + more, n) == FindGap(fs, n)
  {
    if n > 0 {
      GapPrefix(fs, more, n - 1);
    }
  }

  lemma {:induction false} SameShape(fs: seq<string>, gap: int)
    requires |fs| >= 1 && -1 <= gap < |fs| - 1 && IsGroup(fs[|fs| - 1])
    ensures WellFormed(fs + [""], gap) <==> WellFormed(fs, gap)
  {
    hide IsGroup;
    var gs := fs + [""];
    assert IsEnding("") && IsEnding(fs[|fs| - 1]);
    if Before(gs, gap) {
      forall i | 0 <= i < |fs| - 1 && i != gap ensures IsGroup(fs[i]) { assert gs[i] == fs[i]; }
      assert gap >= 0 ==> gs[gap] == fs[gap];
    }
    if Before(fs, gap) {
      forall i | 0 <= i < |gs| - 1 && i != gap ensures IsGroup(gs[i]) { assert gs[i] == fs[i]; }
    }
  }

  lemma {:induction false} SameParts(fs: seq<string>, gap: int)
    requires |fs| >= 1 && WellFormed(fs, gap) && WellFormed(fs + [""], gap) && IsGroup(fs[|fs| - 1])
    ensures Head(fs + [""], gap) == Head(fs, gap) && Tail(fs + [""], gap) == Tail(fs, gap)
  {
    hide IsGroup, Groups, IsEnding, EndingBytes;
    var n, gs := |fs| - 1, fs + [""];
    EmptyEnds();
    GroupEnds(fs[n]);
    GroupsSnoc(fs[gap + 1..n], fs[n]);
    assert gs[gap + 1..n + 1] == fs[gap + 1..n] + [fs[n]];
    assert gap >= 0 ==> gs[..gap] == fs[..gap];
  }

  // ---------- a text for each clause ----------

  lemma {:induction false} DigitPiece(c: char)
    requires '0' <= c <= '9'
    ensures IsPiece([c]) && IsGroup([c]) && GroupBytes([c]) == [0, c as int - '0' as int]
  {
    hide HexValue;
    EmptyGroup();
    HexSnoc("", c);
    assert "" + [c] == [c];
  }

  /** A colon too many: "::1:" is read as "::1", and is no address of the standard. */
  lemma {:induction false} ExtraColonText(b: seq<Byte>, std: Standard)
    ensures Address("::1:") == Address("::1") && Address("::1").Some? && !Denotes("::1:", b, std)
  {
    hide Split, Join, FieldsAddress, StrictFields, Address, Fields;
    DigitPiece('1');
    OneText("1");
    assert "::" + "1" == "::1";
    TrailingColon("::1", std);
    assert "::1" + ":" == "::1:";
    StandardExactly("::1:", b, std);
  }

  /** A group too long: "::00001" is read as "::1", and is no address of the standard. */
  lemma {:induction false} LongGroupText(b: seq<Byte>, std: Standard)
    ensures Address("::00001") == Address("::1") && Address("::1").Some? && !Denotes("::00001", b, std)
  {
    hide Split, Join, FieldsAddress, Address, Fields, Place;
    DigitPiece('1');
    OneText("1");
    LeadingZeros();
    OneText("00001");
    assert "::" + "1" == "::1" && "::" + "00001" == "::00001";
    StandardExactly("::00001", b, std);
    assert Fields("::00001")[1] == "00001" && '.' !in "00001";
  }

  lemma {:induction false} LeadingZeros()
    ensures IsGroup("00001") && GroupBytes("00001") == [0, 1]
  {
    hide HexValue, IsHex;
    EmptyGroup();
    assert "" + ['0'] == "0" && "0" + ['0'] == "00" && "00" + ['0'] == "000";
    HexSnoc("", '0');
    HexSnoc("0", '0');
    HexSnoc("00", '0');
    assert "000" + ['0'] == "0000" && "0000" + ['1'] == "00001";
    HexSnoc("000", '0');
    HexSnoc("0000", '1');
  }

  /** One group behind a leading gap. */
  lemma {:induction false} OneText(f: string)
    requires IsGroup(f)
    ensures Fields("::" + f) == ["", f] && Address("::" + f) == Place([], GroupBytes(f), true)
    ensures Address("::" + f).Some?
  {
    hide Split, Join, IsGroup, FieldsAddress, GroupBytes;
    var s, fs := "::" + f, ["", f];
    assert IsHex(f) by { GroupHex(f); }
    QuadHasDot(f);
    assert Free(fs, ':');
    SplitJoin(fs, ':');
    JoinOne("", ':');
    JoinSnoc([""], f, ':');
    assert [""] + [f] == fs && s[1..] == ":" + f;
    assert Join(fs, ':') == ":" + f;
    AddressOf(s);
    GroupEnds(f);
    EmptyEnds();
    LaidPlace([], [], f, fs, GroupBytes(f));
  }

  lemma {:induction false} GroupHex(f: string)
    requires IsGroup(f)
    ensures IsHex(f)
  {
  }

  /** A gap for nothing: "1:2:3:4:5:6:7::8" is read with its last group wiped, and is no
      address of the standard. */
  lemma {:induction false} FullGapText(b: seq<Byte>, std: Standard)
    ensures Address("1:2:3:4:5:6:7::8") == Some([0, 1, 0, 2, 0, 3, 0, 4, 0, 5, 0, 6, 0, 7, 0, 0])
    ensures !Denotes("1:2:3:4:5:6:7::8", b, std)
  {
    hide *;
    var h := ["1", "2", "3", "4", "5", "6", "7"];
    var s, fs := "1:2:3:4:5:6:7::8", ["1", "2", "3", "4", "5", "6", "7", "", "8"];
    SevenGroups();
    DigitPiece('8');
    EightFields();
    assert h + [""] + [] + ["8"] == fs;
    GroupEnds("8");
    EmptyEnds();
    assert [] + [0, 8] == [0, 8];
    LaidPlace(h, [], "8", fs, GroupBytes("8"));
    FullWipes(Groups(h), [0, 8]);
    assert [0, 1, 0, 2, 0, 3, 0, 4, 0, 5, 0, 6, 0, 7] + [0, 0] == [0, 1, 0, 2, 0, 3, 0, 4, 0, 5, 0, 6, 0, 7, 0, 0];
    StandardExactly(s, b, std);
    GapForNothing(fs, std);
  }

  lemma {:induction false} FullWipes(head: seq<Byte>, tail: seq<Byte>)
    requires |head| == 14 && |tail| == 2
    ensures Place(head, tail, true) == Some(head + [0, 0])
  {
    assert Zeros(2) == [0, 0];
  }

  lemma {:induction false} GapForNothing(fs: seq<string>, std: Standard)
    requires |fs| == 9 && fs[7] == "" && fs[8] == "8"
    ensures !StrictFields(fs, std)
  {
  }

  lemma {:induction false} SevenGroups()
    ensures var h := ["1", "2", "3", "4", "5", "6", "7"];
            AllGroups(h) && Groups(h) == [0, 1, 0, 2, 0, 3, 0, 4, 0, 5, 0, 6, 0, 7]
  {
    hide *;
    EmptyEnds();
    DigitPiece('1');
    GroupsSnoc([], "1");
    assert [] + ["1"] == ["1"] && [] + [0, 1] == [0, 1];
    DigitPiece('2');
    GroupsSnoc(["1"], "2");
    assert ["1"] + ["2"] == ["1", "2"] && [0, 1] + [0, 2] == [0, 1, 0, 2];
    DigitPiece('3');
    GroupsSnoc(["1", "2"], "3");
    assert ["1", "2"] + ["3"] == ["1", "2", "3"] && [0, 1, 0, 2] + [0, 3] == [0, 1, 0, 2, 0, 3];
    DigitPiece('4');
    GroupsSnoc(["1", "2", "3"], "4");
    assert ["1", "2", "3"] + ["4"] == ["1", "2", "3", "4"] && [0, 1, 0, 2, 0, 3] + [0, 4] == [0, 1, 0, 2, 0, 3, 0, 4];
    DigitPiece('5');
    GroupsSnoc(["1", "2", "3", "4"], "5");
    assert ["1", "2", "3", "4"] + ["5"] == ["1", "2", "3", "4", "5"]
        && [0, 1, 0, 2, 0, 3, 0, 4] + [0, 5] == [0, 1, 0, 2, 0, 3, 0, 4, 0, 5];
    DigitPiece('6');
    GroupsSnoc(["1", "2", "3", "4", "5"], "6");
    assert ["1", "2", "3", "4", "5"] + ["6"] == ["1", "2", "3", "4", "5", "6"]
        && [0, 1, 0, 2, 0, 3, 0, 4, 0, 5] + [0, 6] == [0, 1, 0, 2, 0, 3, 0, 4, 0, 5, 0, 6];
    DigitPiece('7');
    GroupsSnoc(["1", "2", "3", "4", "5", "6"], "7");
    assert ["1", "2", "3", "4", "5", "6"] + ["7"] == ["1", "2", "3", "4", "5", "6", "7"]
        && [0, 1, 0, 2, 0, 3, 0, 4, 0, 5, 0, 6] + [0, 7] == [0, 1, 0, 2, 0, 3, 0, 4, 0, 5, 0, 6, 0, 7];
  }

  lemma {:induction false} EightFields()
    ensures var s, fs := "1:2:3:4:5:6:7::8", ["1", "2", "3", "4", "5", "6", "7", "", "8"];
            Fields(s) == fs && Address(s) == FieldsAddress(fs)
  {
    hide Split, Join, FieldsAddress;
    var fs := ["1", "2", "3", "4", "5", "6", "7", "", "8"];
    var s := "1:2:3:4:5:6:7::8";
    assert Join(fs, ':') == s by { EightJoin(); }
    assert Free(fs, ':');
    SplitJoin(fs, ':');
    AddressOf(s);
  }

  lemma {:induction false} EightJoin()
    ensures Join(["1", "2", "3", "4", "5", "6", "7", "", "8"], ':') == "1:2:3:4:5:6:7::8"
  {
    hide *;
    JoinOne("1", ':');
    JoinSnoc(["1"], "2", ':');
    assert ["1"] + ["2"] == ["1", "2"] && "1" + [':'] + "2" == "1:2";
    JoinSnoc(["1", "2"], "3", ':');
    assert ["1", "2"] + ["3"] == ["1", "2", "3"] && "1:2" + [':'] + "3" == "1:2:3";
    JoinSnoc(["1", "2", "3"], "4", ':');
    assert ["1", "2", "3"] + ["4"] == ["1", "2", "3", "4"] && "1:2:3" + [':'] + "4" == "1:2:3:4";
    JoinSnoc(["1", "2", "3", "4"], "5", ':');
    assert ["1", "2", "3", "4"] + ["5"] == ["1", "2", "3", "4", "5"] && "1:2:3:4" + [':'] + "5" == "1:2:3:4:5";
    JoinSnoc(["1", "2", "3", "4", "5"], "6", ':');
    assert ["1", "2", "3", "4", "5"] + ["6"] == ["1", "2", "3", "4", "5", "6"]
        && "1:2:3:4:5" + [':'] + "6" == "1:2:3:4:5:6";
    JoinSnoc(["1", "2", "3", "4", "5", "6"], "7", ':');
    assert ["1", "2", "3", "4", "5", "6"] + ["7"] == ["1", "2", "3", "4", "5", "6", "7"]
        && "1:2:3:4:5:6" + [':'] + "7" == "1:2:3:4:5:6:7";
    JoinSnoc(["1", "2", "3", "4", "5", "6", "7"], "", ':');
    assert ["1", "2", "3", "4", "5", "6", "7"] + [""] == ["1", "2", "3", "4", "5", "6", "7", ""]
        && "1:2:3:4:5:6:7" + [':'] + "" == "1:2:3:4:5:6:7:";
    JoinSnoc(["1", "2", "3", "4", "5", "6", "7", ""], "8", ':');
    assert ["1", "2", "3", "4", "5", "6", "7", ""] + ["8"] == ["1", "2", "3", "4", "5", "6", "7", "", "8"]
        && "1:2:3:4:5:6:7:" + [':'] + "8" == "1:2:3:4:5:6:7::8";
  }
}
