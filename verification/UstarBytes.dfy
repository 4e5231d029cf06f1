/** The ustar header byte by byte, at the offsets the format fixes, and what its texts and numbers
    mean, without the functions that write and read them. */
module UstarBytes {
  import opened Prelude
  import opened UstarText
  import opened Ustar

  // ---------------------------------------------------------------------
  // Names.

  /** A name that starts with none of the prefixes, is not empty and is not ".." stays as it is; a
      prefix is dropped and nothing else with it; what is left of nothing or of ".." is ".". */
  lemma StripMeans(rest: Text)
    ensures !Antisocial(rest) && rest != [] && rest != [46, 46] ==> Strip(rest) == rest
    ensures Strip([47] + rest) == Strip(rest) && Strip([46, 47] + rest) == Strip(rest) && Strip([46, 46, 47] + rest) == Strip(rest)
    ensures Strip([]) == [46] && Strip([46, 46]) == [46]
  {
    Dropped([47], rest);
    Dropped([46, 47], rest);
    Dropped([46, 46, 47], rest);
  }

  lemma AntisocialMeans(name: Text)
    ensures Antisocial(name) <==> exists rest ::
      name == [47] + rest || name == [46, 47] + rest || name == [46, 46, 47] + rest
  {
    if StartsWith(name, [47]) {
      assert name == [47] + name[1..];
    } else if StartsWith(name, [46, 47]) {
      assert name == [46, 47] + name[2..];
    } else if StartsWith(name, [46, 46, 47]) {
      assert name == [46, 46, 47] + name[3..];
    }
  }

  lemma Dropped(prefix: Text, rest: Text)
    requires prefix == [47] || prefix == [46, 47] || prefix == [46, 46, 47]
    ensures Strip(prefix + rest) == Strip(rest)
  {
    var name := prefix + rest;
    assert forall i :: 0 <= i < |prefix| ==> name[i] == prefix[i];
    assert StartsWith(name, prefix) && Antisocial(name);
    HasSlash(name);
    var i := FirstSlash(name);
    assert name[|prefix| - 1] == 47 && i == |prefix| - 1;
    assert name[i + 1..] == rest;
  }

  // ---------------------------------------------------------------------
  // Numbers.

  predicate OctalDigits(d: Text) {
    forall i :: 0 <= i < |d| ==> 48 <= d[i] <= 55
  }

  /** The number that octal digits stand for. */
  function Value(d: Text): nat
    requires OctalDigits(d)
  {
    if d == [] then 0 else 8 * Value(d[..|d| - 1]) + (d[|d| - 1] - 48)
  }

  /** Octal digits, at least one, closed by a space or a null byte. */
  ghost predicate IsNumber(s: Text, n: int, v: nat) {
    0 < n < |s| && OctalDigits(s[..n]) && (s[n] == 32 || s[n] == 0) && v == Value(s[..n])
  }

  lemma {:induction false} ValueGrows(d: Text, n: nat)
    requires OctalDigits(d) && n <= |d|
    ensures Value(d[..n]) <= Value(d)
    decreases |d|
  {
    if n == |d| {
      assert d[..n] == d;
    } else {
      ValueGrows(d[..|d| - 1], n);
      assert d[..|d| - 1][..n] == d[..n];
    }
  }

  lemma DigitInside(s: Text, n: int, v: nat, i: nat)
    requires IsNumber(s, n, v) && i < n
    ensures 48 <= s[i] <= 55
  {
    assert s[..n][i] == s[i];
  }

  lemma {:induction false} ParseFrom(s: Text, ofs: nat)
    requires ofs <= |s| && OctalDigits(s[..ofs]) && Value(s[..ofs]) <= ULongMax
    ensures var r := ParseOctal(s[ofs..], ofs == 0, Value(s[..ofs]));
      && (r.Some? ==> r.value <= ULongMax && exists n :: ofs <= n && IsNumber(s, n, r.value))
      && (forall n, v: nat :: ofs <= n && IsNumber(s, n, v) && v <= ULongMax ==> r == Some(v))
    decreases |s| - ofs
  {
    var r := ParseOctal(s[ofs..], ofs == 0, Value(s[..ofs]));
    if ofs < |s| && 48 <= s[ofs] <= 55 {
      var d := s[..ofs + 1];
      assert d[..ofs] == s[..ofs] && Value(d) == 8 * Value(s[..ofs]) + (s[ofs] - 48);
      assert s[ofs..][0] == s[ofs] && s[ofs..][1..] == s[ofs + 1..];
      if Value(d) <= ULongMax {
        ParseFrom(s, ofs + 1);
      }
      forall n, v: nat | ofs <= n && IsNumber(s, n, v) && v <= ULongMax ensures r == Some(v) {
        assert n > ofs && s[..n][..ofs + 1] == d;
        ValueGrows(s[..n], ofs + 1);
      }
    } else if ofs < |s| {
      assert s[ofs..][0] == s[ofs];
      forall n, v: nat | ofs <= n && IsNumber(s, n, v) ensures n == ofs {
        if ofs < n {
          DigitInside(s, n, v, ofs);
        }
      }
      assert r.Some? ==> IsNumber(s, ofs, r.value);
    }
  }

  /** A field reads as v exactly when it is a number of value v that fits an unsigned long. */
  lemma ParseOctalMeans(s: Text, v: nat)
    ensures ParseOctal(s, true, 0) == Some(v) <==> v <= ULongMax && exists n :: IsNumber(s, n, v)
  {
    assert s[..0] == [] && s[0..] == s;
    ParseFrom(s, 0);
    if n :| IsNumber(s, n, v) {
      assert 0 <= n;
    }
  }

  lemma {:induction false} OctalValue(v: nat, n: nat)
    requires v < Pow8(n)
    ensures OctalDigits(Octal(v, n)) && Value(Octal(v, n)) == v
  {
    if n > 0 {
      OctalValue(v / 8, n - 1);
      var d := Octal(v, n);
      assert d[..n - 1] == Octal(v / 8, n - 1);
    }
  }

  // ---------------------------------------------------------------------
  // The checksum.

  lemma {:induction false} SumOfZeros(n: nat)
    requires n <= HeaderSize
    ensures Sum(Zeros(HeaderSize), n) == if n <= 148 then 0 else if n < 156 then 32 * (n - 148) else 256
  {
    if n > 0 {
      SumOfZeros(n - 1);
    }
  }

  /** An empty record sums to eight spaces, and each byte outside bytes 148 to 155 adds itself: with
      this every checksum is determined. */
  lemma ChksumMeans(b: Text, i: nat, v: Byte)
    requires IsHeader(b) && i < HeaderSize
    ensures Chksum(Zeros(HeaderSize)) == 256
    ensures Chksum(b[i := v]) == Chksum(b) + if 148 <= i <= 155 then 0 else v as int - b[i] as int
  {
    SumOfZeros(HeaderSize);
    if 148 <= i <= 155 {
      SumSame(b, b[i := v], HeaderSize);
    } else {
      SumChanged(b, i, v, HeaderSize);
    }
  }

  // ---------------------------------------------------------------------
  // A written header.

  /** Bytes from and up to, but not including. */
  function Bytes(b: Text, from: nat, to: nat): Text
    requires IsHeader(b) && from <= to <= HeaderSize
  {
    b[from..to]
  }

  lemma FieldIs(b: Text, k: nat, from: nat, to: nat)
    requires IsHeader(b) && k < FieldCnt && from == Offset(k) && to == Offset(k + 1)
    ensures from <= to <= HeaderSize && Field(b, k) == Bytes(b, from, to)
  {
    AllOffsets();
    OffsetMono(k, k + 1);
    OffsetMono(k + 1, FieldCnt);
  }

  lemma AllOffsets()
    ensures Offset(0) == 0 && Offset(1) == 100 && Offset(2) == 108 && Offset(3) == 116 && Offset(4) == 124 && Offset(5) == 136
    ensures Offset(6) == 148 && Offset(7) == 156 && Offset(8) == 157 && Offset(9) == 257 && Offset(10) == 263
    ensures Offset(11) == 265 && Offset(12) == 297 && Offset(13) == 329 && Offset(14) == 337 && Offset(15) == 345
    ensures Offset(16) == 500 && Offset(17) == 512
  {
    Offsets();
    assert Offset(2) == 108 && Offset(4) == 124 && Offset(6) == 148;
    assert Offset(8) == 157 && Offset(10) == 263 && Offset(12) == 297 && Offset(14) == 337;
  }

  lemma OneDigit(v: nat, n: nat, q: nat, d: nat)
    requires v == 8 * q + d && d < 8
    ensures Octal(v, n + 1) == Octal(q, n) + [48 + d]
  {
    assert v / 8 == q && v % 8 == d;
  }

  lemma {:induction false} OctalZero(n: nat)
    ensures |Octal(0, n)| == n && forall i :: 0 <= i < n ==> Octal(0, n)[i] == 48
  {
    if n > 0 {
      OctalZero(n - 1);
      OneDigit(0, n - 1, 0, 0);
    }
  }

  lemma OctalModes()
    ensures Octal(0, 7) == [48, 48, 48, 48, 48, 48, 48]
    ensures Octal(420, 7) == [48, 48, 48, 48, 54, 52, 52] && Octal(493, 7) == [48, 48, 48, 48, 55, 53, 53]
  {
    OctalZero(4);
    OctalZero(7);
    OneDigit(6, 4, 0, 6);
    OneDigit(52, 5, 6, 4);
    OneDigit(420, 6, 52, 4);
    OneDigit(7, 4, 0, 7);
    OneDigit(61, 5, 7, 5);
    OneDigit(493, 6, 61, 5);
  }

  lemma OctalTime()
    ensures Octal(1136102400, 11) == [49, 48, 51, 53, 53, 55, 48, 54, 48, 48, 48]
  {
    OneDigit(1136102400, 10, 142012800, 0);
    OneDigit(142012800, 9, 17751600, 0);
    OneDigit(17751600, 8, 2218950, 0);
    OneDigit(2218950, 7, 277368, 6);
    OneDigit(277368, 6, 34671, 0);
    OneDigit(34671, 5, 4333, 7);
    OneDigit(4333, 4, 541, 5);
    OneDigit(541, 3, 67, 5);
    OneDigit(67, 2, 8, 3);
    OneDigit(8, 1, 1, 0);
    OneDigit(1, 0, 0, 1);
  }

  /** The constant bytes of a made header: mode 644 or 755, user and group 0, the time, the type
      flag, magic and version, root as user and group, and zeros. */
  lemma MadeBytes(name: Text, kind: Type, size: int)
    requires |name| < 100 && -0x8000_0000 <= size < 0x8000_0000
    ensures var b := Header(name, kind, size);
      && Bytes(b, 100, 108) == [48, 48, 48, 48] + (if kind.Regular? then [54, 52, 52] else [55, 53, 53]) + [0]
      && Bytes(b, 108, 116) == Bytes(b, 116, 124) == [48, 48, 48, 48, 48, 48, 48, 0]
      && Bytes(b, 136, 148) == [49, 48, 51, 53, 53, 55, 48, 54, 48, 48, 48, 0]
      && b[156] == (if kind.Regular? then 48 else 53)
      && Bytes(b, 257, 265) == [117, 115, 116, 97, 114, 0, 48, 48]
      && Bytes(b, 265, 269) == Bytes(b, 297, 301) == [114, 111, 111, 116]
  {
    MadeMode(name, kind, size);
    MadeOwner(name, kind, size);
    MadeTime(name, kind, size);
    MadeLater(name, kind, size);
  }

  /** Field k of a made header, by its bytes. */
  lemma MadeField(name: Text, kind: Type, size: int, k: nat, from: nat, to: nat)
    requires |name| < 100 && -0x8000_0000 <= size < 0x8000_0000 && k < FieldCnt && from == Offset(k) && to == Offset(k + 1)
    ensures from <= to <= HeaderSize
    ensures var chksum := Octal(Chksum(Header(name, kind, size)), 7) + [Nul];
      Bytes(Header(name, kind, size), from, to) == Fields(name, kind, size, chksum)[k]
  {
    MadeFields(name, kind, size, k);
    FieldIs(Header(name, kind, size), k, from, to);
  }

  lemma MadeMode(name: Text, kind: Type, size: int)
    requires |name| < 100 && -0x8000_0000 <= size < 0x8000_0000
    ensures Bytes(Header(name, kind, size), 100, 108) ==
      [48, 48, 48, 48] + (if kind.Regular? then [54, 52, 52] else [55, 53, 53]) + [0]
  {
    AllOffsets();
    OctalModes();
    MadeField(name, kind, size, 1, 100, 108);
  }

  lemma MadeOwner(name: Text, kind: Type, size: int)
    requires |name| < 100 && -0x8000_0000 <= size < 0x8000_0000
    ensures var b := Header(name, kind, size);
      Bytes(b, 108, 116) == Bytes(b, 116, 124) == [48, 48, 48, 48, 48, 48, 48, 0]
  {
    AllOffsets();
    OctalModes();
    MadeField(name, kind, size, 2, 108, 116);
    MadeField(name, kind, size, 3, 116, 124);
  }

  lemma MadeTime(name: Text, kind: Type, size: int)
    requires |name| < 100 && -0x8000_0000 <= size < 0x8000_0000
    ensures Bytes(Header(name, kind, size), 136, 148) == [49, 48, 51, 53, 53, 55, 48, 54, 48, 48, 48, 0]
  {
    AllOffsets();
    OctalTime();
    MadeField(name, kind, size, 5, 136, 148);
  }

  lemma MadeLater(name: Text, kind: Type, size: int)
    requires |name| < 100 && -0x8000_0000 <= size < 0x8000_0000
    ensures var b := Header(name, kind, size);
      && b[156] == (if kind.Regular? then 48 else 53)
      && Bytes(b, 257, 265) == [117, 115, 116, 97, 114, 0, 48, 48]
      && Bytes(b, 265, 269) == Bytes(b, 297, 301) == [114, 111, 111, 116]
  {
    var b := Header(name, kind, size);
    AllOffsets();
    MadeFields(name, kind, size, 7);
    MadeFields(name, kind, size, 9);
    MadeFields(name, kind, size, 10);
    MadeFields(name, kind, size, 11);
    MadeFields(name, kind, size, 12);
    FieldIs(b, 7, 156, 157);
    FieldIs(b, 9, 257, 263);
    FieldIs(b, 10, 263, 265);
    FieldIs(b, 11, 265, 297);
    FieldIs(b, 12, 297, 329);
    assert b[156] == Bytes(b, 156, 157)[0];
    assert Bytes(b, 257, 265) == Bytes(b, 257, 263) + Bytes(b, 263, 265);
    assert Bytes(b, 265, 269) == Bytes(b, 265, 297)[..4] == Padded(Root, 32)[..4];
    assert Bytes(b, 297, 301) == Bytes(b, 297, 329)[..4];
  }

  /** Its name, size and checksum: the name and null bytes, eleven digits of the size as an unsigned
      number, seven of the checksum of the record. */
  lemma MadeNumbers(name: Text, kind: Type, size: int)
    requires |name| < 100 && -0x8000_0000 <= size < 0x8000_0000
    ensures var b := Header(name, kind, size);
      && b[..|name|] == name && (forall i :: |name| <= i < 100 ==> b[i] == 0)
      && IsNumber(Bytes(b, 124, 136), 11, if size < 0 then size + 0x1_0000_0000 else size)
      && IsNumber(Bytes(b, 148, 156), 7, Chksum(b))
  {
    var b := Header(name, kind, size);
    AllOffsets();
    MadeFields(name, kind, size, 0);
    MadeFields(name, kind, size, 4);
    MadeFields(name, kind, size, 6);
    FieldIs(b, 0, 0, 100);
    FieldIs(b, 4, 124, 136);
    FieldIs(b, 6, 148, 156);
    assert b[..|name|] == Bytes(b, 0, 100)[..|name|];
    forall i | |name| <= i < 100 ensures b[i] == 0 {
      assert b[i] == Bytes(b, 0, 100)[i];
    }
    Eights();
    SumBound(b, HeaderSize);
    OctalValue(Unsigned(size), 11);
    OctalValue(Chksum(b), 7);
    assert Bytes(b, 124, 136)[..11] == Octal(Unsigned(size), 11) && Bytes(b, 148, 156)[..7] == Octal(Chksum(b), 7);
  }

  // ---------------------------------------------------------------------
  // A read header.

  ghost predicate ReadsAs(s: Text, v: nat) {
    v <= ULongMax && exists n :: IsNumber(s, n, v)
  }

  /** The header is in order: magic, version, checksum and the ends of the names. */
  ghost predicate InOrder(b: Text)
    requires IsHeader(b)
  {
    && Bytes(b, 257, 265) == [117, 115, 116, 97, 114, 0, 48, 48] && ReadsAs(Bytes(b, 148, 156), Chksum(b))
    && b[99] == 0 && b[345] == 0
  }

  lemma ParseFields(b: Text)
    requires IsHeader(b)
    ensures Field(b, NameField) == Bytes(b, 0, 100) && Field(b, SizeField) == Bytes(b, 124, 136)
    ensures Field(b, ChksumField) == Bytes(b, 148, 156) && Field(b, TypeField)[0] == b[156]
    ensures Field(b, MagicField) == Bytes(b, 257, 263) && Field(b, VersionField) == Bytes(b, 263, 265)
    ensures Field(b, NameField)[99] == b[99] && Field(b, PrefixField)[0] == b[345]
    ensures Bytes(b, 257, 265) == Bytes(b, 257, 263) + Bytes(b, 263, 265)
  {
    AllOffsets();
  }

  lemma ReadsMeans(s: Text, v: nat)
    ensures ParseOctal(s, true, 0) == Some(v) <==> ReadsAs(s, v)
  {
    ParseOctalMeans(s, v);
  }

  /** The size field is read as a size that fits an int. */
  ghost predicate HasSize(b: Text)
    requires IsHeader(b)
  {
    exists v :: ReadsAs(Bytes(b, 124, 136), v) && v <= 0x7FFF_FFFF
  }

  lemma ParseSizeMeans(b: Text)
    requires IsHeader(b)
    ensures ParseSize(b).Entry? <==> HasSize(b)
    ensures ParseSize(b).Entry? ==>
      ReadsAs(Bytes(b, 124, 136), ParseSize(b).size) && ParseSize(b).kind == Regular && ParseSize(b).name == Strip(CString(b[..100]))
    ensures !ParseSize(b).EndOfArchive?
  {
    ParseFields(b);
    forall v: nat ensures ParseOctal(Bytes(b, 124, 136), true, 0) == Some(v) <==> ReadsAs(Bytes(b, 124, 136), v) {
      ReadsMeans(Bytes(b, 124, 136), v);
    }
  }

  lemma OrderMeans(b: Text)
    requires IsHeader(b) && !AllZeros(b)
    ensures InOrder(b) ==> Parse(b) == ParseChecked(b)
    ensures !InOrder(b) ==> Parse(b).Error?
  {
    ParseFields(b);
    ReadsMeans(Bytes(b, 148, 156), Chksum(b));
    assert Bytes(b, 257, 263) == UstarMagic && Bytes(b, 263, 265) == [48, 48] <==>
      Bytes(b, 257, 265) == [117, 115, 116, 97, 114, 0, 48, 48] by {
      MagicMeans(Bytes(b, 257, 263), Bytes(b, 263, 265));
    }
  }

  lemma MagicMeans(m: Text, v: Text)
    requires |m| == 6 && |v| == 2
    ensures m + v == [117, 115, 116, 97, 114, 0, 48, 48] <==> m == UstarMagic && v == [48, 48]
  {
    if m + v == [117, 115, 116, 97, 114, 0, 48, 48] {
      assert m == (m + v)[..6] && v == (m + v)[6..];
    }
  }

  /** A header is read as an entry exactly when it is in order and describes a regular file, flag
      '0', of a size that fits an int, or a directory, flag '5', which has size 0; and as the end of
      the archive exactly when it is all zeros. */
  lemma ParseMeans(b: Text)
    requires IsHeader(b)
    ensures Parse(b).EndOfArchive? <==> forall i :: 0 <= i < 512 ==> b[i] == 0
    ensures Parse(b).Entry? <==> InOrder(b) && (b[156] == 53 || (b[156] == 48 && HasSize(b)))
    ensures Parse(b).Entry? ==> Parse(b).name == Strip(CString(b[..100]))
    ensures Parse(b).Entry? ==> (Parse(b).kind.Regular? <==> b[156] == 48) && (Parse(b).kind.Directory? <==> b[156] == 53)
    ensures Parse(b).Entry? ==> if b[156] == 48 then ReadsAs(Bytes(b, 124, 136), Parse(b).size) else Parse(b).size == 0
  {
    ParseFields(b);
    ParseSizeMeans(b);
    if AllZeros(b) {
      assert Bytes(b, 257, 265)[0] == b[257];
    } else {
      OrderMeans(b);
    }
  }

  ghost predicate Reads(s: Text) {
    exists v :: ReadsAs(s, v)
  }

  lemma ReadsExactly(s: Text)
    ensures Reads(s) <==> ParseOctal(s, true, 0).Some?
  {
    var r := ParseOctal(s, true, 0);
    if r.Some? {
      ReadsMeans(s, r.value);
    } else if v :| ReadsAs(s, v) {
      ReadsMeans(s, v);
    }
  }

  /** The faults of a header that is not all zeros, each reported exactly when none before it is
      found: magic, version, checksum field, checksum, names, type, size field, size. */
  lemma FaultsMean(b: Text)
    requires IsHeader(b) && !AllZeros(b)
    ensures var fine, r := Bytes(b, 257, 263) == [117, 115, 116, 97, 114, 0], Parse(b);
      && (r == Error(NotUstar) <==> !fine)
      && (r == Error(BadVersion) <==> fine && Bytes(b, 263, 265) != [48, 48])
      && (fine && Bytes(b, 263, 265) == [48, 48] ==>
            && (r == Error(CorruptChksum) <==> !Reads(Bytes(b, 148, 156)))
            && (r == Error(ChksumMismatch) <==> Reads(Bytes(b, 148, 156)) && !ReadsAs(Bytes(b, 148, 156), Chksum(b)))
            && (r == Error(NameTooLong) <==> ReadsAs(Bytes(b, 148, 156), Chksum(b)) && (b[99] != 0 || b[345] != 0)))
    ensures InOrder(b) ==>
      && (Parse(b) == Error(UnknownType) <==> b[156] != 48 && b[156] != 53)
      && (Parse(b) == Error(CorruptSize) <==> b[156] == 48 && !Reads(Bytes(b, 124, 136)))
      && (Parse(b) == Error(TooLarge) <==> b[156] == 48 && Reads(Bytes(b, 124, 136)) && !HasSize(b))
  {
    ParseFields(b);
    ReadsMeans(Bytes(b, 148, 156), Chksum(b));
    ReadsExactly(Bytes(b, 148, 156));
    ReadsExactly(Bytes(b, 124, 136));
    ParseSizeMeans(b);
    OrderMeans(b);
  }
}
