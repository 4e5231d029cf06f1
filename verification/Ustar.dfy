/** ustar archive headers: writing, reading, and why a reader notices damage. */
module Ustar {
  import opened Prelude
  import opened UstarText

  const HeaderSize: nat := 512

  // ---------------------------------------------------------------------
  // The header's fields.

  // name, mode, uid, gid, size, mtime, chksum, typeflag, linkname, magic, version, uname,
  // gname, devmajor, devminor, prefix, padding.
  const Lens: seq<nat> := [100, 8, 8, 8, 12, 12, 8, 1, 100, 6, 2, 32, 32, 8, 8, 155, 12]
  const FieldCnt: nat := 17

  const NameField: nat := 0
  const SizeField: nat := 4
  const ChksumField: nat := 6
  const TypeField: nat := 7
  const MagicField: nat := 9
  const VersionField: nat := 10
  const PrefixField: nat := 15

  /** Where field k starts. */
  function Offset(k: nat): nat
    requires k <= FieldCnt
  {
    if k == 0 then 0 else Offset(k - 1) + Lens[k - 1]
  }

  lemma Offsets()
    ensures Offset(SizeField) == 124 && Offset(ChksumField) == 148 && Offset(TypeField) == 156
    ensures Offset(MagicField) == 257 && Offset(VersionField) == 263 && Offset(PrefixField) == 345
    ensures Offset(FieldCnt) == HeaderSize
  {
    assert Offset(2) == 108 && Offset(4) == 124 && Offset(6) == 148 && Offset(8) == 157 && Offset(10) == 263;
    assert Offset(12) == 297 && Offset(14) == 337 && Offset(16) == 500;
  }

  lemma {:induction false} OffsetMono(i: nat, j: nat)
    requires i <= j <= FieldCnt
    ensures Offset(i) <= Offset(j)
  {
    if i < j {
      OffsetMono(i, j - 1);
    }
  }

  predicate IsHeader(b: Text) {
    |b| == HeaderSize
  }

  function Field(b: Text, k: nat): (f: Text)
    requires IsHeader(b) && k < FieldCnt
    ensures |f| == Lens[k]
  {
    Offsets();
    OffsetMono(k + 1, FieldCnt);
    b[Offset(k)..Offset(k + 1)]
  }

  predicate Fit(fields: seq<Text>) {
    |fields| == FieldCnt && forall k :: 0 <= k < FieldCnt ==> |fields[k]| == Lens[k]
  }

  /** The bytes of the first n fields. */
  function Joined(fields: seq<Text>, n: nat): (b: Text)
    requires Fit(fields) && n <= FieldCnt
    ensures |b| == Offset(n)
  {
    if n == 0 then [] else Joined(fields, n - 1) + fields[n - 1]
  }

  /** The packed record. */
  function Packed(fields: seq<Text>): (b: Text)
    requires Fit(fields)
    ensures IsHeader(b)
  {
    Offsets();
    Joined(fields, FieldCnt)
  }

  lemma SliceOfFront(a: Text, b: Text, i: nat, j: nat)
    requires i <= j <= |a|
    ensures (a + b)[i..j] == a[i..j]
  {
  }

  lemma LastField(a: Text, b: Text)
    ensures (a + b)[|a|..|a| + |b|] == b
  {
  }

  lemma {:induction false} JoinedField(fields: seq<Text>, n: nat, k: nat)
    requires Fit(fields) && k < n <= FieldCnt
    ensures Offset(k) <= Offset(k + 1) <= Offset(n) && Joined(fields, n)[Offset(k)..Offset(k + 1)] == fields[k]
  {
    OffsetMono(k, k + 1);
    OffsetMono(k + 1, n);
    if k == n - 1 {
      LastField(Joined(fields, k), fields[k]);
    } else {
      JoinedField(fields, n - 1, k);
      SliceOfFront(Joined(fields, n - 1), fields[n - 1], Offset(k), Offset(k + 1));
    }
  }

  /** Each field of the record is where it was put. */
  lemma PackedField(fields: seq<Text>, k: nat)
    requires Fit(fields) && k < FieldCnt
    ensures Field(Packed(fields), k) == fields[k]
  {
    JoinedField(fields, FieldCnt, k);
  }

  // ---------------------------------------------------------------------
  // The checksum.

  function Weight(b: Text, i: nat): nat
    requires i < |b|
  {
    if 148 <= i < 156 then Space else b[i]
  }

  /** The sum of the first n bytes, with the chksum field taken as spaces. */
  function Sum(b: Text, n: nat): nat
    requires n <= |b|
  {
    if n == 0 then 0 else Sum(b, n - 1) + Weight(b, n - 1)
  }

  function Chksum(b: Text): nat
    requires IsHeader(b)
  {
    Sum(b, HeaderSize)
  }

  lemma {:induction false} SumBound(b: Text, n: nat)
    requires n <= |b|
    ensures Sum(b, n) <= 255 * n
  {
    if n > 0 {
      SumBound(b, n - 1);
    }
  }

  /** Bytes of the chksum field do not count. */
  lemma {:induction false} SumSame(b: Text, c: Text, n: nat)
    requires n <= |b| == |c| && forall i :: 0 <= i < n && !(148 <= i < 156) ==> b[i] == c[i]
    ensures Sum(b, n) == Sum(c, n)
  {
    if n > 0 {
      SumSame(b, c, n - 1);
    }
  }

  /** Every other byte counts. */
  lemma {:induction false} SumChanged(b: Text, i: nat, v: Byte, n: nat)
    requires i < n <= |b| && !(148 <= i < 156)
    ensures Sum(b[i := v], n) == Sum(b, n) - b[i] + v
  {
    if i == n - 1 {
      SumSame(b, b[i := v], n - 1);
    } else {
      SumChanged(b, i, v, n - 1);
    }
  }

  /** calculate_chksum. */
  method CalculateChksum(b: Text) returns (chksum: nat)
    requires IsHeader(b)
    ensures chksum == Chksum(b)
  {
    chksum := 0;
    for i := 0 to HeaderSize
      invariant chksum == Sum(b, i)
    {
      var inChksumField := 148 <= i < 156;
      chksum := chksum + if inChksumField then Space else b[i];
    }
  }

  // ---------------------------------------------------------------------
  // Writing.

  datatype Type = Regular | Directory {
    function Flag(): Byte {
      if Regular? then 48 else 53
    }
  }

  const UstarMagic: Text := [117, 115, 116, 97, 114, 0]
  const Root: Text := [114, 111, 111, 116]

  /** An int as "%o" prints it: as an unsigned int. */
  function Unsigned(size: int): nat
    requires -0x8000_0000 <= size < 0x8000_0000
  {
    if size < 0 then size + 0x1_0000_0000 else size
  }

  /** The fields before the checksum. */
  function Front(name: Text, kind: Type, size: int): (fields: seq<Text>)
    requires |name| < 100 && -0x8000_0000 <= size < 0x8000_0000
    ensures |fields| == ChksumField && forall k :: 0 <= k < ChksumField ==> |fields[k]| == Lens[k]
  {
    [Padded(name, 100), Octal(if kind.Regular? then 420 else 493, 7) + [Nul], Octal(0, 7) + [Nul], Octal(0, 7) + [Nul],
     Octal(Unsigned(size), 11) + [Nul], Octal(1136102400, 11) + [Nul]]
  }

  /** The fields behind it. */
  function Back(kind: Type): (fields: seq<Text>)
    ensures |fields| == 10 && forall k :: 0 <= k < 10 ==> |fields[k]| == Lens[TypeField + k]
  {
    [[kind.Flag()], Zeros(100), UstarMagic, [Digit0, Digit0], Padded(Root, 32), Padded(Root, 32), Zeros(8), Zeros(8),
     Zeros(155), Zeros(12)]
  }

  function Fields(name: Text, kind: Type, size: int, chksum: Text): (fields: seq<Text>)
    requires |name| < 100 && -0x8000_0000 <= size < 0x8000_0000 && |chksum| == 8
    ensures Fit(fields) && fields[ChksumField] == chksum
  {
    Front(name, kind, size) + [chksum] + Back(kind)
  }

  lemma FieldsChksum(name: Text, kind: Type, size: int, f: Text, g: Text)
    requires |name| < 100 && -0x8000_0000 <= size < 0x8000_0000 && |f| == 8 && |g| == 8
    ensures Fields(name, kind, size, f)[ChksumField := g] == Fields(name, kind, size, g)
  {
  }

  /** The header of a file, with the checksum of the header whose checksum field is zero. */
  function Header(name: Text, kind: Type, size: int): (b: Text)
    requires |name| < 100 && -0x8000_0000 <= size < 0x8000_0000
    ensures IsHeader(b)
  {
    var chksum := Chksum(Packed(Fields(name, kind, size, Zeros(8))));
    Packed(Fields(name, kind, size, Octal(chksum, 7) + [Nul]))
  }

  method FillFront(blank: seq<Text>, name: Text, kind: Type, size: int) returns (h: seq<Text>)
    requires |name| < 100 && -0x8000_0000 <= size < 0x8000_0000 && |blank| == FieldCnt
    ensures h == Front(name, kind, size) + blank[ChksumField..]
  {
    h := blank[NameField := Padded(name, 100)];
    h := h[1 := Octal(if kind.Regular? then 420 else 493, 7) + [Nul]];
    h := h[2 := Octal(0, 7) + [Nul]];
    h := h[3 := Octal(0, 7) + [Nul]];
    h := h[SizeField := Octal(Unsigned(size), 11) + [Nul]];
    h := h[5 := Octal(1136102400, 11) + [Nul]];
    assert h[..ChksumField] == Front(name, kind, size) && h[ChksumField..] == blank[ChksumField..];
  }

  method FillBack(blank: seq<Text>, kind: Type) returns (h: seq<Text>)
    requires |blank| == FieldCnt && forall k :: ChksumField < k < FieldCnt ==> blank[k] == Zeros(Lens[k])
    ensures h == blank[..TypeField] + Back(kind)
  {
    h := blank[TypeField := [kind.Flag()]];
    h := h[MagicField := UstarMagic];
    h := h[VersionField := [Digit0, Digit0]];
    h := h[12 := Padded(Root, 32)];
    h := h[11 := Padded(Root, 32)];
    assert h[..TypeField] == blank[..TypeField] && h[TypeField..] == Back(kind);
  }

  /** The fields but for the checksum, in a record of zeros. */
  method FillFields(name: Text, kind: Type, size: int) returns (h: seq<Text>)
    requires |name| < 100 && -0x8000_0000 <= size < 0x8000_0000
    ensures h == Fields(name, kind, size, Zeros(8))
  {
    h := seq(FieldCnt, k requires 0 <= k < FieldCnt => Zeros(Lens[k]));
    h := FillFront(h, name, kind, size);
    h := FillBack(h, kind);
  }

  /** ustar_make_header: it fails exactly where the stripped name is too long. */
  method MakeHeader(fileName: Text, kind: Type, size: int, header: array<Byte>) returns (ok: bool)
    requires -0x8000_0000 <= size < 0x8000_0000 && header.Length == HeaderSize
    modifies header
    ensures ok <==> |Strip(fileName)| <= 99
    ensures ok ==> header[..] == Header(Strip(fileName), kind, size)
    ensures !ok ==> header[..] == old(header[..])
  {
    var name := StripAntisocialPrefixes(fileName);
    if |name| > 99 {
      return false;
    }
    var h := FillFields(name, kind, size);
    var chksum := CalculateChksum(Packed(h));
    FieldsChksum(name, kind, size, Zeros(8), Octal(chksum, 7) + [Nul]);
    h := h[ChksumField := Octal(chksum, 7) + [Nul]];
    var packed := Packed(h);
    forall i | 0 <= i < HeaderSize {
      header[i] := packed[i];
    }
    assert header[..] == packed;
    return true;
  }

  // ---------------------------------------------------------------------
  // Reading.

  datatype Fault = NotUstar | BadVersion | CorruptChksum | ChksumMismatch | NameTooLong | UnknownType | CorruptSize | TooLarge

  datatype Parsed = Entry(name: Text, kind: Type, size: nat) | EndOfArchive | Error(fault: Fault)

  predicate AllZeros(b: Text) {
    forall i :: 0 <= i < |b| ==> b[i] == Nul
  }

  function ParseSize(b: Text): Parsed
    requires IsHeader(b)
  {
    match ParseOctal(Field(b, SizeField), true, 0)
    case None => Error(CorruptSize)
    case Some(size) => if size > 0x7FFF_FFFF then Error(TooLarge) else Entry(Strip(CString(Field(b, NameField))), Regular, size)
  }

  /** What a header says once its checksum is found to be right. */
  function ParseChecked(b: Text): Parsed
    requires IsHeader(b)
  {
    if Field(b, NameField)[99] != Nul || Field(b, PrefixField)[0] != Nul then Error(NameTooLong)
    else if Field(b, TypeField)[0] == Regular.Flag() then ParseSize(b)
    else if Field(b, TypeField)[0] == Directory.Flag() then Entry(Strip(CString(Field(b, NameField))), Directory, 0)
    else Error(UnknownType)
  }

  function Parse(b: Text): Parsed
    requires IsHeader(b)
  {
    if AllZeros(b) then EndOfArchive
    else if Field(b, MagicField) != UstarMagic then Error(NotUstar)
    else if Field(b, VersionField) != [Digit0, Digit0] then Error(BadVersion)
    else match ParseOctal(Field(b, ChksumField), true, 0)
      case None => Error(CorruptChksum)
      case Some(chksum) => if chksum != Chksum(b) then Error(ChksumMismatch) else ParseChecked(b)
  }

  /** ustar_parse_header. */
  method ParseHeader(b: Text) returns (r: Parsed)
    requires IsHeader(b)
    ensures r == Parse(b)
  {
    var zeros := IsAllZeros(b);
    if zeros {
      return EndOfArchive;
    }
    if Field(b, MagicField) != UstarMagic {
      return Error(NotUstar);
    }
    if Field(b, VersionField) != [Digit0, Digit0] {
      return Error(BadVersion);
    }
    var chksum := ParseOctalField(Field(b, ChksumField));
    if chksum.None? {
      return Error(CorruptChksum);
    }
    var sum := CalculateChksum(b);
    if chksum.value != sum {
      return Error(ChksumMismatch);
    }
    r := ParseRest(b);
  }

  method ParseRest(b: Text) returns (r: Parsed)
    requires IsHeader(b)
    ensures r == ParseChecked(b)
  {
    if Field(b, NameField)[99] != Nul || Field(b, PrefixField)[0] != Nul {
      return Error(NameTooLong);
    }
    var flag := Field(b, TypeField)[0];
    if flag != Regular.Flag() && flag != Directory.Flag() {
      return Error(UnknownType);
    }
    var size := Some(0);
    if flag == Regular.Flag() {
      size := ParseOctalField(Field(b, SizeField));
      if size.None? {
        return Error(CorruptSize);
      }
      if size.value > 0x7FFF_FFFF {
        return Error(TooLarge);
      }
    }
    var name := StripAntisocialPrefixes(CString(Field(b, NameField)));
    r := Entry(name, if flag == Regular.Flag() then Regular else Directory, size.value);
  }

  /** is_all_zeros. */
  method IsAllZeros(block: Text) returns (r: bool)
    ensures r == AllZeros(block)
  {
    for i := 0 to |block|
      invariant forall j :: 0 <= j < i ==> block[j] == Nul
    {
      if block[i] != Nul {
        return false;
      }
    }
    return true;
  }

  // ---------------------------------------------------------------------
  // Writing, then reading.

  /** Changing one field changes the record in that field only. */
  lemma {:induction false} JoinedElsewhere(fields: seq<Text>, k: nat, f: Text, n: nat, i: nat)
    requires Fit(fields) && k < FieldCnt && |f| == Lens[k] && n <= FieldCnt && i < Offset(n)
    requires i < Offset(k) || Offset(k + 1) <= i
    ensures Joined(fields[k := f], n)[i] == Joined(fields, n)[i]
  {
    if n > 0 && i < Offset(n - 1) {
      JoinedElsewhere(fields, k, f, n - 1, i);
    }
  }

  /** The checksum of the finished header is the one written into it. */
  lemma ChksumStays(fields: seq<Text>, f: Text)
    requires Fit(fields) && |f| == 8
    ensures Chksum(Packed(fields[ChksumField := f])) == Chksum(Packed(fields))
  {
    Offsets();
    var b, c := Packed(fields), Packed(fields[ChksumField := f]);
    forall i | 0 <= i < HeaderSize && !(148 <= i < 156) ensures b[i] == c[i] {
      JoinedElsewhere(fields, ChksumField, f, FieldCnt, i);
    }
    SumSame(c, b, HeaderSize);
  }

  lemma Eights()
    ensures Pow8(7) == 0x20_0000 && Pow8(11) == 0x2_0000_0000
  {
    assert Pow8(3) == 512 && Pow8(5) == 0x8000 && Pow8(7) == 0x20_0000 && Pow8(9) == 0x800_0000;
  }

  lemma MadeFields(name: Text, kind: Type, size: int, k: nat)
    requires |name| < 100 && -0x8000_0000 <= size < 0x8000_0000 && k < FieldCnt
    ensures var chksum := Chksum(Header(name, kind, size));
            Field(Header(name, kind, size), k) == Fields(name, kind, size, Octal(chksum, 7) + [Nul])[k]
  {
    var blank := Fields(name, kind, size, Zeros(8));
    var f := Octal(Chksum(Packed(blank)), 7) + [Nul];
    FieldsChksum(name, kind, size, Zeros(8), f);
    ChksumStays(blank, f);
    PackedField(Fields(name, kind, size, f), k);
  }

  lemma MadeIsChecked(name: Text, kind: Type, size: int)
    requires |name| < 100 && -0x8000_0000 <= size < 0x8000_0000
    ensures Parse(Header(name, kind, size)) == ParseChecked(Header(name, kind, size))
  {
    var b := Header(name, kind, size);
    MadeFields(name, kind, size, MagicField);
    MadeFields(name, kind, size, VersionField);
    MadeFields(name, kind, size, ChksumField);
    Offsets();
    assert b[257] == Field(b, MagicField)[0];
    SumBound(b, HeaderSize);
    Eights();
    OctalBack(Chksum(b), 7);
  }

  /** Reading a written header gives back the name, stripped, the type, and the size, which
      is 0 for a directory, exactly where the size is not a negative one of a regular file;
      such a size reads as too large. */
  lemma RoundTrip(fileName: Text, kind: Type, size: int)
    requires Nul !in fileName && |Strip(fileName)| <= 99 && -0x8000_0000 <= size < 0x8000_0000
    ensures Parse(Header(Strip(fileName), kind, size)) ==
            if kind.Directory? then Entry(Strip(fileName), Directory, 0)
            else if size < 0 then Error(TooLarge)
            else Entry(Strip(fileName), Regular, size)
  {
    var name := Strip(fileName);
    var b := Header(name, kind, size);
    MadeIsChecked(name, kind, size);
    MadeFront(name, kind, size);
    MadeBack(name, kind, size);
    StripIdempotent(fileName);
    StripNoNul(fileName);
    PaddedBack(name, 100);
    Eights();
    OctalBack(Unsigned(size), 11);
  }

  lemma MadeFront(name: Text, kind: Type, size: int)
    requires |name| < 100 && -0x8000_0000 <= size < 0x8000_0000
    ensures var b := Header(name, kind, size);
            Field(b, NameField) == Padded(name, 100) && Field(b, SizeField) == Octal(Unsigned(size), 11) + [Nul]
  {
    MadeFields(name, kind, size, NameField);
    MadeFields(name, kind, size, SizeField);
  }

  lemma MadeBack(name: Text, kind: Type, size: int)
    requires |name| < 100 && -0x8000_0000 <= size < 0x8000_0000
    ensures var b := Header(name, kind, size);
            Field(b, TypeField)[0] == kind.Flag() && Field(b, PrefixField)[0] == Nul
  {
    MadeFields(name, kind, size, TypeField);
    MadeFields(name, kind, size, PrefixField);
  }

  lemma StripNoNul(name: Text)
    requires Nul !in name
    ensures Nul !in Strip(name)
  {
    StripIsTail(name);
    if Strip(name) != [Dot] {
      var k :| TailFrom(name, k, Strip(name));
    }
  }

  // ---------------------------------------------------------------------
  // Damage.

  predicate Accepted(b: Text)
    requires IsHeader(b)
  {
    Parse(b).Entry?
  }

  /** Changing any one byte outside the chksum field of an accepted header is noticed. */
  lemma DamageNoticed(b: Text, i: nat, v: Byte)
    requires IsHeader(b) && Accepted(b) && i < HeaderSize && v != b[i] && !(148 <= i < 156)
    ensures Parse(b[i := v]).Error?
  {
    var c := b[i := v];
    Offsets();
    assert Field(c, ChksumField) == Field(b, ChksumField);
    SumChanged(b, i, v, HeaderSize);
    assert Field(b, MagicField)[0] == b[257] && Field(b, MagicField)[1] == b[258];
    assert c[257] != Nul || c[258] != Nul;
  }

  /** Within the chksum field it is noticed exactly where the field's value changes; otherwise
      the header means what it meant. */
  lemma ChksumDamage(b: Text, i: nat, v: Byte)
    requires IsHeader(b) && Accepted(b) && 148 <= i < 156
    ensures if ParseOctal(Field(b[i := v], ChksumField), true, 0) == ParseOctal(Field(b, ChksumField), true, 0)
            then Parse(b[i := v]) == Parse(b)
            else Parse(b[i := v]).Error?
  {
    var c := b[i := v];
    Offsets();
    SumSame(b, c, HeaderSize);
    assert Field(b, MagicField)[0] == b[257] == c[257];
    forall k | 0 <= k < FieldCnt && k != ChksumField ensures Field(c, k) == Field(b, k) {
      if k < ChksumField {
        OffsetMono(k + 1, ChksumField);
      } else {
        OffsetMono(TypeField, k);
      }
    }
  }

  /** The chksum field's null byte may become a space unnoticed. */
  lemma ChksumTerminator(name: Text, kind: Type, size: int)
    requires |name| < 100 && -0x8000_0000 <= size < 0x8000_0000 && Accepted(Header(name, kind, size))
    ensures var b := Header(name, kind, size);
            b[155] == Nul && Parse(b[155 := Space]) == Parse(b)
  {
    var b := Header(name, kind, size);
    var c := b[155 := Space];
    Offsets();
    MadeFields(name, kind, size, ChksumField);
    var digits := Octal(Chksum(b), 7);
    assert Field(b, ChksumField)[7] == b[155];
    assert Field(c, ChksumField) == digits + [Space];
    SumBound(b, HeaderSize);
    Eights();
    OctalBack(Chksum(b), 7);
    OctalStep(Chksum(b), 7, [Space]);
    ChksumDamage(b, 155, Space);
  }
}
