/** The text inside a ustar header: file names without prefixes that lead out of the
    archive's directory, and octal numbers. */
module UstarText {
  import opened Prelude

  type Text = seq<Byte>

  const Nul: Byte := 0
  const Space: Byte := 32
  const Dot: Byte := 46
  const Slash: Byte := 47
  const Digit0: Byte := 48
  const Digit7: Byte := 55

  // ---------------------------------------------------------------------
  // File names.

  predicate StartsWith(s: Text, p: Text) {
    |p| <= |s| && forall i :: 0 <= i < |p| ==> s[i] == p[i]
  }

  /** The name starts with "/", "./" or "../". */
  predicate Antisocial(name: Text) {
    StartsWith(name, [Slash]) || StartsWith(name, [Dot, Slash]) || StartsWith(name, [Dot, Dot, Slash])
  }

  /** strchr for a slash. */
  function FirstSlash(name: Text): (i: nat)
    requires Slash in name
    ensures i < |name| && name[i] == Slash && Slash !in name[..i]
  {
    if name[0] == Slash then 0 else 1 + FirstSlash(name[1..])
  }

  function Strip(name: Text): Text
    decreases |name|
  {
    if Antisocial(name) then
      HasSlash(name);
      Strip(name[FirstSlash(name) + 1..])
    else if name == [] || name == [Dot, Dot] then [Dot]
    else name
  }

  /** The rest of the name from k on, which is its start or follows a slash. */
  ghost predicate TailFrom(name: Text, k: int, s: Text) {
    0 <= k <= |name| && s == name[k..] && (k == 0 || name[k - 1] == Slash)
  }

  lemma HasSlash(name: Text)
    requires Antisocial(name)
    ensures Slash in name
  {
    assert name[0] == Slash || name[1] == Slash || name[2] == Slash;
  }

  /** A stripped name has none of the prefixes, is not empty and is not "..". */
  lemma {:induction false} StripSafe(name: Text)
    ensures !Antisocial(Strip(name)) && Strip(name) != [] && Strip(name) != [Dot, Dot]
    decreases |name|
  {
    if Antisocial(name) {
      HasSlash(name);
      StripSafe(name[FirstSlash(name) + 1..]);
    } else if name == [] || name == [Dot, Dot] {
      assert [Dot][0] != Slash;
    }
  }

  lemma TailOfTail(name: Text, i: nat, k: int, s: Text)
    requires 0 < i <= |name| && name[i - 1] == Slash && TailFrom(name[i..], k, s)
    ensures TailFrom(name, i + k, s)
  {
    assert name[i..][k..] == name[i + k..];
  }

  /** It is "." or the end of the name, from the start or from behind a slash. */
  lemma {:induction false} StripIsTail(name: Text)
    ensures Strip(name) == [Dot] || exists k :: TailFrom(name, k, Strip(name))
    decreases |name|
  {
    if Antisocial(name) {
      HasSlash(name);
      var i := FirstSlash(name) + 1;
      var rest := name[i..];
      StripIsTail(rest);
      if Strip(rest) != [Dot] {
        var k :| TailFrom(rest, k, Strip(rest));
        TailOfTail(name, i, k, Strip(rest));
      }
    } else {
      assert TailFrom(name, 0, name);
    }
  }

  /** Stripping twice is stripping once. */
  lemma StripIdempotent(name: Text)
    ensures Strip(Strip(name)) == Strip(name)
  {
    StripSafe(name);
  }

  /** strip_antisocial_prefixes. */
  method StripAntisocialPrefixes(fileName: Text) returns (r: Text)
    ensures r == Strip(fileName)
  {
    var name := fileName;
    while Antisocial(name)
      invariant Strip(name) == Strip(fileName)
      decreases |name|
    {
      HasSlash(name);
      name := name[FirstSlash(name) + 1..];
    }
    r := if name == [] || name == [Dot, Dot] then [Dot] else name;
  }

  // ---------------------------------------------------------------------
  // C strings.

  /** The bytes up to the first null byte, or all of them. */
  function CString(s: Text): (r: Text)
    ensures Nul !in r && |r| <= |s|
  {
    if s == [] || s[0] == Nul then [] else [s[0]] + CString(s[1..])
  }

  function Zeros(n: nat): (r: Text)
    ensures |r| == n && forall i :: 0 <= i < n ==> r[i] == Nul
  {
    seq(n, _ => Nul)
  }

  /** What strlcpy leaves in a zeroed field of n bytes. */
  function Padded(s: Text, n: nat): (r: Text)
    requires |s| < n
    ensures |r| == n
  {
    s + Zeros(n - |s|)
  }

  /** A name that fits its field with a null byte to spare comes back from it. */
  lemma {:induction false} PaddedBack(s: Text, n: nat)
    requires |s| < n && Nul !in s
    ensures CString(Padded(s, n)) == s
  {
    if s != [] {
      PaddedBack(s[1..], n - 1);
      assert Padded(s, n)[1..] == Padded(s[1..], n - 1);
    }
  }

  // ---------------------------------------------------------------------
  // Octal numbers.

  function Pow8(n: nat): nat {
    if n == 0 then 1 else 8 * Pow8(n - 1)
  }

  /** "%0no": n octal digits. */
  function Octal(v: nat, n: nat): (r: Text)
    ensures |r| == n && forall i :: 0 <= i < n ==> Digit0 <= r[i] <= Digit7
  {
    if n == 0 then [] else Octal(v / 8, n - 1) + [Digit0 + v % 8]
  }

  /** The largest value of an unsigned long. */
  const ULongMax: nat := 0xFFFF_FFFF

  /** The value of the digits so far and the rest of the field. */
  function ParseOctal(s: Text, empty: bool, value: nat): Option<nat> {
    if s == [] then None
    else if Digit0 <= s[0] <= Digit7 then
      if value > ULongMax / 8 then None else ParseOctal(s[1..], false, s[0] - Digit0 + value * 8)
    else if s[0] == Space || s[0] == Nul then
      if empty then None else Some(value)
    else None
  }

  /** A printed number comes back. */
  lemma {:induction false} OctalStep(v: nat, n: nat, tail: Text)
    requires v <= ULongMax && v < Pow8(n)
    ensures ParseOctal(Octal(v, n) + tail, true, 0) == ParseOctal(tail, n == 0, v)
  {
    if n == 0 {
      assert Octal(v, n) + tail == tail;
    } else {
      var digit: Text := [Digit0 + v % 8];
      OctalStep(v / 8, n - 1, digit + tail);
      assert Octal(v, n) + tail == Octal(v / 8, n - 1) + (digit + tail);
      assert (digit + tail)[1..] == tail && v % 8 + v / 8 * 8 == v;
    }
  }

  lemma OctalBack(v: nat, n: nat)
    requires v <= ULongMax && v < Pow8(n) && n > 0
    ensures ParseOctal(Octal(v, n) + [Nul], true, 0) == Some(v)
  {
    OctalStep(v, n, [Nul]);
  }

  /** parse_octal_field. */
  method ParseOctalField(s: Text) returns (r: Option<nat>)
    ensures r == ParseOctal(s, true, 0)
  {
    var value: nat := 0;
    for ofs := 0 to |s|
      invariant ParseOctal(s, true, 0) == ParseOctal(s[ofs..], ofs == 0, value)
    {
      var c := s[ofs];
      assert s[ofs..][0] == c && s[ofs..][1..] == s[ofs + 1..];
      if Digit0 <= c <= Digit7 {
        if value > ULongMax / 8 {
          return None;
        }
        value := c - Digit0 + value * 8;
      } else if c == Space || c == Nul {
        return if ofs > 0 then Some(value) else None;
      } else {
        return None;
      }
    }
    return None;
  }
}
