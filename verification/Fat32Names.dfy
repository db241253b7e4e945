/** Short (8.3) names: what generating and formatting them preserves. */
module Fat32Names {
  import opened Bytes
  import opened Options

  const SPACE: byte := 0x20
  const DOT: byte := 0x2e

  /** A C string: no byte is zero. */
  ghost predicate IsString(s: seq<byte>)
  {
    forall i | 0 <= i < |s| :: s[i] != 0
  }

  function ToUpper(c: byte): byte
  {
    if 0x61 <= c <= 0x7a then c - 0x20 else c
  }

  function Upper(s: seq<byte>): (r: seq<byte>)
    ensures |r| == |s| && forall i | 0 <= i < |s| :: r[i] == ToUpper(s[i])
  {
    seq(|s|, i requires 0 <= i < |s| => ToUpper(s[i]))
  }

  /** The same byte, or the capital and the small form of one of the 26 letters. */
  ghost predicate SameLetter(a: byte, b: byte)
  {
    a == b || exists k: nat :: k < 26 && IsLetter(a, k) && IsLetter(b, k)
  }

  /** Letter number k, from A and a on. */
  predicate IsLetter(c: byte, k: nat)
  {
    c == 0x41 + k || c == 0x61 + k
  }

  ghost predicate SameIgnoringCase(a: seq<byte>, b: seq<byte>)
  {
    |a| == |b| && forall i | 0 <= i < |a| :: SameLetter(a[i], b[i])
  }

  /** Upper-casing makes capitals of the small letters and leaves all other bytes alone. */
  lemma ToUpperIs(c: byte, k: nat)
    requires k < 26
    ensures ToUpper(0x61 + k) == 0x41 + k
    ensures !(0x61 <= c < 0x61 + 26) ==> ToUpper(c) == c
  {
  }

  lemma SameLetterIff(a: byte, b: byte)
    ensures SameLetter(a, b) <==> ToUpper(a) == ToUpper(b)
  {
    if ToUpper(a) == ToUpper(b) && a != b {
      var k := ToUpper(a) - 0x41;
      assert IsLetter(a, k) && IsLetter(b, k);
    }
  }

  /** Upper-cased names agree exactly if the names differ in the case of letters only. */
  lemma CaseIff(a: seq<byte>, b: seq<byte>)
    ensures Upper(a) == Upper(b) <==> SameIgnoringCase(a, b)
  {
    hide ToUpper, SameLetter;
    forall i | 0 <= i < |a| && i < |b|
      ensures SameLetter(a[i], b[i]) <==> Upper(a)[i] == Upper(b)[i]
    {
      SameLetterIff(a[i], b[i]);
    }
  }

  /** The byte at i of a zero-terminated string. */
  function At(s: seq<byte>, i: nat): byte
  {
    if i < |s| then s[i] else 0
  }

  /** The strings agree in front of i, up to case, and differ there by that much. */
  ghost predicate FoldsApart(a: seq<byte>, b: seq<byte>, i: nat, difference: int)
    requires i <= |a| && i <= |b|
  {
    SameIgnoringCase(a[..i], b[..i]) && difference == ToUpper(At(a, i)) as int - ToUpper(At(b, i)) as int
  }

  /** strcasecmp_kos: zero exactly for strings that differ in case only. */
  method CompareIgnoringCase(a: seq<byte>, b: seq<byte>) returns (difference: int)
    requires IsString(a) && IsString(b)
    ensures difference == 0 <==> SameIgnoringCase(a, b)
    ensures difference == 0 <==> Upper(a) == Upper(b)
    ensures exists i: nat :: i <= |a| && i <= |b| && FoldsApart(a, b, i, difference)
  {
    hide SameIgnoringCase;
    CaseIff(a, b);
    var i := 0;
    while i < |a| && i < |b|
      invariant 0 <= i <= |a| && i <= |b| && Upper(a)[..i] == Upper(b)[..i]
    {
      if ToUpper(a[i]) != ToUpper(b[i]) {
        assert Upper(a)[i] != Upper(b)[i];
        CaseIff(a[..i], b[..i]);
        difference := ToUpper(a[i]) as int - ToUpper(b[i]) as int;
        assert FoldsApart(a, b, i, difference);
        return;
      }
      i := i + 1;
    }
    assert Upper(a)[..i] == Upper(a) || Upper(b)[..i] == Upper(b);
    CaseIff(a[..i], b[..i]);
    difference := ToUpper(At(a, i)) as int - ToUpper(At(b, i)) as int;
    assert FoldsApart(a, b, i, difference);
  }

  // ------------------------------------------------------------ generating

  /** The position of the last dot. */
  function LastDot(name: seq<byte>): (d: Option<nat>)
    ensures d.Some? ==> d.value < |name| && name[d.value] == DOT && forall i | d.value < i < |name| :: name[i] != DOT
    ensures d.None? ==> forall i | 0 <= i < |name| :: name[i] != DOT
  {
    if name == [] then None
    else if name[|name| - 1] == DOT then Some(|name| - 1)
    else LastDot(name[..|name| - 1])
  }

  function Base(name: seq<byte>): seq<byte>
  {
    var d := LastDot(name);
    if d.Some? then name[..d.value] else name
  }

  function Extension(name: seq<byte>): seq<byte>
  {
    var d := LastDot(name);
    if d.Some? then name[d.value + 1..] else []
  }

  /** A field of n bytes, cut or padded with spaces. */
  function Field(s: seq<byte>, n: nat): (r: seq<byte>)
    ensures |r| == n
  {
    seq(n, i requires 0 <= i < n => if i < |s| then s[i] else SPACE)
  }

  /** fat32_generate_83_name */
  function Generate(name: seq<byte>): (raw: seq<byte>)
    ensures |raw| == 11
  {
    Field(Upper(Base(name)), 8) + Field(Upper(Extension(name)), 3)
  }

  /** The search for the last dot. */
  method FindDot(name: seq<byte>) returns (dot: Option<nat>)
    ensures dot == LastDot(name)
  {
    dot := None;
    for i := 0 to |name|
      invariant dot == LastDot(name[..i])
    {
      assert name[..i + 1][..i] == name[..i];
      if name[i] == DOT {
        dot := Some(i);
      }
    }
    assert name[..|name|] == name;
  }

  /** Copying upper-cased bytes into a field of spaces. */
  method FillField(raw: array<byte>, at: nat, n: nat, s: seq<byte>)
    requires at + n <= raw.Length && forall i | at <= i < at + n :: raw[i] == SPACE
    modifies raw
    ensures raw[at..at + n] == Field(Upper(s), n)
    ensures forall i | 0 <= i < raw.Length && !(at <= i < at + n) :: raw[i] == old(raw[i])
  {
    var len := if |s| > n then n else |s|;
    for i := 0 to len
      invariant forall j | at <= j < at + n :: raw[j] == if j < at + i then ToUpper(s[j - at]) else SPACE
      invariant forall j | 0 <= j < raw.Length && !(at <= j < at + n) :: raw[j] == old(raw[j])
    {
      raw[at + i] := ToUpper(s[i]);
    }
  }

  /** The body of fat32_generate_83_name. */
  method GenerateInPlace(name: seq<byte>) returns (raw: array<byte>)
    ensures fresh(raw) && raw.Length == 11 && raw[..] == Generate(name)
    ensures forall i | 0 <= i < 11 :: !(0x61 <= raw[i] <= 0x7a)
    ensures forall d: int | LastDotAt(name, d) :: Holds83(name, d, raw[..])
  {
    hide Field, Upper, LastDot, Holds83;
    forall d: int | LastDotAt(name, d)
      ensures Holds83(name, d, Generate(name))
    {
      GeneratedField(name, d);
    }
    GeneratedCapitals(name);
    raw := new byte[11](_ => SPACE);
    var dot := FindDot(name);
    FillField(raw, 0, 8, if dot.Some? then name[..dot.value] else name);
    FieldOfNothing(3);
    if dot.Some? {
      FillField(raw, 8, 3, name[dot.value + 1..]);
    }
    assert raw[..] == raw[0..8] + raw[8..11];
    assert forall i | 0 <= i < 11 :: raw[i] == raw[..][i];
  }

  /** The last dot of a name is at d; without any dot, d is the length. */
  ghost predicate LastDotAt(name: seq<byte>, d: int)
  {
    0 <= d <= |name| && (d < |name| ==> name[d] == 0x2e)
        && forall i | 0 <= i < |name| && (i > d || d == |name|) :: name[i] != 0x2e
  }

  /** Eight bytes for what is before the dot and three for what is behind it, in capitals, filled up with spaces. */
  ghost predicate Holds83(name: seq<byte>, d: int, raw: seq<byte>)
    requires LastDotAt(name, d)
  {
    && |raw| == 11
    && (forall i | 0 <= i < 8 :: if i < d then SameLetter(raw[i], name[i]) else raw[i] == 0x20)
    && (forall i | 8 <= i < 11 :: if d + i - 7 < |name| then SameLetter(raw[i], name[d + i - 7]) else raw[i] == 0x20)
  }

  lemma GeneratedField(name: seq<byte>, d: int)
    requires LastDotAt(name, d)
    ensures Holds83(name, d, Generate(name))
  {
    hide SameLetter, ToUpper;
    assert LastDot(name) == if d < |name| then Some(d) else None;
    var b, e := Base(name), Extension(name);
    forall i | 0 <= i < 8 && i < |b|
      ensures SameLetter(ToUpper(b[i]), b[i])
    {
      UpperSame(b[i]);
    }
    forall i | 0 <= i < 3 && i < |e|
      ensures SameLetter(ToUpper(e[i]), e[i])
    {
      UpperSame(e[i]);
    }
  }

  lemma UpperSame(c: byte)
    ensures SameLetter(ToUpper(c), c) && !(0x61 <= ToUpper(c) <= 0x7a)
  {
    SameLetterIff(ToUpper(c), c);
  }

  lemma GeneratedCapitals(name: seq<byte>)
    ensures forall i | 0 <= i < 11 :: !(0x61 <= Generate(name)[i] <= 0x7a)
  {
  }

  lemma FieldOfNothing(n: nat)
    ensures Field(Upper([]), n) == seq(n, _ => SPACE)
  {
  }

  // ------------------------------------------------------------ formatting

  /** The bytes that are not spaces, in order. */
  function Packed(s: seq<byte>): seq<byte>
  {
    if s == [] then [] else if s[|s| - 1] != SPACE then Packed(s[..|s| - 1]) + [s[|s| - 1]] else Packed(s[..|s| - 1])
  }

  /** fat32_format_83_name */
  function Format(raw: seq<byte>): seq<byte>
    requires |raw| == 11
  {
    if raw[8] != SPACE then Packed(raw[..8]) + [DOT] + Packed(raw[8..]) else Packed(raw[..8])
  }

  /** The loops of fat32_format_83_name. */
  method FormatInPlace(raw: seq<byte>) returns (out: seq<byte>)
    requires |raw| == 11
    ensures out == Format(raw)
  {
    out := [];
    for i := 0 to 8
      invariant out == Packed(raw[..i])
    {
      assert raw[..i + 1][..i] == raw[..i];
      if raw[i] != SPACE {
        out := out + [raw[i]];
      }
    }
    if raw[8] != SPACE {
      out := out + [DOT];
      ghost var head := out;
      for i := 8 to 11
        invariant out == head + Packed(raw[8..i])
      {
        assert raw[8..i + 1][..i - 8] == raw[8..i];
        if raw[i] != SPACE {
          out := out + [raw[i]];
        }
      }
      assert raw[8..11] == raw[8..];
    }
  }

  // ------------------------------------------------------------ the round trip

  ghost predicate NoSpaces(s: seq<byte>)
  {
    forall i | 0 <= i < |s| :: s[i] != SPACE
  }

  lemma {:induction false} PackedSplit(s: seq<byte>, t: seq<byte>)
    ensures Packed(s + t) == Packed(s) + Packed(t)
  {
    if t == [] {
      assert s + t == s;
    } else {
      var st := s + t;
      assert st[..|st| - 1] == s + t[..|t| - 1];
      PackedSplit(s, t[..|t| - 1]);
    }
  }

  lemma {:induction false} PackedIsShorter(s: seq<byte>)
    ensures |Packed(s)| <= |s|
    ensures Packed(s) == s <==> NoSpaces(s)
    ensures |Packed(s)| == |s| ==> Packed(s) == s
    ensures NoSpaces(Packed(s))
  {
    if s != [] {
      var init := s[..|s| - 1];
      PackedIsShorter(init);
      if s[|s| - 1] != SPACE {
        assert Packed(s)[..|Packed(s)| - 1] == Packed(init);
        assert s == init + [s[|s| - 1]];
      }
    }
  }

  lemma UpperSpaces(s: seq<byte>)
    ensures NoSpaces(Upper(s)) <==> NoSpaces(s)
  {
    assert forall i | 0 <= i < |s| :: Upper(s)[i] == SPACE <==> s[i] == SPACE;
  }

  lemma {:induction false} PackedSpaces(n: nat)
    ensures Packed(seq(n, _ => SPACE)) == []
  {
    if n > 0 {
      var s: seq<byte> := seq(n, _ => SPACE);
      assert s[..n - 1] == seq(n - 1, _ => SPACE);
      PackedSpaces(n - 1);
    }
  }

  function Least(a: nat, b: nat): nat
  {
    if a < b then a else b
  }

  /** A field without spaces gives back what fitted into it. */
  lemma PackedField(s: seq<byte>, n: nat)
    requires NoSpaces(s)
    ensures Packed(Field(s, n)) == s[..Least(n, |s|)]
  {
    hide Packed;
    var k := Least(n, |s|);
    assert Field(s, n) == s[..k] + seq(n - k, _ => SPACE);
    PackedSplit(s[..k], seq(n - k, _ => SPACE));
    PackedSpaces(n - k);
    PackedIsShorter(s[..k]);
  }

  /** Names that an 8.3 entry can hold; a dot needs something behind it. */
  ghost predicate Representable(name: seq<byte>)
  {
    && NoSpaces(name) && |Base(name)| <= 8 && |Extension(name)| <= 3
    && (LastDot(name).Some? ==> Extension(name) != [])
  }

  /** What formatting makes of a generated name without spaces. */
  lemma FormatGenerate(name: seq<byte>)
    requires NoSpaces(name)
    ensures var b, e := Upper(Base(name)), Upper(Extension(name));
            Format(Generate(name)) ==
                if e == [] then b[..Least(8, |b|)] else b[..Least(8, |b|)] + [DOT] + e[..Least(3, |e|)]
  {
    hide Packed;
    var b, e := Upper(Base(name)), Upper(Extension(name));
    UpperSpaces(Base(name));
    UpperSpaces(Extension(name));
    var raw := Generate(name);
    assert raw[..8] == Field(b, 8) && raw[8..] == Field(e, 3);
    PackedField(b, 8);
    PackedField(e, 3);
    assert raw[8] == if e == [] then SPACE else e[0];
  }

  lemma NameParts(name: seq<byte>)
    ensures Upper(name) == if LastDot(name).Some? then Upper(Base(name)) + [DOT] + Upper(Extension(name))
              else Upper(Base(name))
    ensures LastDot(name).None? ==> Extension(name) == []
  {
    hide Upper;
    var d := LastDot(name);
    if d.Some? {
      assert name == name[..d.value] + [DOT] + name[d.value + 1..];
      UpperConcat(name[..d.value] + [DOT], name[d.value + 1..]);
      UpperConcat(name[..d.value], [DOT]);
      assert Upper([DOT]) == [DOT];
    }
  }

  lemma UpperConcat(s: seq<byte>, t: seq<byte>)
    ensures Upper(s + t) == Upper(s) + Upper(t)
  {
  }

  lemma FormatHasNoSpaces(raw: seq<byte>)
    requires |raw| == 11
    ensures NoSpaces(Format(raw))
  {
    hide Packed;
    PackedIsShorter(raw[..8]);
    PackedIsShorter(raw[8..]);
  }

  /** Cutting the parts of a name loses nothing exactly if both fit and a dot has something behind it. */
  lemma CutIff(b: seq<byte>, e: seq<byte>, dot: bool)
    requires !dot ==> e == []
    ensures (if e == [] then b[..Least(8, |b|)] else b[..Least(8, |b|)] + [DOT] + e[..Least(3, |e|)]) ==
              (if dot then b + [DOT] + e else b)
       <==> |b| <= 8 && |e| <= 3 && (dot ==> e != [])
  {
    var cut := if e == [] then b[..Least(8, |b|)] else b[..Least(8, |b|)] + [DOT] + e[..Least(3, |e|)];
    var whole := if dot then b + [DOT] + e else b;
    assert |cut| == |whole| <==> |b| <= 8 && |e| <= 3 && (dot ==> e != []);
  }

  /** Formatting undoes generating, up to case, exactly for representable names. */
  lemma RoundTripIff(name: seq<byte>)
    ensures Format(Generate(name)) == Upper(name) <==> Representable(name)
  {
    hide Format, Generate, Upper, LastDot, Least, Base, Extension;
    FormatHasNoSpaces(Generate(name));
    UpperSpaces(name);
    NameParts(name);
    if NoSpaces(name) {
      FormatGenerate(name);
      UpperLength(Base(name));
      UpperLength(Extension(name));
      CutIff(Upper(Base(name)), Upper(Extension(name)), LastDot(name).Some?);
    }
  }

  lemma UpperLength(s: seq<byte>)
    ensures |Upper(s)| == |s|
  {
  }

  /** No byte is zero or a small letter. */
  ghost predicate Plain(s: seq<byte>)
  {
    forall i | 0 <= i < |s| :: s[i] != 0 && ToUpper(s[i]) == s[i]
  }

  lemma {:induction false} PackedPlain(s: seq<byte>)
    requires Plain(s)
    ensures Plain(Packed(s))
  {
    if s != [] {
      PackedPlain(s[..|s| - 1]);
    }
  }

  lemma FormattedLength(raw: seq<byte>)
    requires |raw| == 11
    ensures |Format(raw)| <= 12
  {
    hide Packed;
    PackedIsShorter(raw[..8]);
    PackedIsShorter(raw[8..]);
  }

  /** What formatting makes of a generated name is a string in capitals. */
  lemma FormattedPlain(name: seq<byte>)
    requires IsString(name)
    ensures IsString(Format(Generate(name))) && Upper(Format(Generate(name))) == Format(Generate(name))
  {
    hide Packed;
    var raw := Generate(name);
    assert Plain(raw);
    PackedPlain(raw[..8]);
    PackedPlain(raw[8..]);
    assert Plain(Format(raw));
  }

  // ------------------------------------------------------------ plain names

  /** A byte that stands for itself in a file name. */
  predicate PlainByte(c: byte)
  {
    c != 0 && c != 0x20 && c != 0x2e && c != 0x2f && c != 0x5c
  }

  /** A base of one to eight bytes and an extension of up to three. */
  ghost predicate PlainName(base: seq<byte>, ext: seq<byte>)
  {
    && 1 <= |base| <= 8 && |ext| <= 3 && base[0] != 0xe5
    && (forall i | 0 <= i < |base| :: PlainByte(base[i])) && forall i | 0 <= i < |ext| :: PlainByte(ext[i])
  }

  function Joined(base: seq<byte>, ext: seq<byte>): seq<byte>
  {
    if ext == [] then base else base + [0x2e] + ext
  }

  /** Such names are representable, and the first byte of their field is not the deleted mark. */
  lemma PlainFacts(base: seq<byte>, ext: seq<byte>)
    requires PlainName(base, ext)
    ensures var name := Joined(base, ext);
            && IsString(name) && Representable(name) && Generate(name)[0] != 0xe5
            && name != []
  {
    var name := Joined(base, ext);
    var d := |base|;
    assert ext != [] ==> name[d] == 0x2e;
    assert forall i | 0 <= i < |base| :: name[i] == base[i];
    assert forall i | d < i < |name| :: name[i] == ext[i - d - 1];
    assert LastDot(name) == if ext == [] then None else Some(d);
    assert Base(name) == base && Extension(name) == ext;
  }

  lemma SameCasePlain(a: seq<byte>, b: seq<byte>)
    requires SameIgnoringCase(a, b) && forall i | 0 <= i < |a| :: a[i] != 0 && a[i] != 0x2f && a[i] != 0x5c
    ensures forall i | 0 <= i < |b| :: b[i] != 0 && b[i] != 0x2f && b[i] != 0x5c
  {
    forall i | 0 <= i < |b|
      ensures b[i] != 0 && b[i] != 0x2f && b[i] != 0x5c
    {
      assert SameLetter(a[i], b[i]);
    }
  }
}
