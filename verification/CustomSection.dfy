/** The aligned custom section that carries an AOT image inside a .wasm file. */
module CustomSection {
  import opened Bits
  import opened Leb128

  predicate IsAligned(n: nat, alignment: nat)
    requires alignment > 0
  {
    And(n, alignment - 1) == 0
  }

  function PresentAsVector(content: seq<byte>): seq<byte> {
    (if |content| > 0 then Encode(|content|) else [0]) + content
  }

  function Zeros(n: nat): seq<byte> {
    seq(n, _ => 0)
  }

  /** Length of the padding vector holding `padding` zero bytes. */
  function VecLen(padding: nat): nat {
    |PresentAsVector(Zeros(padding))|
  }

  /** Offset at which the content would start with this much padding. */
  function ContentPos(nameBinLen: nat, contentLen: nat, startPos: nat, padding: nat): nat {
    startPos + 1 + |Encode(nameBinLen + VecLen(padding) + contentLen)| + nameBinLen + VecLen(padding)
  }

  predicate Fits(alignment: nat, nameBinLen: nat, contentLen: nat, startPos: nat, padding: nat)
    requires alignment > 0
  {
    IsAligned(ContentPos(nameBinLen, contentLen, startPos, padding), alignment)
  }

  ghost predicate SomePaddingFits(alignment: nat, nameBinLen: nat, contentLen: nat, startPos: nat) {
    exists p :: 0 <= p < 2 * alignment && Fits(alignment, nameBinLen, contentLen, startPos, p)
  }

  /** Aligning to a power of two is being its multiple. */
  lemma AlignedExact(n: nat, alignment: nat)
    requires IsPow2(alignment)
    ensures IsAligned(n, alignment) <==> n % alignment == 0
  {
    AndMask(n, alignment);
  }

  /** `p` is the smallest padding that aligns the content. */
  ghost predicate FirstFit(alignment: nat, nameBinLen: nat, contentLen: nat, startPos: nat, p: nat) {
    && p < 2 * alignment && Fits(alignment, nameBinLen, contentLen, startPos, p)
    && forall q: nat :: q < p ==> !Fits(alignment, nameBinLen, contentLen, startPos, q)
  }

  /** `r` is the vector of that padding. */
  ghost predicate IsFirstFit(alignment: nat, nameBinLen: nat, contentLen: nat, startPos: nat, r: seq<byte>) {
    exists p: nat :: r == PresentAsVector(Zeros(p)) && FirstFit(alignment, nameBinLen, contentLen, startPos, p)
  }

  method CalcPadding(alignment: nat, nameBinLen: nat, contentLen: nat, startPos: nat)
    returns (r: Option<seq<byte>>)
    ensures r.Some? <==> SomePaddingFits(alignment, nameBinLen, contentLen, startPos)
    ensures r.Some? ==> IsFirstFit(alignment, nameBinLen, contentLen, startPos, r.value)
  {
    for padding := 0 to alignment * 2
      invariant forall q: nat :: q < padding ==> !Fits(alignment, nameBinLen, contentLen, startPos, q)
    {
      var paddingBin := PresentAsVector(Zeros(padding));
      var sectionLengthBin := EncodeUint(nameBinLen + |paddingBin| + contentLen);
      var pos := startPos + 1 + |sectionLengthBin| + nameBinLen + |paddingBin|;
      if IsAligned(pos, alignment) {
        assert FirstFit(alignment, nameBinLen, contentLen, startPos, padding);
        return Some(paddingBin);
      }
    }
    r := None;
  }

  // ----- Which alignments the search always satisfies -----

  lemma VecLenIs(padding: nat)
    ensures VecLen(padding) == padding + (if padding == 0 then 1 else |Encode(padding)|)
  {
  }

  /** At most one length step happens over a window of 257 positive values. */
  lemma OneLengthStep(x: nat, y: nat, z: nat)
    requires 1 <= x <= y <= z <= x + 257 && |Encode(x)| < |Encode(y)|
    ensures |Encode(y)| == |Encode(z)|
  {
    var k := |Encode(y)|;
    assert |Encode(x)| >= 1;
    LengthBound(x, k - 1);
    LengthBound(y, k);
    Pow2Add(7, 7 * (k - 1));
    Pow2Add(7, 7 * (k - 2));
    assert Pow2(3) == 8 && Pow2(5) == 32 && Pow2(7) == 128;
    assert Pow2(7 * (k - 1)) >= 128;
    LengthBound(z, k);
    LengthMonotone(y, z);
  }

  lemma SmallPow2s()
    ensures Pow2(6) == 64 && Pow2(7) == 128
  {
    assert Pow2(3) == 8 && Pow2(5) == 32;
  }

  lemma SmallPowers(a: nat)
    requires IsPow2(a) && a <= 128
    ensures a <= 64 || a == 128
  {
    if a > 64 {
      SmallPow2s();
      PowersApart(a, 64, 6);
    }
  }

  /** On `[w, w + a)` with `w` 0 or `a`, the padding vector grows byte for byte. */
  lemma VecLenInWindow(a: nat, w: nat, p: nat)
    requires IsPow2(a) && a <= 128 && (w == 0 || w == a) && w <= p < w + a
    ensures VecLen(p) == VecLen(w) + (p - w)
    ensures VecLen(w) == if w < 128 then w + 1 else w + 2
  {
    SmallPowers(a);
    VecLenIs(p);
    VecLenIs(w);
    if w == 128 {
      assert |Encode(p)| == 2 && |Encode(w)| == 2;
    }
  }

  lemma ToNextMultiple(at: nat, a: nat) returns (d: nat)
    requires a > 0
    ensures d < a && (at + d) % a == 0
  {
    d := if at % a == 0 then 0 else a - at % a;
    var q := at / a + (if d == 0 then 0 else 1);
    assert q * a == (at / a) * a + (if d == 0 then 0 else a);
    DivModUnique(at + d, a, q, 0);
  }

  lemma SameLengthField(rest: nat, x: nat, y: nat, z: nat)
    requires x <= y <= z && |Encode(x + rest)| == |Encode(z + rest)|
    ensures |Encode(y + rest)| == |Encode(x + rest)|
  {
    LengthMonotone(x + rest, y + rest);
    LengthMonotone(y + rest, z + rest);
  }

  /** If the section length field keeps its size on the window, some padding in the
      window aligns the content. */
  lemma WindowCoversResidues(a: nat, n: nat, c: nat, s: nat, w: nat)
    requires IsPow2(a) && a <= 128 && (w == 0 || w == a)
    requires |Encode(n + VecLen(w) + c)| == |Encode(n + VecLen(w + a - 1) + c)|
    ensures SomePaddingFits(a, n, c, s)
  {
    var at := ContentPos(n, c, s, w);
    var d := ToNextMultiple(at, a);
    var p := w + d;
    VecLenInWindow(a, w, p);
    VecLenInWindow(a, w, w + a - 1);
    SameLengthField(n + c, VecLen(w), VecLen(p), VecLen(w + a - 1));
    assert ContentPos(n, c, s, p) == at + d;
    AlignedExact(at + d, a);
    assert Fits(a, n, c, s, p);
  }

  lemma Windows(a: nat)
    requires IsPow2(a) && a <= 128
    ensures 1 == VecLen(0) <= VecLen(a - 1) <= VecLen(a) <= VecLen(2 * a - 1) <= 258
  {
    VecLenInWindow(a, 0, a - 1);
    VecLenInWindow(a, a, 2 * a - 1);
    VecLenInWindow(a, 0, 0);
    VecLenInWindow(a, a, a);
  }

  /** Up to alignment 128 one of the candidates always aligns the content, although
      the section length field may grow in the middle of the search. */
  lemma PaddingFound(a: nat, n: nat, c: nat, s: nat)
    requires IsPow2(a) && a <= 128 && n >= 1
    ensures SomePaddingFits(a, n, c, s)
  {
    Windows(a);
    var x, y, z := n + VecLen(0) + c, n + VecLen(a - 1) + c, n + VecLen(a) + c;
    LengthMonotone(x, y);
    if |Encode(x)| == |Encode(y)| {
      WindowCoversResidues(a, n, c, s, 0);
    } else {
      LengthMonotone(y, z);
      OneLengthStep(x, z, n + VecLen(2 * a - 1) + c);
      WindowCoversResidues(a, n, c, s, a);
    }
  }

  /** 128^j. */
  function Limit(j: nat): nat {
    Pow2(7 * j)
  }

  lemma LimitStep(j: nat)
    ensures Limit(j + 1) == 128 * Limit(j)
    ensures Limit(j) > j
  {
    Pow2Add(7, 7 * j);
    assert Pow2(3) == 8 && Pow2(5) == 32 && Pow2(7) == 128;
    if j > 0 { LimitStep(j - 1); }
  }

  /** A power of two of at least 256 lies strictly above some 128^j, j >= 1, by a factor
      of two, and at most at 128^(j + 1). */
  lemma Bracket(a: nat, j: nat) returns (k: nat)
    requires IsPow2(a) && j >= 1 && 2 * Limit(j) <= a
    ensures k >= 1 && 2 * Limit(k) <= a <= Limit(k + 1)
    decreases a - Limit(j)
  {
    LimitStep(j);
    if a <= Limit(j + 1) {
      k := j;
    } else {
      PowersApart(a, Limit(j + 1), 7 * (j + 1));
      k := Bracket(a, j + 1);
    }
  }

  lemma PowersApart(a: nat, b: nat, k: nat)
    requires IsPow2(a) && b == Pow2(k) && a > b
    ensures a >= 2 * b
    decreases k
  {
    if k > 0 {
      PowersApart(a / 2, b / 2, k - 1);
    }
  }

  /** The padding vector never has length 128^j + j: its own length field grows there. */
  lemma SkippedLength(j: nat, p: nat)
    requires j >= 1
    ensures VecLen(p) != Limit(j) + j
  {
    VecLenIs(p);
    LimitStep(j);
    if p > 0 {
      LengthBound(p, j);
    }
  }

  /** An input on which no candidate works: the lengths skipped by the padding vector's
      own length field and by the section length field are exactly `a` apart. */
  lemma PaddingMissed(a: nat) returns (c: nat, s: nat)
    requires IsPow2(a) && a >= 256
    ensures !SomePaddingFits(a, 1, c, s)
  {
    assert Pow2(3) == 8 && Pow2(5) == 32 && Pow2(7) == 128;
    assert Limit(1) == 128;
    var j := Bracket(a, 1);
    var k;
    c, s, k := MissingInput(a, j);
    MissedAll(a, j, c, s, k);
  }

  lemma MissingInput(a: nat, j: nat) returns (c: nat, s: nat, k: nat)
    requires j >= 1 && 0 < a <= Limit(j + 1)
    ensures c + 1 + Limit(j) + j + a == Limit(j + 3) && k == 5 + j + Limit(j) + j && s + k == k * a
  {
    Limits(j, Limit(j));
    c := Limit(j + 3) - 1 - Limit(j) - j - a;
    k := 5 + j + Limit(j) + j;
    s := TimesLess(k, a);
  }

  lemma MissedAll(a: nat, j: nat, c: nat, s: nat, k: nat)
    requires IsPow2(a) && j >= 1 && 2 * Limit(j) <= a <= Limit(j + 1)
    requires c + 1 + Limit(j) + j + a == Limit(j + 3) && k == 5 + j + Limit(j) + j && s + k == k * a
    ensures !SomePaddingFits(a, 1, c, s)
  {
    forall p | 0 <= p < 2 * a
      ensures !Fits(a, 1, c, s, p)
    {
      MissedOne(a, j, c, s, k, p);
    }
  }

  lemma TimesLess(k: nat, a: nat) returns (s: nat)
    requires a > 0
    ensures s + k == k * a
  {
    MulAtLeast(a, k);
    s := k * a - k;
  }

  lemma MissedOne(a: nat, j: nat, c: nat, s: nat, k: nat, p: nat)
    requires IsPow2(a) && j >= 1 && 2 * Limit(j) <= a <= Limit(j + 1) && p < 2 * a
    requires c + 1 + Limit(j) + j + a == Limit(j + 3) && k == 5 + j + Limit(j) + j && s + k == k * a
    ensures !Fits(a, 1, c, s, p)
  {
    var q := MissedAt(a, j, c, p);
    assert ContentPos(1, c, s, p) == s + 5 + j + q;
    NotAMultiple(k, a, q - (Limit(j) + j));
    AndMask(s + 5 + j + q, a);
  }

  /** With the section length stepping at vector length `v + a`, the content offset,
      counted from a fixed point, is neither `v` nor `v + a` and stays below `v + 2a`. */
  lemma MissedAt(a: nat, j: nat, c: nat, p: nat) returns (q: nat)
    requires j >= 1 && 2 * Limit(j) <= a <= Limit(j + 1) && p < 2 * a
    requires c + 1 + Limit(j) + j + a == Limit(j + 3)
    ensures q == VecLen(p) + |Encode(1 + VecLen(p) + c)| - (j + 3)
    ensures var v := Limit(j) + j; q != v && q != v + a && v < q + a && q < v + 2 * a
  {
    var l, vec := Limit(j), VecLen(p);
    Limits(j, l);
    SkippedLength(j, p);
    VecLenBound(p, j + 2);
    MissedLength(a, j, c, l, vec);
    q := if vec < l + j + a then vec else vec + 1;
  }

  /** The section length has one byte more from vector length `l + j + a` on. */
  lemma MissedLength(a: nat, j: nat, c: nat, l: nat, vec: nat)
    requires l == Limit(j) && j < l && 2 * l <= a <= 128 * l && vec < 2 * a + j + 2
    requires c + 1 + l + j + a == 0x20_0000 * l
    requires Limit(j + 2) == 0x4000 * l && Limit(j + 3) == 0x20_0000 * l && Limit(j + 4) == 0x1000_0000 * l
    ensures |Encode(1 + vec + c)| == if vec < l + j + a then j + 3 else j + 4
  {
    ExactLength(1 + vec + c, if vec < l + j + a then j + 3 else j + 4);
  }

  lemma Limits(j: nat, l: nat)
    requires l == Limit(j)
    ensures j < l && Limit(j + 1) == 128 * l && Limit(j + 2) == 0x4000 * l
    ensures Limit(j + 3) == 0x20_0000 * l && Limit(j + 4) == 0x1000_0000 * l
  {
    LimitStep(j);
    LimitStep(j + 1);
    LimitStep(j + 2);
    LimitStep(j + 3);
  }

  lemma VecLenBound(p: nat, k: nat)
    requires p < Limit(k) && k >= 1
    ensures 1 <= VecLen(p) <= p + k
  {
    VecLenIs(p);
    LengthBound(p, k);
  }

  lemma ExactLength(len: nat, k: nat)
    requires k >= 1 && Limit(k - 1) <= len < Limit(k)
    ensures |Encode(len)| == k
  {
    LengthBound(len, k - 1);
    LengthBound(len, k);
  }

  lemma NotAMultiple(k: nat, a: nat, d: int)
    requires a > 0 && 0 < d + a < 3 * a && d != 0 && d != a
    ensures (k * a + d) % a != 0
  {
    var q := if d < 0 then k - 1 else if d < a then k else k + 1;
    assert q * a == k * a + (if d < 0 then 0 - a else if d < a then 0 else a);
    DivModUnique(k * a + d, a, q, k * a + d - q * a);
  }

  /** For power-of-two alignments, `calc_padding` finds a padding for every name,
      content and position exactly when the alignment is at most 128. */
  lemma PaddingExact(a: nat)
    requires IsPow2(a)
    ensures a <= 128 <==> forall n: nat, c: nat, s: nat :: n >= 1 ==> SomePaddingFits(a, n, c, s)
  {
    if a <= 128 {
      forall n: nat, c: nat, s: nat | n >= 1
        ensures SomePaddingFits(a, n, c, s)
      {
        PaddingFound(a, n, c, s);
      }
    } else {
      PowersApart(a, 128, 7) by { assert Pow2(3) == 8 && Pow2(5) == 32 && Pow2(7) == 128; }
      var c, s := PaddingMissed(a);
    }
  }

  // ----- Building and parsing the section -----

  datatype Section = Section(length: nat, name: seq<byte>, padding: seq<byte>, content: seq<byte>)

  datatype Outcome = Built(bytes: seq<byte>) | NotAscii | NoPadding

  /** A length-prefixed vector (section 5.1.3 of the WebAssembly Core Specification) and what follows it. */
  function ParseVector(b: seq<byte>): Option<(seq<byte>, seq<byte>)> {
    match Decode(b)
    case None => None
    case Some((used, len)) =>
      if used + len <= |b| then Some((b[used..used + len], b[used + len..])) else None
  }

  /** A custom section (sections 5.5.2 and 5.5.3 of the WebAssembly Core Specification) that ends the input. */
  function ParseSection(b: seq<byte>): Option<Section> {
    if |b| == 0 || b[0] != 0 then None
    else
      match Decode(b[1..])
      case None => None
      case Some((used, length)) =>
        if 1 + used + length != |b| then None
        else
          match ParseVector(b[1 + used..])
          case None => None
          case Some((name, rest)) =>
            match ParseVector(rest)
            case None => None
            case Some((padding, content)) => Some(Section(length, name, padding, content))
  }

  lemma ParseVectorPresent(content: seq<byte>, rest: seq<byte>)
    ensures ParseVector(PresentAsVector(content) + rest) == Some((content, rest))
  {
    var b := PresentAsVector(content) + rest;
    if |content| > 0 {
      DecodeEncode(|content|, content + rest);
      assert b == Encode(|content|) + (content + rest);
    } else {
      assert b == [0] + rest;
    }
    var used := |PresentAsVector(content)| - |content|;
    assert b[used..used + |content|] == content;
    assert b[used + |content|..] == rest;
  }

  /** The bytes parse back to this name, padding and content; the parser has checked
      that the length field counts exactly the bytes after it. */
  ghost predicate Carries(bytes: seq<byte>, name: seq<byte>, padding: seq<byte>, content: seq<byte>) {
    match ParseSection(bytes)
    case None => false
    case Some(s) => s.name == name && s.padding == padding && s.content == content
  }

  lemma BuiltCarries(length: nat, name: seq<byte>, n: seq<byte>, padding: seq<byte>, z: seq<byte>,
      content: seq<byte>, bytes: seq<byte>)
    requires n == PresentAsVector(name) && z == PresentAsVector(padding)
    requires length == |n| + |z| + |content| && bytes == [0] + Encode(length) + n + z + content
    ensures Carries(bytes, name, padding, content)
  {
    ParseBuilt(length, name, n, padding, z, content, bytes);
  }

  lemma BuiltParts(length: nat, n: seq<byte>, rest: seq<byte>, bytes: seq<byte>)
    requires length == |n| + |rest| > 0 && bytes == [0] + Encode(length) + n + rest
    ensures Decode(bytes[1..]) == Some((|Encode(length)|, length)) && 1 + |Encode(length)| + length == |bytes|
    ensures bytes[1 + |Encode(length)|..] == n + rest
  {
    DecodeEncode(length, n + rest);
    assert bytes[1..] == Encode(length) + (n + rest);
  }

  lemma ParseBuilt(length: nat, name: seq<byte>, n: seq<byte>, padding: seq<byte>, z: seq<byte>, content: seq<byte>,
      bytes: seq<byte>)
    requires n == PresentAsVector(name) && z == PresentAsVector(padding)
    requires length == |n| + |z| + |content| && bytes == [0] + Encode(length) + n + z + content
    ensures ParseSection(bytes) == Some(Section(length, name, padding, content))
  {
    assert bytes == [0] + Encode(length) + n + (z + content);
    BuiltParts(length, n, z + content, bytes);
    ParseVectorPresent(name, z + content);
    ParseVectorPresent(padding, content);
  }

  predicate IsAscii(name: string) {
    forall i :: 0 <= i < |name| ==> name[i] as int < 128
  }

  function AsciiBytes(name: string): seq<byte>
    requires IsAscii(name)
  {
    seq(|name|, i requires 0 <= i < |name| => name[i] as int)
  }

  /** The bytes carry the name and content behind the smallest padding that fits, and the
      content starts at an aligned offset. */
  ghost predicate WellBuilt(startPos: nat, name: seq<byte>, content: seq<byte>, alignment: nat, bytes: seq<byte>)
    requires alignment > 0
  {
    && |content| <= |bytes| && IsAligned(startPos + |bytes| - |content|, alignment)
    && exists p: nat :: FirstFit(alignment, |PresentAsVector(name)|, |content|, startPos, p)
                        && Carries(bytes, name, Zeros(p), content)
  }

  lemma WellBuiltBy(startPos: nat, name: seq<byte>, content: seq<byte>, alignment: nat, pos: nat, bytes: seq<byte>,
      p: nat)
    requires FirstFit(alignment, |PresentAsVector(name)|, |content|, startPos, p)
    requires Carries(bytes, name, Zeros(p), content)
    requires alignment > 0 && pos + |content| == startPos + |bytes| && |content| <= |bytes|
    requires IsAligned(pos, alignment)
    ensures WellBuilt(startPos, name, content, alignment, bytes)
  {
    assert pos == startPos + |bytes| - |content|;
  }

  lemma BuiltAligned(startPos: nat, alignment: nat, n: nat, c: nat, p: nat, z: nat, length: nat, pos: nat)
    requires alignment > 0 && Fits(alignment, n, c, startPos, p) && z == VecLen(p) && length == n + z + c
    requires pos == startPos + 1 + |Encode(length)| + n + z
    ensures IsAligned(pos, alignment)
  {
    assert pos == ContentPos(n, c, startPos, p);
  }

  lemma Assembled(startPos: nat, alignment: nat, name: seq<byte>, n: seq<byte>, z: seq<byte>, content: seq<byte>,
      length: nat, pos: nat, bytes: seq<byte>)
    requires n == PresentAsVector(name) && length == |n| + |z| + |content|
    requires pos == startPos + 1 + |Encode(length)| + |n| + |z| && bytes == [0] + Encode(length) + n + z + content
    requires IsFirstFit(alignment, |n|, |content|, startPos, z)
    ensures alignment > 0 && IsAligned(pos, alignment)
    ensures WellBuilt(startPos, name, content, alignment, bytes)
  {
    var p: nat :| z == PresentAsVector(Zeros(p)) && FirstFit(alignment, |n|, |content|, startPos, p);
    BuiltCarries(length, name, n, Zeros(p), z, content, bytes);
    BuiltAligned(startPos, alignment, |n|, |content|, p, |z|, length, pos);
    WellBuiltBy(startPos, name, content, alignment, pos, bytes, p);
  }

  /** The body of `create_custom_section_aligned` once the name is encoded. */
  method BuildSection(startPos: nat, name: seq<byte>, content: seq<byte>, alignment: nat) returns (r: Option<seq<byte>>)
    ensures r.Some? <==> SomePaddingFits(alignment, |PresentAsVector(name)|, |content|, startPos)
    ensures r.Some? ==> alignment > 0 && WellBuilt(startPos, name, content, alignment, r.value)
  {
    var nameBin := PresentAsVector(name);
    var found := CalcPadding(alignment, |nameBin|, |content|, startPos);
    if found.None? {
      return None;
    }
    var paddingBin := found.value;
    var sectionLength := |nameBin| + |paddingBin| + |content|;

    var pos, full := startPos + 1, [0];
    var sectionLengthBin := EncodeUint(sectionLength);
    pos, full := pos + |sectionLengthBin|, full + sectionLengthBin;
    pos, full := pos + |nameBin|, full + nameBin;
    pos, full := pos + |paddingBin|, full + paddingBin;
    Assembled(startPos, alignment, name, nameBin, paddingBin, content, sectionLength, pos, full + content);
    assert IsAligned(pos, alignment);
    r := Some(full + content);
  }

  method CreateCustomSectionAligned(startPos: nat, name: string, content: seq<byte>, alignment: nat)
    returns (r: Outcome)
    ensures r.NotAscii? <==> !IsAscii(name)
    ensures IsAscii(name) ==>
              (r.NoPadding? <==> !SomePaddingFits(alignment, |PresentAsVector(AsciiBytes(name))|, |content|, startPos))
    ensures r.Built? ==>
              IsAscii(name) && alignment > 0 && WellBuilt(startPos, AsciiBytes(name), content, alignment, r.bytes)
    ensures IsPow2(alignment) && alignment <= 128 && IsAscii(name) ==> r.Built?
  {
    if !IsAscii(name) {
      return NotAscii;
    }
    var bytes := AsciiBytes(name);
    if IsPow2(alignment) && alignment <= 128 {
      PaddingFound(alignment, |PresentAsVector(bytes)|, |content|, startPos);
    }
    var built := BuildSection(startPos, bytes, content, alignment);
    r := match built case None => NoPadding case Some(b) => Built(b);
  }
}
