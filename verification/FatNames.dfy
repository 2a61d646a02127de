/** File names: the path component a caller gives and the 11 bytes of a directory entry. */
module FatNames {
  import opened Machine

  const NUL: byte := 0
  const SPACE: byte := 32
  const DOT: byte := 46
  const SLASH: byte := 47

  /** Where `c` first occurs, or the length when it does not. */
  function IndexOf(s: seq<byte>, c: byte): (i: nat)
    ensures i <= |s|
    ensures i < |s| ==> s[i] == c
    ensures forall j :: 0 <= j < i ==> s[j] != c
  {
    if s == [] || s[0] == c then 0 else 1 + IndexOf(s[1..], c)
  }

  lemma IndexOfIs(s: seq<byte>, c: byte, i: nat)
    requires i <= |s|
    requires i < |s| ==> s[i] == c
    requires forall j :: 0 <= j < i ==> s[j] != c
    ensures IndexOf(s, c) == i
  {
  }

  /** The C string in a buffer: everything before the first NUL. */
  function CString(buffer: seq<byte>): seq<byte> {
    buffer[..IndexOf(buffer, NUL)]
  }

  function ToUpper(c: byte): byte {
    if 97 <= c <= 122 then c - 32 else c
  }

  function Upper(s: seq<byte>): (u: seq<byte>)
    ensures |u| == |s|
    ensures forall i :: 0 <= i < |s| ==> u[i] == ToUpper(s[i])
  {
    seq<byte>(|s|, i requires 0 <= i < |s| => ToUpper(s[i]))
  }

  /** The first `width` bytes of `s` in upper case, filled up with spaces. */
  function Field(s: seq<byte>, width: nat): (f: seq<byte>)
    ensures |f| == width
    ensures forall i :: 0 <= i < width ==> f[i] == if i < |s| then ToUpper(s[i]) else SPACE
  {
    seq<byte>(width, i requires 0 <= i < width => if i < |s| then ToUpper(s[i]) else SPACE)
  }

  /**
   Does the search see an extension?  It marks "no dot" by the pointer `name + 11`,
   so a first dot at offset 11 counts as none.
   */
  predicate HasExtension(name: seq<byte>) {
    IndexOf(name, DOT) < |name| && IndexOf(name, DOT) != 11
  }

  function Stem(name: seq<byte>): seq<byte> {
    name[..IndexOf(name, DOT)]
  }

  function Extension(name: seq<byte>): seq<byte> {
    if HasExtension(name) then name[IndexOf(name, DOT) + 1..] else []
  }

  /** The 11 bytes a directory is searched for. */
  function FatName(name: seq<byte>): (f: seq<byte>)
    ensures |f| == 11
  {
    Field(Stem(name), 8) + Field(Extension(name), 3)
  }

  /** Builds the search key the way the directory search does, in a 12-byte local. */
  method BuildFatName(name: array<byte>) returns (fatName: array<byte>)
    requires NUL in name[..]
    ensures fresh(fatName) && fatName.Length == 12
    ensures fatName[..11] == FatName(CString(name[..]))
  {
    fatName := new byte[12](_ => SPACE);
    fatName[11] := NUL;
    ghost var str := CString(name[..]);
    assert |str| < name.Length && name[|str|] == NUL;
    var ext := 0;
    while name[ext] != NUL && name[ext] != DOT
      invariant ext <= |str|
      invariant forall j :: 0 <= j < ext ==> str[j] != DOT
      decreases |str| - ext
    {
      ext := ext + 1;
    }
    IndexOfIs(str, DOT, ext);
    if name[ext] == NUL {
      ext := 11;
    }
    CopyField(fatName, 0, 8, name, 0, ext, Stem(str));
    if ext != 11 {
      CopyField(fatName, 8, 3, name, ext + 1, name.Length, Extension(str));
    } else {
      assert !HasExtension(str);
      FieldOfNothing(fatName[8..11]);
    }
    assert fatName[..11] == fatName[..8] + fatName[8..11];
  }

  lemma FieldOfNothing(spaces: seq<byte>)
    requires forall j :: 0 <= j < |spaces| ==> spaces[j] == SPACE
    ensures spaces == Field([], |spaces|)
  {
  }

  /**
   One of the two copying loops: at most `width` bytes of `name` from `from` on, in
   upper case, up to a NUL or the offset `stop`; `text` is the string found there.
   */
  method CopyField(fatName: array<byte>, at: nat, width: nat, name: array<byte>, from: nat, stop: nat,
                   ghost text: seq<byte>)
    requires fatName != name && at + width <= fatName.Length
    requires forall j :: at <= j < at + width ==> fatName[j] == SPACE
    requires from + |text| < name.Length && name[from..from + |text|] == text && NUL !in text
    requires from + |text| < stop ==> name[from + |text|] == NUL
    requires |text| < width ==> from + |text| <= stop
    requires |text| >= width ==> from + width <= stop
    modifies fatName
    ensures fatName[at..at + width] == Field(text, width)
    ensures forall j :: 0 <= j < fatName.Length && !(at <= j < at + width) ==> fatName[j] == old(fatName[j])
  {
    var i := 0;
    while i < width && name[from + i] != NUL && from + i < stop
      invariant i <= width && i <= |text|
      invariant forall j :: at <= j < at + width ==> fatName[j] == if j < at + i then ToUpper(text[j - at]) else SPACE
      invariant forall j :: 0 <= j < fatName.Length && !(at <= j < at + width) ==> fatName[j] == old(fatName[j])
    {
      assert name[from + i] == text[i];
      fatName[at + i] := ToUpper(name[from + i]);
      i := i + 1;
    }
    assert i < width ==> i == |text| by {
      if i < |text| {
        assert name[from + i] == text[i];
      }
    }
  }

  // ---------------------------------------------------------------- canonical names

  /** A character that can stand in a stem or an extension. */
  predicate NameChar(c: byte) {
    c != NUL && c != SPACE && c != DOT && c != SLASH
  }

  /** A stem of 1 to 8 and an extension of 0 to 3 name characters. */
  predicate Valid83(stem: seq<byte>, ext: seq<byte>) {
    && 1 <= |stem| <= 8 && |ext| <= 3
    && (forall i :: 0 <= i < |stem| ==> NameChar(stem[i]))
    && (forall i :: 0 <= i < |ext| ==> NameChar(ext[i]))
  }

  function Spelled(stem: seq<byte>, ext: seq<byte>): seq<byte> {
    if ext == [] then stem else stem + [DOT] + ext
  }

  /** Byte for byte the same, or one a small letter and the other the capital 32 below. */
  predicate SameUpToCase(a: seq<byte>, b: seq<byte>) {
    && |a| == |b|
    && forall i :: 0 <= i < |a| ==>
         || a[i] == b[i]
         || (97 <= a[i] <= 122 && b[i] == a[i] - 32)
         || (97 <= b[i] <= 122 && a[i] == b[i] - 32)
  }

  lemma UpperSeesAllButCase(a: seq<byte>, b: seq<byte>)
    ensures Upper(a) == Upper(b) <==> SameUpToCase(a, b)
  {
    if Upper(a) == Upper(b) {
      assert |a| == |b|;
      assert forall i :: 0 <= i < |a| ==> Upper(a)[i] == Upper(b)[i];
    }
  }

  /** The search key does not see case, whatever the name. */
  lemma FatNameIgnoresCase(a: seq<byte>, b: seq<byte>)
    requires SameUpToCase(a, b)
    ensures FatName(a) == FatName(b)
  {
    UpperSeesAllButCase(a, b);
    forall i | 0 <= i < |a|
      ensures ToUpper(a[i]) == ToUpper(b[i])
    {
      assert Upper(a)[i] == Upper(b)[i];
    }
    var d := IndexOf(a, DOT);
    assert forall j :: 0 <= j < d ==> ToUpper(a[j]) == ToUpper(b[j]);
    IndexOfIs(b, DOT, d);
    assert Field(Stem(a), 8) == Field(Stem(b), 8);
    assert Field(Extension(a), 3) == Field(Extension(b), 3);
  }

  lemma SpelledParts(stem: seq<byte>, ext: seq<byte>)
    requires Valid83(stem, ext)
    ensures Stem(Spelled(stem, ext)) == stem && Extension(Spelled(stem, ext)) == ext
  {
    IndexOfIs(Spelled(stem, ext), DOT, |stem|);
  }

  lemma FieldLength(s: seq<byte>, t: seq<byte>, width: nat)
    requires |s| <= width && |t| <= width
    requires forall i :: 0 <= i < |t| ==> NameChar(t[i])
    requires Field(s, width) == Field(t, width)
    ensures |t| <= |s|
  {
    assert |s| < width ==> Field(s, width)[|s|] == SPACE;
  }

  lemma FieldDetermines(s: seq<byte>, t: seq<byte>, width: nat)
    requires |s| <= width && |t| <= width
    requires forall i :: 0 <= i < |s| ==> NameChar(s[i])
    requires forall i :: 0 <= i < |t| ==> NameChar(t[i])
    requires Field(s, width) == Field(t, width)
    ensures Upper(s) == Upper(t)
  {
    FieldLength(s, t, width);
    FieldLength(t, s, width);
    forall i | 0 <= i < |s|
      ensures Upper(s)[i] == Upper(t)[i]
    {
      assert Field(s, width)[i] == Field(t, width)[i];
    }
  }

  /** Two valid 8.3 names have the same 11 bytes exactly when they differ at most in case. */
  lemma SameKeyIffSameName(stem: seq<byte>, ext: seq<byte>, stem': seq<byte>, ext': seq<byte>)
    requires Valid83(stem, ext) && Valid83(stem', ext')
    ensures FatName(Spelled(stem, ext)) == FatName(Spelled(stem', ext'))
            <==> SameUpToCase(Spelled(stem, ext), Spelled(stem', ext'))
  {
    var a, b := Spelled(stem, ext), Spelled(stem', ext');
    UpperSeesAllButCase(a, b);
    if Upper(a) == Upper(b) {
      FatNameIgnoresCase(a, b);
    }
    if FatName(a) == FatName(b) {
      SpelledParts(stem, ext);
      SpelledParts(stem', ext');
      assert Field(stem, 8) == FatName(a)[..8] == FatName(b)[..8] == Field(stem', 8);
      assert Field(ext, 3) == FatName(a)[8..] == FatName(b)[8..] == Field(ext', 3);
      FieldDetermines(stem, stem', 8);
      FieldDetermines(ext, ext', 3);
      UpperOfSpelled(stem, ext);
      UpperOfSpelled(stem', ext');
    }
  }

  lemma UpperOfSpelled(stem: seq<byte>, ext: seq<byte>)
    ensures Upper(Spelled(stem, ext)) == Spelled(Upper(stem), Upper(ext))
  {
    if ext == [] {
      assert Upper(ext) == [];
    } else {
      assert Upper(ext) != [];
      assert Upper(stem + [DOT] + ext) == Upper(stem) + [DOT] + Upper(ext);
    }
  }

  /** A byte as the key holds it: small letters become capitals, all else stays. */
  predicate Capital(c: byte, k: byte) {
    k == if 97 <= c <= 122 then c - 32 else c
  }

  /**
   The key of any name, byte by byte.  With the first dot at offset `d`, or none when
   `d` is the length: eight bytes of what stands before it, three of what stands behind
   it, filled up with spaces, except that a dot at offset 11 counts as no dot.
   */
  lemma KeyBytes(name: seq<byte>, d: nat)
    requires d <= |name| && (d < |name| ==> name[d] == 46) && 46 !in name[..d]
    ensures forall k :: 0 <= k < 8 ==>
              if k < d then Capital(name[k], FatName(name)[k]) else FatName(name)[k] == 32
    ensures forall k :: 8 <= k < 11 ==>
              if d != 11 && d + k - 7 < |name| then Capital(name[d + k - 7], FatName(name)[k])
              else FatName(name)[k] == 32
  {
    assert forall j :: 0 <= j < d ==> name[j] == name[..d][j];
    IndexOfIs(name, 46, d);
    assert Stem(name) == name[..d];
    forall k | 0 <= k < 8
      ensures FatName(name)[k] == Field(Stem(name), 8)[k]
    {
    }
    forall k | 8 <= k < 11
      ensures FatName(name)[k] == Field(Extension(name), 3)[k - 8]
    {
    }
    assert d < |name| && d != 11 ==> Extension(name) == name[d + 1..];
  }

  // ---------------------------------------------------------------- the unset byte

  /** The 11 bytes are settled before the search looks past the end of the component. */
  predicate IgnoresTail(comp: seq<byte>) {
    if HasExtension(comp) then |Extension(comp)| >= 3 else |comp| >= 8
  }

  /** One more byte, which the path walk leaves unset, makes no difference. */
  lemma TailIsIgnored(comp: seq<byte>, tail: byte)
    requires IgnoresTail(comp)
    ensures FatName(comp + [tail]) == FatName(comp)
  {
    var name, d := comp + [tail], IndexOf(comp, DOT);
    if d < |comp| {
      IndexOfIs(name, DOT, d);
      assert name[..d] == comp[..d];
    } else if tail == DOT {
      IndexOfIs(name, DOT, |comp|);
      assert name[..|comp|] == comp;
      assert Field(Extension(name), 3) == Field([], 3);
    } else {
      IndexOfIs(name, DOT, |name|);
      assert Field(Stem(name), 8) == Field(Stem(comp), 8);
    }
    assert Field(Extension(name), 3) == Field(Extension(comp), 3);
  }

  /** Every other component is looked up under a name that depends on that byte. */
  lemma TailIsSeen(comp: seq<byte>)
    requires !IgnoresTail(comp)
    ensures FatName(comp + [65]) != FatName(comp)
  {
    var name, d := comp + [65], IndexOf(comp, DOT);
    if HasExtension(comp) {
      IndexOfIs(name, DOT, d);
      var k := |Extension(comp)|;
      assert Extension(name) == Extension(comp) + [65];
      assert FatName(name)[8 + k] == 65 && FatName(comp)[8 + k] == SPACE;
    } else {
      IndexOfIs(name, DOT, |name|);
      assert FatName(name)[|comp|] == 65 && FatName(comp)[|comp|] == SPACE;
    }
  }

  /** The lookup of a component is independent of the byte left unset behind it iff `IgnoresTail`. */
  lemma TailIndependence(comp: seq<byte>)
    ensures IgnoresTail(comp) <==> forall tail: byte :: FatName(comp + [tail]) == FatName(comp)
  {
    if IgnoresTail(comp) {
      forall tail: byte ensures FatName(comp + [tail]) == FatName(comp) {
        TailIsIgnored(comp, tail);
      }
    } else {
      TailIsSeen(comp);
    }
  }
}
