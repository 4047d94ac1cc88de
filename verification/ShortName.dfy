/** The 8.3 short names of directory entries, after the Microsoft FAT32 File System Specification,
    section "FAT Directory Structure". Names are byte strings without their terminating NUL. */
module ShortName {
  import opened Machine

  const SPACE: u8 := 0x20
  const DOT: u8 := 0x2E
  const TILDE: u8 := 0x7E
  const ONE: u8 := 0x31

  type Bytes = seq<u8>

  function Upper(c: u8): (r: u8)
  {
    if 0x61 <= c <= 0x7A then c - 0x20 else c
  }

  function UpperAll(s: Bytes): (r: Bytes)
    ensures |r| == |s| && forall i :: 0 <= i < |s| ==> r[i] == Upper(s[i])
  {
    seq(|s|, i requires 0 <= i < |s| => Upper(s[i]))
  }

  function Spaces(n: nat): (r: Bytes)
    ensures |r| == n && forall i :: 0 <= i < n ==> r[i] == SPACE
  {
    seq(n, _ => SPACE)
  }

  /** The position of the first dot; the length of the name if there is none. */
  function FirstDot(f: Bytes): (d: nat)
    ensures d <= |f| && (d < |f| ==> f[d] == DOT) && forall i :: 0 <= i < d ==> f[i] != DOT
  {
    if f == [] || f[0] == DOT then 0 else FirstDot(f[1..]) + 1
  }

  function NamePart(f: Bytes): (r: Bytes)
    ensures |r| == 8
  {
    var d := FirstDot(f);
    if d > 8 then UpperAll(f[..6]) + [TILDE, ONE] else UpperAll(f[..d]) + Spaces(8 - d)
  }

  function ExtChar(f: Bytes, i: nat): u8
  {
    var d := FirstDot(f);
    if d < |f| && d + 1 + i < |f| then Upper(f[d + 1 + i]) else SPACE
  }

  function ExtPart(f: Bytes): (r: Bytes)
    ensures |r| == 3 && forall i :: 0 <= i < 3 ==> r[i] == ExtChar(f, i)
  {
    [ExtChar(f, 0), ExtChar(f, 1), ExtChar(f, 2)]
  }

  /** The eleven name bytes of an entry for file name f. */
  function Encode(f: Bytes): (e: Bytes)
    ensures |e| == 11 && e[..8] == NamePart(f) && e[8..] == ExtPart(f)
  {
    NamePart(f) + ExtPart(f)
  }

  /** What is left of a field when it is cut at its first space or NUL. */
  function Field(s: Bytes): (r: Bytes)
    ensures r <= s && forall i :: 0 <= i < |r| ==> r[i] != SPACE && r[i] != 0
    ensures |r| < |s| ==> s[|r|] == SPACE || s[|r|] == 0
  {
    if s == [] || s[0] == SPACE || s[0] == 0 then [] else [s[0]] + Field(s[1..])
  }

  /** Name and extension with a dot between them, where there is an extension. */
  function Dotted(name: Bytes, ext: Bytes): Bytes
  {
    if ext == [] then name else name + [DOT] + ext
  }

  /** The file name that eleven name bytes stand for. */
  function Decode(e: Bytes): Bytes
    requires |e| == 11
  {
    Dotted(Field(e[..8]), Field(e[8..]))
  }

  predicate NoNul(f: Bytes)
  {
    forall i :: 0 <= i < |f| ==> f[i] != 0
  }

  predicate NoSpace(f: Bytes)
  {
    forall i :: 0 <= i < |f| ==> f[i] != SPACE
  }

  /** At most eight characters before the first dot, and one to three after it if there is one. */
  predicate Fits(f: Bytes)
  {
    var d := FirstDot(f);
    NoSpace(f) && d <= 8 && (d < |f| ==> 1 <= |f| - d - 1 <= 3)
  }

  /** Spaces occur in the field only after everything else. */
  predicate SpacesPad(s: Bytes)
  {
    forall i, j :: 0 <= i < j < |s| && s[i] == SPACE ==> s[j] == SPACE
  }

  // A field is determined by where its first space or NUL is.
  lemma {:induction false} FieldIs(s: Bytes, n: nat)
    requires n <= |s| && forall i :: 0 <= i < n ==> s[i] != SPACE && s[i] != 0
    requires n < |s| ==> s[n] == SPACE || s[n] == 0
    ensures Field(s) == s[..n]
  {
  }

  lemma {:induction false} FirstDotIs(f: Bytes, d: nat)
    requires d <= |f| && (d < |f| ==> f[d] == DOT) && forall i :: 0 <= i < d ==> f[i] != DOT
    ensures FirstDot(f) == d
  {
  }

  // ----- decoding an encoded name

  lemma {:induction false} PartsClean(f: Bytes)
    requires NoNul(f)
    ensures forall i :: 0 <= i < 8 ==>
              NamePart(f)[i] != 0 && NamePart(f)[i] != DOT && Upper(NamePart(f)[i]) == NamePart(f)[i]
    ensures forall i :: 0 <= i < 3 ==> ExtPart(f)[i] != 0 && Upper(ExtPart(f)[i]) == ExtPart(f)[i]
  {
  }

  /** Encoding a name made of upper-case fields pads each of them. */
  lemma {:induction false} EncodeFields(name: Bytes, ext: Bytes)
    requires |name| <= 8 && |ext| <= 3
    requires forall i :: 0 <= i < |name| ==> name[i] != DOT && Upper(name[i]) == name[i]
    requires forall i :: 0 <= i < |ext| ==> Upper(ext[i]) == ext[i]
    ensures Encode(Dotted(name, ext)) == name + Spaces(8 - |name|) + (ext + Spaces(3 - |ext|))
  {
    var g := Dotted(name, ext);
    FirstDotIs(g, |name|);
    assert NamePart(g) == name + Spaces(8 - |name|);
    forall i | 0 <= i < 3 ensures ExtPart(g)[i] == (ext + Spaces(3 - |ext|))[i] { }
    assert ExtPart(g) == ext + Spaces(3 - |ext|);
  }

  lemma {:induction false} PaddedIff(s: Bytes)
    requires forall i :: 0 <= i < |s| ==> s[i] != 0
    ensures s == Field(s) + Spaces(|s| - |Field(s)|) <==> SpacesPad(s)
  {
  }

  /** Decoding and encoding again gives back the same name bytes exactly when spaces only pad. */
  lemma {:induction false} EncodeStable(f: Bytes)
    requires NoNul(f)
    ensures Encode(Decode(Encode(f))) == Encode(f) <==> SpacesPad(NamePart(f)) && SpacesPad(ExtPart(f))
  {
    var n, x := NamePart(f), ExtPart(f);
    PartsClean(f);
    assert Encode(f) == n + x;
    hide NamePart, ExtPart, SpacesPad, Dotted, Encode, Spaces, NoNul, Upper;
    var name, ext := Field(n), Field(x);
    assert Decode(Encode(f)) == Dotted(name, ext);
    EncodeFields(name, ext);
    PaddedIff(n);
    PaddedIff(x);
    SameParts(name + Spaces(8 - |name|), ext + Spaces(3 - |ext|), n, x);
  }

  lemma SameParts(a: Bytes, b: Bytes, c: Bytes, d: Bytes)
    requires |a| == |c|
    ensures a + b == c + d <==> a == c && b == d
  {
    assert (a + b)[..|a|] == a && (a + b)[|a|..] == b && (c + d)[..|a|] == c && (c + d)[|a|..] == d;
  }

  /** In particular for every name without spaces, however long it or its extension is. */
  lemma {:induction false} SpaceFreeStable(f: Bytes)
    requires NoNul(f) && NoSpace(f)
    ensures Encode(Decode(Encode(f))) == Encode(f)
  {
    EncodeStable(f);
    hide Encode, Decode;
    NamePads(f);
    ExtPads(f);
  }

  lemma {:induction false} NamePads(f: Bytes)
    requires NoSpace(f)
    ensures SpacesPad(NamePart(f))
  {
  }

  lemma {:induction false} ExtPads(f: Bytes)
    requires NoSpace(f)
    ensures SpacesPad(ExtPart(f))
  {
  }

  // The fields of the encoding, for a name without spaces.
  lemma {:induction false} NameField(f: Bytes)
    requires NoNul(f) && NoSpace(f) && FirstDot(f) <= 8
    ensures Field(NamePart(f)) == UpperAll(f)[..FirstDot(f)]
  {
    var d := FirstDot(f);
    assert NamePart(f)[..d] == UpperAll(f)[..d];
    FieldIs(NamePart(f), d);
  }

  lemma {:induction false} ExtField(f: Bytes)
    requires NoNul(f) && NoSpace(f) && |f| <= FirstDot(f) + 4
    ensures Field(ExtPart(f)) == if FirstDot(f) < |f| then UpperAll(f)[FirstDot(f) + 1..] else []
  {
  }

  /** The eleven bytes one by one: letters in upper case, spaces where nothing is left, and "~1"
      at the end of a name part that is longer than eight. */
  lemma {:induction false} EncodeAt(f: Bytes, i: nat)
    requires i < 11
    ensures var d := FirstDot(f);
            var at := if i < 8 then i else d + 1 + (i - 8);
            Encode(f)[i] ==
            if i < 8 && d > 8 && i >= 6 then (if i == 6 then 0x7E else 0x31)
            else if at < (if i < 8 then d else |f|)
            then (if 0x61 <= f[at] <= 0x7A then f[at] - 0x20 else f[at])
            else 0x20
  {
    assert Encode(f)[i] == if i < 8 then NamePart(f)[i] else ExtPart(f)[i - 8];
  }

  /** What a reader makes of a name that was written: a first part that is too long comes back cut
      to six characters and "~1", an extension that is too long cut to three. */
  lemma {:induction false} ReadsBackAs(f: Bytes)
    requires NoNul(f) && NoSpace(f)
    ensures var d, u := FirstDot(f), UpperAll(f);
            Decode(Encode(f)) ==
            (if d > 8 then u[..6] + [0x7E, 0x31] else u[..d])
            + (if d + 1 < |f| then [0x2E] + u[d + 1..if |f| < d + 4 then |f| else d + 4] else [])
  {
    NameRead(f);
    ExtRead(f);
    TwoFields(f);
    hide NamePart, ExtPart, UpperAll, Encode, Decode, NoNul, NoSpace, Field, FirstDot;
  }

  lemma {:induction false} TwoFields(f: Bytes)
    ensures Decode(Encode(f)) ==
            Field(NamePart(f)) + if Field(ExtPart(f)) == [] then [] else [0x2E] + Field(ExtPart(f))
  {
    hide NamePart, ExtPart, Field;
    assert Field(NamePart(f)) + [] == Field(NamePart(f));
  }

  lemma {:induction false} NameRead(f: Bytes)
    requires NoNul(f) && NoSpace(f)
    ensures Field(NamePart(f)) == if FirstDot(f) > 8 then UpperAll(f)[..6] + [0x7E, 0x31]
            else UpperAll(f)[..FirstDot(f)]
  {
    if FirstDot(f) > 8 {
      assert NamePart(f) == UpperAll(f)[..6] + [0x7E, 0x31];
      FieldIs(NamePart(f), 8);
      assert NamePart(f)[..8] == NamePart(f);
    } else {
      NameField(f);
    }
  }

  lemma {:induction false} ExtRead(f: Bytes)
    requires NoNul(f) && NoSpace(f)
    ensures var d := FirstDot(f);
            Field(ExtPart(f)) ==
            if d + 1 < |f| then UpperAll(f)[d + 1..if |f| < d + 4 then |f| else d + 4] else []
  {
    var d := FirstDot(f);
    if |f| <= d + 4 {
      ExtField(f);
    } else {
      hide NamePart;
      assert ExtPart(f) == UpperAll(f)[d + 1..d + 4];
      FieldIs(ExtPart(f), 3);
      assert ExtPart(f)[..3] == ExtPart(f);
    }
  }

  /** What any eleven bytes stand for: each field up to its first space or NUL, and a dot between
      them where the second is not empty. */
  lemma {:induction false} DecodeIs(e: Bytes, a: nat, b: nat)
    requires |e| == 11 && a <= 8 && b <= 3
    requires (forall i :: 0 <= i < a ==> e[i] != 0x20 && e[i] != 0) && (a < 8 ==> e[a] == 0x20 || e[a] == 0)
    requires forall i :: 8 <= i < 8 + b ==> e[i] != 0x20 && e[i] != 0
    requires b < 3 ==> e[8 + b] == 0x20 || e[8 + b] == 0
    ensures Decode(e) == e[..a] + if b == 0 then [] else [0x2E] + e[8..8 + b]
  {
    FieldIs(e[..8], a);
    FieldIs(e[8..], b);
    assert e[..8][..a] == e[..a] && e[8..][..b] == e[8..8 + b];
  }

  /** The name comes back, in upper case, exactly when it fits 8.3. */
  lemma {:induction false} NameComesBackIff(f: Bytes)
    requires NoNul(f)
    ensures Decode(Encode(f)) == UpperAll(f) <==> Fits(f)
  {
    if Fits(f) {
      FittingComesBack(f);
    } else if Decode(Encode(f)) == UpperAll(f) {
      OnlyFittingComesBack(f);
    }
  }

  lemma {:induction false} DottedAgain(u: Bytes, d: nat)
    requires d <= |u| && (d < |u| ==> u[d] == DOT && d + 1 < |u|)
    ensures u == Dotted(u[..d], if d < |u| then u[d + 1..] else [])
  {
  }

  lemma {:induction false} FittingComesBack(f: Bytes)
    requires NoNul(f) && Fits(f)
    ensures Decode(Encode(f)) == UpperAll(f)
  {
    hide NamePart, ExtPart, UpperAll, Encode, NoNul, NoSpace, Field, FirstDot;
    NameField(f);
    ExtField(f);
    var d, u := FirstDot(f), UpperAll(f);
    assert d < |f| ==> u[d] == DOT;
    hide Upper;
    DottedAgain(u, d);
  }

  lemma {:induction false} OnlyFittingComesBack(f: Bytes)
    requires NoNul(f) && Decode(Encode(f)) == UpperAll(f)
    ensures Fits(f)
  {
  }

}
