/** Directory entries of 32 bytes, filled and read in place, and whole files through them. */
module DirEntry {
  import opened Machine
  import opened ShortName
  import opened FatTable
  import opened FileSystem

  const ENTRY_SIZE := 32
  const LFN: u8 := 0x0F        // attribute byte of a long-name entry
  const DELETED: u8 := 0xE5

  /** A C string: what comes before the first NUL. */
  function CString(s: Bytes): (r: Bytes)
    ensures |r| <= |s| && r == s[..|r|] && forall i :: 0 <= i < |r| ==> r[i] != 0
    ensures |r| < |s| ==> s[|r|] == 0
  {
    if s == [] || s[0] == 0 then [] else [s[0]] + CString(s[1..])
  }

  lemma {:induction false} CStringIs(s: Bytes, n: nat)
    requires n < |s| && s[n] == 0 && forall i :: 0 <= i < n ==> s[i] != 0
    ensures CString(s) == s[..n]
  {
  }

  /** strlen */
  method StrLen(s: array<u8>) returns (len: nat)
    requires |CString(s[..])| < s.Length
    ensures len == |CString(s[..])|
  {
    ghost var r := CString(s[..]);
    assert s[..][|r|] == 0;
    len := 0;
    while s[len] != 0
      invariant 0 <= len <= |r| && forall i :: 0 <= i < len ==> s[i] != 0
      decreases s.Length - len
    {
      len := len + 1;
    }
    CStringIs(s[..], len);
  }

  /** trim_spaces: the first space among the bytes 0 to max becomes the end of the string. */
  method TrimSpaces(c: array<u8>, max: nat)
    requires max < c.Length
    modifies c
    ensures exists p ::
              && 0 <= p <= max && (forall i :: 0 <= i < p ==> old(c[..])[i] != SPACE)
              && (old(c[..])[p] == SPACE || p == max)
              && c[..] == if old(c[..])[p] == SPACE then old(c[..])[p := 0] else old(c[..])
  {
    var p, i := 0, 0;
    while c[p] != SPACE && i < max
      invariant 0 <= p == i <= max && forall j :: 0 <= j < p ==> c[j] != SPACE
      decreases max - i
      modifies {}
    {
      i := i + 1;
      p := p + 1;
    }
    ghost var before: Bytes := c[..];
    if c[p] == SPACE {
      c[p] := 0;
      assert c[..] == before[p := 0];
    }
    assert 0 <= p <= max && (before[p] == SPACE || p == max);
  }

  // A field with a NUL behind it, trimmed, is the field as a C string.
  lemma {:induction false} TrimmedField(s: Bytes, t: Bytes, max: nat, p: nat)
    requires max < |s| == |t| && s[max] == 0 && p <= max && (forall i :: 0 <= i < p ==> s[i] != SPACE)
    requires (s[p] == SPACE || p == max) && t == if s[p] == SPACE then s[p := 0] else s
    ensures CString(t) == Field(s[..max])
  {
    var r := CString(t);
    assert t[p] == 0 && r == t[..|r|];
    assert |r| <= p;
    FieldIs(s[..max], |r|);
  }

  method TrimField(c: array<u8>, max: nat)
    requires max < c.Length && c[max] == 0
    modifies c
    ensures CString(c[..]) == Field(old(c[..])[..max])
    ensures |CString(c[..])| <= max
  {
    ghost var before: Bytes := c[..];
    TrimSpaces(c, max);
    ghost var p :| 0 <= p <= max && (forall i :: 0 <= i < p ==> before[i] != SPACE) && (before[p] == SPACE || p == max)
      && c[..] == if before[p] == SPACE then before[p := 0] else before;
    TrimmedField(before, c[..], max, p);
    assert c[..][max] == 0;
  }

  /** write_filename */
  method WriteFilename(fname: Bytes, buffer: array<u8>)
    requires 11 <= buffer.Length
    modifies buffer
    ensures buffer[..] == Encode(fname) + old(buffer[..])[11..]
  {
    var i := 0;
    while i < 11
      invariant 0 <= i <= 11
      invariant forall x :: 0 <= x < buffer.Length ==> buffer[x] == if x < i then SPACE else old(buffer[x])
    {
      buffer[i] := SPACE;
      i := i + 1;
    }
    var len := |fname|;
    var dotIndex := -1;
    i := 0;
    while i < len
      invariant 0 <= i <= len && dotIndex == -1 && forall j :: 0 <= j < i ==> fname[j] != DOT
    {
      if fname[i] == DOT {
        dotIndex := i;
        break;
      }
      i := i + 1;
    }
    FirstDotIs(fname, i);
    i := 0;
    while i < 3
      invariant 0 <= i <= 3
      invariant forall x :: 0 <= x < buffer.Length ==>
                  buffer[x] == if x < 8 then SPACE else if x < 8 + i then ExtChar(fname, x - 8)
                    else if x < 11 then SPACE else old(buffer[x])
    {
      if dotIndex > -1 {
        var charIndex := dotIndex + 1 + i;
        buffer[8 + i] := if charIndex >= len then SPACE else Upper(fname[charIndex]);
      } else {
        buffer[8 + i] := SPACE;
      }
      i := i + 1;
    }
    var nameLen := if dotIndex > -1 then dotIndex else len;
    assert buffer[8..] == ExtPart(fname) + old(buffer[..])[11..];
    WriteName(fname, nameLen, buffer);
    assert buffer[..] == buffer[..8] + buffer[8..];
  }

  /** The name part: cut to six characters and a tilde where it is longer than eight. */
  method WriteName(fname: Bytes, nameLen: nat, buffer: array<u8>)
    requires 11 <= buffer.Length && nameLen == FirstDot(fname) && forall x :: 0 <= x < 8 ==> buffer[x] == SPACE
    modifies buffer
    ensures buffer[..8] == NamePart(fname) && buffer[8..] == old(buffer[8..])
  {
    var n := if nameLen > 8 then 6 else nameLen;
    var i := 0;
    while i < n
      invariant 0 <= i <= n
      invariant forall x :: 0 <= x < buffer.Length ==> buffer[x] == if x < i then Upper(fname[x]) else old(buffer[x])
    {
      buffer[i] := Upper(fname[i]);
      i := i + 1;
    }
    if nameLen > 8 {
      buffer[6] := TILDE;
      buffer[7] := ONE;
    }
    assert buffer[..8] == NamePart(fname);
    assert buffer[8..] == old(buffer[8..]);
  }

  /** The name decoding of read_dir_entry, in a buffer of thirteen bytes. */
  method ReadName(name: Bytes) returns (filename: array<u8>)
    requires |name| == 11
    ensures fresh(filename) && filename.Length == 13 && CString(filename[..]) == Decode(name)
    ensures |CString(filename[..])| < filename.Length
  {
    filename := new u8[13];
    CopyOut(filename, 0, name, 11);
    filename[11] := 0;
    assert filename[8..11] == name[8..];
    var extension := new u8[4];
    CopyOut(extension, 0, filename[8..11], 3);
    extension[3] := 0;
    assert extension[..][..3] == name[8..];
    TrimField(extension, 3);
    filename[8] := 0;
    assert filename[..][..8] == name[..8];
    TrimField(filename, 8);
    var extLen := StrLen(extension);
    if extLen > 0 {
      AppendExtension(filename, extension);
    }
  }

  /** filename, a dot, and the extension with its terminator. */
  method AppendExtension(filename: array<u8>, extension: array<u8>)
    requires filename != extension && extension.Length == 4 && filename.Length == 13
    requires |CString(filename[..])| <= 8 && |CString(extension[..])| <= 3
    modifies filename
    ensures CString(filename[..]) == old(CString(filename[..])) + [DOT] + CString(extension[..])
  {
    ghost var name: Bytes, ext: Bytes, before: Bytes := CString(filename[..]), CString(extension[..]), filename[..];
    var len := StrLen(filename);
    filename[len] := DOT;
    CopyOut(filename, len + 1, extension[..], 4);
    DottedCString(before, extension[..], filename[..], name, ext);
  }

  lemma {:induction false} DottedCString(before: Bytes, extension: Bytes, after: Bytes, name: Bytes, ext: Bytes)
    requires name == CString(before) && ext == CString(extension) && |ext| < |extension| &&
             |name| + 1 + |extension| <= |before|
    requires after == before[..|name|] + [DOT] + extension + before[|name| + 1 + |extension|..]
    ensures CString(after) == name + [DOT] + ext
  {
    var n := |name| + 1 + |ext|;
    assert after[..n] == name + [DOT] + ext;
    assert after[n] == extension[|ext|] == 0;
    CStringIs(after, n);
  }

  // ----- the other fields

  datatype Entry = Entry(name: Bytes, attr: u8, firstCluster: nat, size: nat)

  function Word16(e: Bytes, at: nat): (r: nat)
    requires at + 2 <= |e|
    ensures r < 0x1_0000
  {
    var b0: int, b1: int := e[at], e[at + 1];
    b1 * 0x100 + b0
  }

  function Word32(e: Bytes, at: nat): (r: nat)
    requires at + 4 <= |e|
    ensures r < TOP
  {
    Word16(e, at + 2) * 0x1_0000 + Word16(e, at)
  }

  /** What read_dir_entry makes of an entry; None for a free, deleted or long-name one. */
  function DecodeEntry(e: Bytes): Option<Entry>
    requires |e| == ENTRY_SIZE
  {
    if e[0] == 0 || e[0] == DELETED || e[11] == LFN then None
    else Some(Entry(Decode(e[..11]), e[11], Word16(e, 20) * 0x1_0000 + Word16(e, 26), Word32(e, 28)))
  }

  /** Which entries are passed over, and where the fields of the others are: two words of two bytes
      for the cluster, the high one first, and a size of four bytes, each least significant byte
      first. */
  lemma {:induction false} EntryFields(e: Bytes)
    requires |e| == ENTRY_SIZE
    ensures DecodeEntry(e) == None <==> e[0] == 0 || e[0] == 0xE5 || e[11] == 0x0F
    ensures DecodeEntry(e).Some? ==>
              var d := DecodeEntry(e).value;
              && d.name == Decode(e[..11]) && d.attr == e[11]
              && d.firstCluster ==
                 e[26] as int + 0x100 * (e[27] as int) + 0x1_0000 * (e[20] as int) + 0x100_0000 * (e[21] as int)
              && d.size == e[28] as int + 0x100 * (e[29] as int) + 0x1_0000 * (e[30] as int) +
                0x100_0000 * (e[31] as int)
  {
  }

  /** read_uint16 */
  method ReadUint16(buffer: array<u8>, at: nat) returns (r: nat)
    requires at + 2 <= buffer.Length
    ensures r == Word16(buffer[..], at) < 0x1_0000
    ensures r == buffer[at] as int + 0x100 * (buffer[at + 1] as int)
  {
    var low: nat, high: nat := buffer[at], buffer[at + 1];
    r := high * 0x100 + low;
  }

  /** read_dir_entry for one entry; None where it returns NULL or goes on to the next entry. */
  method ReadDirEntry(entry: array<u8>) returns (r: Option<Entry>)
    requires entry.Length == ENTRY_SIZE
    ensures r == DecodeEntry(entry[..])
    ensures r.Some? ==> r.value.firstCluster < TOP && r.value.size < TOP
  {
    hide Decode, Word16, CString;
    ghost var raw: Bytes := entry[..];
    if entry[0] == 0 || entry[0] == DELETED || entry[11] == LFN {
      return None;
    }
    var filename := ReadName(entry[..11]);
    assert entry[..11] == raw[..11];
    var len := StrLen(filename);
    var high := ReadUint16(entry, 20);
    var low := ReadUint16(entry, 26);
    var sizeLow := ReadUint16(entry, 28);
    var sizeHigh := ReadUint16(entry, 30);
    r := Some(Entry(filename[..len], entry[11], high * 0x1_0000 + low, sizeHigh * 0x1_0000 + sizeLow));
  }

  /** The attribute, cluster and size fields as write_file_fun stores them, byte by byte. */
  method WriteFields(entry: array<u8>, attrs: u8, firstCluster: u32, len: u32)
    requires entry.Length == ENTRY_SIZE
    modifies entry
    ensures entry[..11] == old(entry[..11]) && entry[11] == attrs
    ensures Word16(entry[..], 20) * 0x1_0000 + Word16(entry[..], 26) == firstCluster
    ensures Word32(entry[..], 28) == len
    ensures firstCluster ==
            entry[26] as int + 0x100 * (entry[27] as int) + 0x1_0000 * (entry[20] as int) +
              0x100_0000 * (entry[21] as int)
    ensures len ==
            entry[28] as int + 0x100 * (entry[29] as int) + 0x1_0000 * (entry[30] as int) +
              0x100_0000 * (entry[31] as int)
    ensures entry[12..20] == old(entry[12..20]) && entry[22..26] == old(entry[22..26])
  {
    entry[11] := attrs;
    entry[20] := firstCluster / 0x1_0000 % 0x100;
    entry[21] := firstCluster / 0x100_0000 % 0x100;
    entry[26] := firstCluster % 0x100;
    entry[27] := firstCluster / 0x100 % 0x100;
    entry[28] := len % 0x100;
    entry[29] := len / 0x100 % 0x100;
    entry[30] := len / 0x1_0000 % 0x100;
    entry[31] := len / 0x100_0000 % 0x100;
    FourBytes(firstCluster);
    FourBytes(len);
  }

  lemma FourBytes(v: u32)
    ensures v == (v / 0x100_0000 % 0x100 * 0x100 + v / 0x1_0000 % 0x100) * 0x1_0000 +
            (v / 0x100 % 0x100 * 0x100 + v % 0x100)
  {
  }

  /** write_file_fun with a directory slot already found. With currCluster 0 a new file is written;
      otherwise the entry is for a chain that exists, and nothing is allocated. The entry decodes to
      the name, attributes, first cluster and length. */
  method WriteFile(fs: FileSystem, data: seq<u8>, fname: Bytes, attrs: u8, currCluster: u32, entry: array<u8>)
    returns (ok: bool, first: nat)
    requires fs.Valid() && fs.fat as object != fs.disk && |data| < TOP && NoNul(fname)
    requires entry.Length == ENTRY_SIZE && entry as object != fs.fat && entry as object != fs.disk
    modifies fs, fs.fat, fs.disk, entry
    ensures fs.Valid()
    ensures currCluster == 0 ==> (ok <==> ClustersFor(|data|, fs.clusterSize) <= FreeCount(old(fs.fat[..])))
    ensures currCluster == 0 && ok ==> first !in old(fs.files) && first in fs.files && fs.files[first].bytes == data
    ensures currCluster != 0 ==> ok && first == currCluster && fs.files == old(fs.files) && fs.hint == old(fs.hint)
    ensures currCluster != 0 ==> fs.fat[..] == old(fs.fat[..]) && fs.disk[..] == old(fs.disk[..])
    ensures forall f :: f in old(fs.files) ==> f in fs.files && fs.files[f] == old(fs.files)[f]
    ensures ok ==> DecodeEntry(entry[..]) ==
                   if attrs == LFN || (fname != [] && fname[0] == DELETED) then None
                   else Some(Entry(Decode(Encode(fname)), attrs, first, |data|))
  {
    hide Stored, WellFormed, IsChain, Distinct, ClustersFor, FreeCount, DecodeEntry, Encode, Word16, Word32;
    WriteFilename(fname, entry);
    ghost var named: Bytes := entry[..];
    ok, first := true, currCluster;
    if currCluster == 0 {
      ghost var cs: seq<nat>;
      ok, first, cs := fs.WriteClusters(data);
    }
    if ok {
      WriteFields(entry, attrs, first, |data|);
      assert entry[..][..11] == named[..11] == Encode(fname);
      EntryDecodes(entry[..], fname, attrs, first, |data|);
    }
  }

  lemma {:induction false} EntryDecodes(e: Bytes, fname: Bytes, attrs: u8, first: nat, len: nat)
    requires |e| == ENTRY_SIZE && NoNul(fname) && e[..11] == Encode(fname) && e[11] == attrs
    requires Word16(e, 20) * 0x1_0000 + Word16(e, 26) == first && Word32(e, 28) == len
    ensures DecodeEntry(e) ==
            if attrs == LFN || (fname != [] && fname[0] == DELETED) then None
            else Some(Entry(Decode(Encode(fname)), attrs, first, len))
  {
  }

  /** From a directory entry back to the bytes of its file. */
  method FetchFile(fs: FileSystem, entry: array<u8>) returns (name: Bytes, file: array<u8>)
    requires fs.Valid() && entry.Length == ENTRY_SIZE && DecodeEntry(entry[..]).Some?
    requires var e := DecodeEntry(entry[..]).value;
             e.firstCluster in fs.files && e.size == |fs.files[e.firstCluster].bytes|
    ensures var e := DecodeEntry(entry[..]).value;
            fresh(file) && name == e.name && file[..] == fs.files[e.firstCluster].bytes
  {
    hide AllStored, WellFormed, DecodeEntry;
    var e := ReadDirEntry(entry);
    name := e.value.name;
    file := fs.ReadBack(e.value.firstCluster, e.value.size);
  }

  /** A new file read back through its directory entry: the bytes are those written, and the name
      is the upper-case one where it fits 8.3. */
  method WriteThenFetch(fs: FileSystem, data: seq<u8>, fname: Bytes, attrs: u8, entry: array<u8>)
    returns (ok: bool, name: Bytes, file: array?<u8>)
    requires fs.Valid() && fs.fat as object != fs.disk && |data| < TOP && NoNul(fname)
    requires entry.Length == ENTRY_SIZE && entry as object != fs.fat && entry as object != fs.disk
    requires attrs != LFN && (fname != [] ==> fname[0] != DELETED)
    modifies fs, fs.fat, fs.disk, entry
    ensures fs.Valid() && (ok <==> ClustersFor(|data|, fs.clusterSize) <= FreeCount(old(fs.fat[..])))
    ensures ok ==> file != null && fresh(file) && file[..] == data
    ensures ok ==> name == Decode(Encode(fname)) && (Fits(fname) <==> name == UpperAll(fname))
  {
    hide Stored, WellFormed, ClustersFor, FreeCount, Encode, Decode;
    var first;
    ok, first := WriteFile(fs, data, fname, attrs, 0, entry);
    if !ok {
      return false, [], null;
    }
    name, file := FetchFile(fs, entry);
    NameComesBackIff(fname);
  }
}
