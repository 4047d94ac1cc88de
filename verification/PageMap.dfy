/** The packed page map: two bits a page, four pages a byte, most significant bits first. */
module PageMap {
  import opened Machine
  import opened PageTable

  const PAGES_PER_BYTE := 4

  function Code(st: PageState): (r: bv8)
    ensures r <= 3
  {
    match st
    case PFree => 0
    case PUsed => 1
    case PSys => 2
    case PNone => 3
  }

  function Decode(code: bv8): PageState
  {
    if code == 0 then PFree else if code == 1 then PUsed else if code == 2 then PSys else PNone
  }

  /** The two bits of page `part` of a byte. */
  function Field(byte: bv8, part: nat): bv8
    requires part < PAGES_PER_BYTE
  {
    match part
    case 0 => (byte & 0xC0) >> 6
    case 1 => (byte & 0x30) >> 4
    case 2 => (byte & 0x0C) >> 2
    case _ => byte & 0x03
  }

  function WithField(byte: bv8, part: nat, code: bv8): bv8
    requires part < PAGES_PER_BYTE
  {
    match part
    case 0 => (byte & 0x3F) | (code << 6)
    case 1 => (byte & 0xCF) | (code << 4)
    case 2 => (byte & 0xF3) | (code << 2)
    case _ => (byte & 0xFC) | code
  }

  /** Writing one field of a byte is read back from that field and seen in no other. */
  lemma FieldOfWithField(byte: bv8, part: nat, code: bv8, q: nat)
    requires part < PAGES_PER_BYTE && q < PAGES_PER_BYTE && code <= 3
    ensures Field(WithField(byte, part, code), q) == if q == part then code else Field(byte, q)
  {
    if part == 0 { FieldOfPart(byte, 0, code, q); }
    else if part == 1 { FieldOfPart(byte, 1, code, q); }
    else if part == 2 { FieldOfPart(byte, 2, code, q); }
    else { FieldOfPart(byte, 3, code, q); }
  }

  lemma FieldOfPart(byte: bv8, part: nat, code: bv8, q: nat)
    requires part < PAGES_PER_BYTE && q < PAGES_PER_BYTE && code <= 3
    ensures Field(WithField(byte, part, code), q) == if q == part then code else Field(byte, q)
  {
    match q
    case 0 =>
    case 1 =>
    case 2 =>
    case _ =>
  }

  lemma FieldIsCode(byte: bv8, part: nat)
    requires part < PAGES_PER_BYTE
    ensures Field(byte, part) <= 3 && Code(Decode(Field(byte, part))) == Field(byte, part)
  {
  }

  function Mask(part: nat): bv8
    requires part < PAGES_PER_BYTE
  {
    match part
    case 0 => 0xC0
    case 1 => 0x30
    case 2 => 0x0C
    case _ => 0x03
  }

  lemma MaskShift(part: nat)
    requires part < PAGES_PER_BYTE
    ensures (0xC0 as bv8) >> (part * 2) == Mask(part)
  {
  }

  // The shifts the code computes from `part` read and write the field of that part.
  lemma FieldShifts(byte: bv8, part: nat, code: bv8)
    requires part < PAGES_PER_BYTE && code <= 3
    ensures (byte & Mask(part)) >> ((3 - part) * 2) == Field(byte, part)
    ensures (byte & !Mask(part)) | (code << ((3 - part) * 2)) == WithField(byte, part, code)
  {
  }

  /** The page states a byte sequence stands for. */
  function Unpack(bytes: seq<bv8>): (r: seq<PageState>)
  {
    seq(|bytes| * PAGES_PER_BYTE, i requires 0 <= i < |bytes| * PAGES_PER_BYTE =>
      Decode(Field(bytes[i / PAGES_PER_BYTE], i % PAGES_PER_BYTE)))
  }

  /** Writing the bits of one page changes that page and no other. */
  lemma UnpackUpdate(bytes: seq<bv8>, index: nat, st: PageState)
    requires index < |bytes| * PAGES_PER_BYTE
    ensures var b := index / PAGES_PER_BYTE;
            Unpack(bytes[b := WithField(bytes[b], index % PAGES_PER_BYTE, Code(st))]) == Unpack(bytes)[index := st]
  {
    var b, part := index / PAGES_PER_BYTE, index % PAGES_PER_BYTE;
    var after := bytes[b := WithField(bytes[b], part, Code(st))];
    forall i | 0 <= i < |bytes| * PAGES_PER_BYTE
      ensures Unpack(after)[i] == Unpack(bytes)[index := st][i]
    {
      if i / PAGES_PER_BYTE == b {
        FieldOfWithField(bytes[b], part, Code(st), i % PAGES_PER_BYTE);
      }
    }
  }

  /** Where the four pages of a byte are in it, and the numbers their states have there: the first
      page has the two highest bits. */
  lemma {:induction false} MapByte(bytes: seq<bv8>, b: nat)
    requires b < |bytes|
    ensures var pages, byte := Unpack(bytes), bytes[b];
            && (pages[4 * b] == PFree <==> byte & 0xC0 == 0x00) && (pages[4 * b] == PUsed <==> byte & 0xC0 == 0x40)
            && (pages[4 * b] == PSys <==> byte & 0xC0 == 0x80) && (pages[4 * b] == PNone <==> byte & 0xC0 == 0xC0)
            && (pages[4 * b + 1] == PFree <==> byte & 0x30 == 0x00) &&
              (pages[4 * b + 1] == PUsed <==> byte & 0x30 == 0x10)
            && (pages[4 * b + 1] == PSys <==> byte & 0x30 == 0x20) &&
              (pages[4 * b + 1] == PNone <==> byte & 0x30 == 0x30)
            && (pages[4 * b + 2] == PFree <==> byte & 0x0C == 0x00) &&
              (pages[4 * b + 2] == PUsed <==> byte & 0x0C == 0x04)
            && (pages[4 * b + 2] == PSys <==> byte & 0x0C == 0x08) &&
              (pages[4 * b + 2] == PNone <==> byte & 0x0C == 0x0C)
            && (pages[4 * b + 3] == PFree <==> byte & 0x03 == 0x00) &&
              (pages[4 * b + 3] == PUsed <==> byte & 0x03 == 0x01)
            && (pages[4 * b + 3] == PSys <==> byte & 0x03 == 0x02) &&
              (pages[4 * b + 3] == PNone <==> byte & 0x03 == 0x03)
  {
    var pages := Unpack(bytes);
    assert pages[4 * b] == Decode(Field(bytes[b], 0)) && pages[4 * b + 1] == Decode(Field(bytes[b], 1));
    assert pages[4 * b + 2] == Decode(Field(bytes[b], 2)) && pages[4 * b + 3] == Decode(Field(bytes[b], 3));
    hide Unpack;
    ByteFields(bytes[b]);
  }

  lemma ByteFields(byte: bv8)
    ensures (Field(byte, 0) == 0 <==> byte & 0xC0 == 0x00) && (Field(byte, 0) == 1 <==> byte & 0xC0 == 0x40)
    ensures Field(byte, 0) == 2 <==> byte & 0xC0 == 0x80
    ensures (Field(byte, 1) == 0 <==> byte & 0x30 == 0x00) && (Field(byte, 1) == 1 <==> byte & 0x30 == 0x10)
    ensures Field(byte, 1) == 2 <==> byte & 0x30 == 0x20
    ensures (Field(byte, 2) == 0 <==> byte & 0x0C == 0x00) && (Field(byte, 2) == 1 <==> byte & 0x0C == 0x04)
    ensures Field(byte, 2) == 2 <==> byte & 0x0C == 0x08
    ensures (Field(byte, 3) == 0 <==> byte & 0x03 == 0x00) && (Field(byte, 3) == 1 <==> byte & 0x03 == 0x01)
    ensures Field(byte, 3) == 2 <==> byte & 0x03 == 0x02
  {
  }

  /** Four pages in the same state that share a byte. */
  lemma {:induction false} SameByte(bytes: seq<bv8>, b: nat, st: PageState)
    requires b < |bytes| && forall i :: 4 * b <= i < 4 * b + 4 ==> Unpack(bytes)[i] == st
    ensures bytes[b] == match st case PFree => 0x00 case PUsed => 0x55 case PSys => 0xAA case PNone => 0xFF
  {
    MapByte(bytes, b);
    hide Unpack;
    var pages := Unpack(bytes);
    assert pages[4 * b] == st && pages[4 * b + 1] == st && pages[4 * b + 2] == st && pages[4 * b + 3] == st;
    AllFields(bytes[b]);
  }

  lemma AllFields(byte: bv8)
    ensures byte & 0xC0 == 0x00 && byte & 0x30 == 0x00 && byte & 0x0C == 0x00 && byte & 0x03 == 0x00 ==> byte == 0x00
    ensures byte & 0xC0 == 0x40 && byte & 0x30 == 0x10 && byte & 0x0C == 0x04 && byte & 0x03 == 0x01 ==> byte == 0x55
    ensures byte & 0xC0 == 0x80 && byte & 0x30 == 0x20 && byte & 0x0C == 0x08 && byte & 0x03 == 0x02 ==> byte == 0xAA
    ensures byte & 0xC0 == 0xC0 && byte & 0x30 == 0x30 && byte & 0x0C == 0x0C && byte & 0x03 == 0x03 ==> byte == 0xFF
  {
  }

  /** One entry of the multiboot memory map; address and length are 64-bit there. */
  datatype MapEntry = MapEntry(addr: nat, len: nat, available: bool)

  /** The entry is for memory that is not there, and its range, cut to 32 bits, includes page p. */
  predicate Covers(e: MapEntry, p: nat)
  {
    !e.available && Wrap(e.addr) / PAGE_SIZE <= p < Wrap(Wrap(e.addr) + Wrap(e.len)) / PAGE_SIZE
  }

  /** What page p is after the first n entries of the memory map: absent where one of them says
      so, else kernel memory in the low 4 MB, else free. */
  ghost function BootState(entries: seq<MapEntry>, n: nat, p: nat): PageState
    requires n <= |entries|
  {
    if exists i :: 0 <= i < n && Covers(entries[i], p) then PNone
    else if p < HEAP_START / PAGE_SIZE then PSys
    else PFree
  }

  lemma {:induction false} BootPages(entries: seq<MapEntry>, pages: seq<PageState>)
    requires |pages| == PAGE_COUNT
    requires forall p :: 0 <= p < PAGE_COUNT ==> pages[p] == BootState(entries, |entries|, p)
    ensures forall p, i :: 0 <= p < PAGE_COUNT && 0 <= i < |entries| && !entries[i].available
              && Wrap(entries[i].addr) / PAGE_SIZE <= p < Wrap(Wrap(entries[i].addr) + Wrap(entries[i].len)) / PAGE_SIZE
              ==> pages[p] == PNone
    ensures forall p :: 0 <= p < PAGE_COUNT && pages[p] == PNone ==>
              exists i :: 0 <= i < |entries| && !entries[i].available
                && Wrap(entries[i].addr) / PAGE_SIZE <= p < Wrap(Wrap(entries[i].addr) +
                                                                 Wrap(entries[i].len)) / PAGE_SIZE
    ensures forall p :: 0 <= p < PAGE_COUNT && pages[p] != PNone ==>
              pages[p] == if p < HEAP_START / PAGE_SIZE then PSys else PFree
    ensures pages[PAGE_COUNT - 1] == PFree
  {
    assert forall i :: 0 <= i < |entries| ==> !Covers(entries[i], PAGE_COUNT - 1);
    forall p, i | 0 <= p < PAGE_COUNT && 0 <= i < |entries| && !entries[i].available
      && Wrap(entries[i].addr) / PAGE_SIZE <= p < Wrap(Wrap(entries[i].addr) + Wrap(entries[i].len)) / PAGE_SIZE
      ensures pages[p] == PNone
    {
      assert Covers(entries[i], p);
    }
  }

  lemma {:induction false} SysBytes(bytes: seq<bv8>)
    ensures forall b :: 0 <= b < |bytes| && (forall p :: 4 * b <= p < 4 * b + 4 ==> Unpack(bytes)[p] == PSys)
              ==> bytes[b] == 0xAA
  {
    forall b | 0 <= b < |bytes| && (forall p :: 4 * b <= p < 4 * b + 4 ==> Unpack(bytes)[p] == PSys)
      ensures bytes[b] == 0xAA
    {
      SameByte(bytes, b, PSys);
    }
  }

  class PageMap {
    const memoryMap: array<bv8>

    ghost predicate Valid()
    {
      memoryMap.Length == PAGE_COUNT / PAGES_PER_BYTE
    }

    ghost function Pages(): (r: seq<PageState>)
      reads memoryMap
      ensures Valid() ==> |r| == PAGE_COUNT
    {
      Unpack(memoryMap[..])
    }

    /** paging_initialize. No page is used yet, none below HEAP_START can be claimed, and the last
        page is free whatever the entries say: no range that page_set_range is given reaches it. */
    constructor (entries: seq<MapEntry>)
      ensures Valid() && fresh(memoryMap)
      ensures forall p :: 0 <= p < PAGE_COUNT ==> Pages()[p] == BootState(entries, |entries|, p)
      ensures forall p, i :: 0 <= p < PAGE_COUNT && 0 <= i < |entries| && !entries[i].available
                && Wrap(entries[i].addr) / PAGE_SIZE <= p < Wrap(Wrap(entries[i].addr) +
                                                                 Wrap(entries[i].len)) / PAGE_SIZE
                ==> Pages()[p] == PNone
      ensures forall p :: 0 <= p < PAGE_COUNT && Pages()[p] == PNone ==>
                exists i :: 0 <= i < |entries| && !entries[i].available
                  && Wrap(entries[i].addr) / PAGE_SIZE <= p < Wrap(Wrap(entries[i].addr) +
                                                                   Wrap(entries[i].len)) / PAGE_SIZE
      ensures forall p :: 0 <= p < PAGE_COUNT && Pages()[p] != PNone ==>
                Pages()[p] == if p < HEAP_START / PAGE_SIZE then PSys else PFree
      ensures forall b :: 0 <= b < memoryMap.Length && (forall p :: 4 * b <= p < 4 * b + 4 ==> Pages()[p] == PSys)
                ==> memoryMap[b] == 0xAA
      ensures Pages()[PAGE_COUNT - 1] == PFree
    {
      memoryMap := new bv8[PAGE_COUNT / PAGES_PER_BYTE](_ => 0);
      new;
      SetRange(0, 0xFFFF_FFFF, PFree);
      SetRange(0, HEAP_START, PSys);
      hide Unpack;
      var i := 0;
      while i < |entries|
        invariant 0 <= i <= |entries| && Valid() && fresh(memoryMap)
        invariant forall p :: 0 <= p < PAGE_COUNT ==> Pages()[p] == BootState(entries, i, p)
      {
        if !entries[i].available {
          SetRange(Wrap(entries[i].addr), Wrap(entries[i].len), PNone);
        }
        i := i + 1;
      }
      BootPages(entries, Pages());
      SysBytes(memoryMap[..]);
    }

    /** ok is false where the kernel panics over the page number. */
    method SetWithIndex(index: u32, st: PageState) returns (ok: bool)
      requires Valid()
      modifies memoryMap
      ensures ok <==> index < PAGE_COUNT
      ensures Pages() == if index < PAGE_COUNT then old(Pages())[index := st] else old(Pages())
    {
      if index >= PAGE_COUNT {
        return false;
      }
      hide Unpack, WithField;
      var byte := index / PAGES_PER_BYTE;
      ghost var before := memoryMap[..];
      var stored := StoreBits(memoryMap[byte], index % PAGES_PER_BYTE, Code(st));
      memoryMap[byte] := stored;
      UnpackUpdate(before, index, st);
      assert memoryMap[..] == before[byte := stored];
      return true;
    }

    /** The masking and shifting of page_set_with_index. */
    static method StoreBits(byte: bv8, part: nat, state: bv8) returns (stored: bv8)
      requires part < PAGES_PER_BYTE && state <= 3
      ensures stored == WithField(byte, part, state)
    {
      hide WithField, Mask;
      MaskShift(part);
      FieldShifts(byte, part, state);
      var mask: bv8 := 0xC0 >> (part * 2);
      var cleared := byte & !mask;
      var newState := state << ((3 - part) * 2);
      stored := cleared | newState;
    }

    method GetAtIndex(index: u32) returns (r: Option<bv8>)
      requires Valid()
      ensures r == if index < PAGE_COUNT then Some(Code(Pages()[index])) else None
      ensures index < PAGE_COUNT ==>
                r.value == match Pages()[index] case PFree => 0 case PUsed => 1 case PSys => 2 case PNone => 3
    {
      if index >= PAGE_COUNT {
        return None;
      }
      var byte := index / PAGES_PER_BYTE;
      var part := index % PAGES_PER_BYTE;
      MaskShift(part);
      FieldShifts(memoryMap[byte], part, 0);
      FieldIsCode(memoryMap[byte], part);
      var mask: bv8 := 0xC0 >> (part * 2);
      var result := memoryMap[byte] & mask;
      return Some(result >> ((3 - part) * 2));
    }

    /** Sets the pages from the one holding the start up to, not including, the one holding the
        end, which is computed in 32 bits. */
    method SetRange(addrStart: u32, len: u32, st: PageState)
      requires Valid()
      modifies memoryMap
      ensures Pages() == SetPages(old(Pages()), addrStart / PAGE_SIZE, Wrap(addrStart + len) / PAGE_SIZE, st)
    {
      var addrEnd := Wrap(addrStart + len);
      var first := addrStart / PAGE_SIZE;
      var last := addrEnd / PAGE_SIZE;
      ghost var start, before := first, Pages();
      while first < last
        invariant start <= first && (first <= last || first == start)
        invariant Pages() == SetPages(before, start, first, st)
      {
        var ok := SetWithIndex(first, st);
        assert SetPages(before, start, first, st)[first := st] == SetPages(before, start, first + 1, st);
        first := first + 1;
      }
      assert first == start ==> SetPages(before, start, first, st) == SetPages(before, start, last, st);
    }

    /** The lowest run of `count` free pages becomes used; None is the kernel panic, which is
        reached exactly when there is no such run. */
    method Claim(count: u32) returns (r: Option<u32>)
      requires Valid()
      modifies memoryMap
      ensures match FindRun(old(Pages()), count, 0)
              case None => r == None && Pages() == old(Pages())
              case Some(i) => r == Some(i * PAGE_SIZE) && Pages() == SetPages(old(Pages()), i, i + count, PUsed)
      ensures r.Some? ==>
                forall b :: 0 <= b < memoryMap.Length && r.value / PAGE_SIZE <= 4 * b <= r.value / PAGE_SIZE + count - 4
                  ==> memoryMap[b] == 0x55
    {
      hide Unpack, SetPages, FindRun;
      var i := 0;
      ghost var before := Pages();
      while i <= Wrap(PAGE_COUNT - count)
        invariant 0 <= i <= PAGE_COUNT + 1 && (count > PAGE_COUNT ==> i <= PAGE_COUNT)
        invariant Pages() == before
        invariant forall k :: 0 <= k < i ==> !RunFree(before, k, count)
        decreases PAGE_COUNT + 1 - i
      {
        var found := true;
        var j := 0;
        while j < count
          invariant 0 <= j <= count && found && i + j <= PAGE_COUNT
          invariant Pages() == before
          invariant forall k :: i <= k < i + j ==> before[k] == PFree
        {
          var state := GetAtIndex(Wrap(i + j));
          if state == None {
            NoRunFrom(before, count, i);
            return None;
          }
          if state.value != 0 {
            assert before[i + j] != PFree && !RunFree(before, i, count);
            found := false;
            break;
          }
          j := j + 1;
        }
        if found {
          assert RunFree(before, i, count) && (i > 0 ==> !RunFree(before, 0, count));
          j := 0;
          while j < count
            invariant 0 <= j <= count
            invariant Pages() == SetPages(before, i, i + j, PUsed)
          {
            var ok := SetWithIndex(i + j, PUsed);
            assert SetPages(before, i, i + j, PUsed)[i + j := PUsed] == SetPages(before, i, i + j + 1, PUsed);
            j := j + 1;
          }
          forall b | 0 <= b < memoryMap.Length && i <= 4 * b <= i + count - 4 ensures memoryMap[b] == 0x55 {
            SameByte(memoryMap[..], b, PUsed);
          }
          return Some(i * PAGE_SIZE);
        }
        i := i + 1;
      }
      return None;
    }
  }

  // A run that reaches the end of the map rules out every later start.
  lemma NoRunFrom(pages: seq<PageState>, c: nat, i: nat)
    requires |pages| < i + c && forall k :: 0 <= k < i ==> !RunFree(pages, k, c)
    ensures FindRun(pages, c, 0) == None
  {
  }
}
