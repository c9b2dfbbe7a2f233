/**
  Loading and relocating an ELF object (source/app/elf_loader.c): sections copied into
  the image, then R_386_32 and R_386_PC32 fields patched in place.
 */
module ElfLoader {
  import opened Basics
  import opened ElfLayout

  // ----------------------------------------------------------------
  // Section contents
  // ----------------------------------------------------------------

  predicate HasContents(s: Section) {
    s.alloc && s.kind != NOBITS
  }

  /** image with data at offset o. */
  function Overlay(image: Bytes, o: nat, data: Bytes): (r: Bytes)
    requires o + |data| <= |image|
    ensures |r| == |image|
  {
    image[..o] + data + image[o + |data|..]
  }

  /** The image after the sections below n have been copied. */
  function Loaded(file: Bytes, ss: seq<Section>, l: Layout, n: nat): (r: Bytes)
    requires WellPlaced(ss, l, |file|) && n <= |ss|
    ensures |r| == l.size
  {
    if n == 0 then Zeros(l.size) else
      var before := Loaded(file, ss, l, n - 1);
      if !HasContents(ss[n - 1]) then before else
        assert SectionPlaced(ss[n - 1], l, n - 1, |file|);
        Overlay(before, l.offsets[n - 1], file[ss[n - 1].offset..ss[n - 1].offset + ss[n - 1].size])
  }

  lemma OverlayByte(image: Bytes, o: nat, data: Bytes, x: nat)
    requires o + |data| <= |image| && x < |image|
    ensures Overlay(image, o, data)[x] == if o <= x < o + |data| then data[x - o] else image[x]
  {
  }

  /** Section i reaches to byte k, the k-th of its own; sections do not overlap. */
  lemma Elsewhere(ss: seq<Section>, l: Layout, i: nat, j: nat, k: nat, fileSize: nat)
    requires WellPlaced(ss, l, fileSize) && i < |ss| && j < |ss| && i != j && ss[i].alloc && ss[j].alloc && k < ss[i].size
    ensures SectionPlaced(ss[i], l, i, fileSize) && SectionPlaced(ss[j], l, j, fileSize)
    ensures l.offsets[i] + k < l.offsets[j] || l.offsets[j] + ss[j].size <= l.offsets[i] + k
  {
    assert SectionPlaced(ss[i], l, i, fileSize) && SectionPlaced(ss[j], l, j, fileSize);
    assert if i < j then Ordered(ss, l, i, j) else Ordered(ss, l, j, i);
  }

  /** What byte k of an allocated section holds: its file byte, or zero for a NOBITS section. */
  function SectionByte(file: Bytes, s: Section, k: nat): byte
    requires k < s.size && (s.kind != NOBITS ==> s.offset + s.size <= |file|)
  {
    if s.kind != NOBITS then file[s.offset + k] else 0
  }

  /** Every section is in its place, byte by byte, once it has been copied; zeros before that. */
  lemma {:induction false} ByteLoaded(file: Bytes, ss: seq<Section>, l: Layout, n: nat, i: nat, k: nat)
    requires WellPlaced(ss, l, |file|) && n <= |ss| && i < |ss| && ss[i].alloc && k < ss[i].size
    ensures SectionPlaced(ss[i], l, i, |file|)
    ensures Loaded(file, ss, l, n)[l.offsets[i] + k] == if i < n then SectionByte(file, ss[i], k) else 0
  {
    assert SectionPlaced(ss[i], l, i, |file|);
    if n > 0 {
      ByteLoaded(file, ss, l, n - 1, i, k);
      ByteCopied(file, ss, l, n - 1, i, k);
    }
  }

  /** What copying section n does to byte k of section i. */
  lemma ByteCopied(file: Bytes, ss: seq<Section>, l: Layout, n: nat, i: nat, k: nat)
    requires WellPlaced(ss, l, |file|) && n < |ss| && i < |ss| && ss[i].alloc && k < ss[i].size
    requires SectionPlaced(ss[i], l, i, |file|)
    ensures Loaded(file, ss, l, n + 1)[l.offsets[i] + k]
            == if i == n && ss[i].kind != NOBITS then SectionByte(file, ss[i], k) else Loaded(file, ss, l, n)[l.offsets[i] + k]
  {
    var s := ss[n];
    if HasContents(s) {
      assert SectionPlaced(s, l, n, |file|);
      OverlayByte(Loaded(file, ss, l, n), l.offsets[n], file[s.offset..s.offset + s.size], l.offsets[i] + k);
      if i != n {
        Elsewhere(ss, l, i, n, k, |file|);
      }
    }
  }

  lemma OverlayAt(image: Bytes, o: nat, data: Bytes)
    requires o + |data| <= |image|
    ensures Overlay(image, o, data)[o..o + |data|] == data
  {
  }

  method CopyInto(image: array<byte>, o: nat, data: Bytes)
    requires o + |data| <= image.Length
    modifies image
    ensures image[..] == Overlay(old(image[..]), o, data)
  {
    var k := 0;
    while k < |data|
      invariant k <= |data|
      invariant forall x :: 0 <= x < image.Length ==> image[x] == if o <= x < o + k then data[x - o] else old(image[x])
    {
      image[o + k] := data[k];
      k := k + 1;
    }
  }

  /** root_memzero of the image, then the copy loop. */
  method LoadSections(file: Bytes, ss: seq<Section>, l: Layout) returns (image: array<byte>)
    requires WellPlaced(ss, l, |file|)
    ensures fresh(image) && image[..] == Loaded(file, ss, l, |ss|)
  {
    image := new byte[l.size](_ => 0);
    assert image[..] == Zeros(l.size);
    var i := 0;
    while i < |ss|
      invariant i <= |ss| && image[..] == Loaded(file, ss, l, i)
    {
      if ss[i].alloc {
        assert SectionPlaced(ss[i], l, i, |file|);
        if ss[i].kind != NOBITS {
          CopyInto(image, l.offsets[i], file[ss[i].offset..ss[i].offset + ss[i].size]);
        }
      }
      i := i + 1;
    }
  }

  // ----------------------------------------------------------------
  // Symbols
  // ----------------------------------------------------------------

  /** Where a symbol points: a fixed address, or an offset into the image. */
  datatype Target = Absolute(address: nat) | InImage(offset: nat)

  function TargetAddress(t: Target, base: nat): nat {
    match t
    case Absolute(address) => address % TWO32
    case InImage(offset) => (base + offset) % TWO32
  }

  /** symbol_runtime_address, before the base is known. */
  function SymbolTarget(value: nat, index: nat, ss: seq<Section>, l: Layout): Option<Target>
    requires |l.offsets| == |ss|
  {
    if index == 0xFFF1 then Some(Absolute(value)) else
    if index == 0 || index == 0xFFF2 || index >= |ss| || !ss[index].alloc then None else
    if value > ss[index].size then None else
    Some(InImage(l.offsets[index] + value))
  }

  /** The symbol table: file bytes from offset on, 16 bytes an entry. */
  datatype Symbols = Symbols(section: nat, offset: nat, count: nat)

  predicate SymtabValid(ss: seq<Section>, i: nat, fileSize: nat)
    requires i < |ss|
  {
    && ss[i].entry == 16 && ss[i].link < |ss| && ss[ss[i].link].kind == STRTAB
    && RangeValid(ss[i].offset, ss[i].size, fileSize)
    && RangeValid(ss[ss[i].link].offset, ss[ss[i].link].size, fileSize)
  }

  /** The first symbol table from section i on. */
  function FindSymbols(ss: seq<Section>, fileSize: nat, i: nat): (r: Result<Symbols>)
    requires i <= |ss|
    ensures r.Ok? ==> r.value.section < |ss| && r.value.count > 0 && r.value.offset + 16 * r.value.count <= fileSize
    decreases |ss| - i
  {
    if i == |ss| then Err(NoEntry) else
    if ss[i].kind != SYMTAB then FindSymbols(ss, fileSize, i + 1) else
    if !SymtabValid(ss, i, fileSize) then Err(BadFormat) else
    if ss[i].size / 16 == 0 then Err(NoEntry) else
    Ok(Symbols(i, ss[i].offset, ss[i].size / 16))
  }

  /** The first symbol table decides, whatever comes after it. */
  lemma {:induction false} FirstSymbols(ss: seq<Section>, fileSize: nat, i: nat, j: nat)
    requires i <= j <= |ss| && (forall k :: i <= k < j ==> ss[k].kind != SYMTAB) && (j < |ss| ==> ss[j].kind == SYMTAB)
    ensures FindSymbols(ss, fileSize, i) ==
            if j == |ss| then Err(NoEntry) else if !SymtabValid(ss, j, fileSize) then Err(BadFormat)
            else if ss[j].size < 16 then Err(NoEntry) else Ok(Symbols(j, ss[j].offset, ss[j].size / 16))
    decreases j - i
  {
    if i < j {
      FirstSymbols(ss, fileSize, i + 1, j);
    }
  }

  /** The search for the symbol table. */
  method FindSymbolTable(ss: seq<Section>, fileSize: nat) returns (r: Result<Symbols>)
    ensures r == FindSymbols(ss, fileSize, 0)
  {
    var i := 0;
    while i < |ss|
      invariant i <= |ss| && FindSymbols(ss, fileSize, i) == FindSymbols(ss, fileSize, 0)
    {
      if ss[i].kind == SYMTAB {
        if !SymtabValid(ss, i, fileSize) {
          return Err(BadFormat);
        }
        if ss[i].size / 16 == 0 {
          return Err(NoEntry);
        }
        return Ok(Symbols(i, ss[i].offset, ss[i].size / 16));
      }
      i := i + 1;
    }
    return Err(NoEntry);
  }

  // ----------------------------------------------------------------
  // Relocations
  // ----------------------------------------------------------------

  datatype Kind = Direct | PcRelative

  /** One field to patch: where in the image, how, and towards what. */
  datatype Patch = Patch(place: nat, kind: Kind, target: Target)

  /** What the field becomes: S + A, or S + A - P, in 32 bits. */
  function PatchValue(p: Patch, base: nat, addend: nat): (v: nat)
    ensures v < TWO32
  {
    match p.kind
    case Direct => (TargetAddress(p.target, base) + addend) % TWO32
    case PcRelative => (TargetAddress(p.target, base) + addend - (base + p.place)) % TWO32
  }

  function ApplyPatch(image: Bytes, p: Patch, base: nat): (r: Bytes)
    requires p.place + 4 <= |image|
    ensures |r| == |image|
  {
    Overlay(image, p.place, Le32(PatchValue(p, base, U32(image, p.place))))
  }

  ghost predicate InRange(patches: seq<Patch>, size: nat) {
    forall i :: 0 <= i < |patches| ==> patches[i].place + 4 <= size
  }

  function ApplyAll(image: Bytes, patches: seq<Patch>, base: nat): (r: Bytes)
    requires InRange(patches, |image|)
    ensures |r| == |image|
  {
    if patches == [] then image else
      var n := |patches| - 1;
      ApplyPatch(ApplyAll(image, patches[..n], base), patches[n], base)
  }

  datatype Step = Skip | Do(patch: Patch) | Fail(code: Code)

  /** What the object file asks for, given its headers and layout. */
  datatype Object = Object(file: Bytes, sections: seq<Section>, layout: Layout, symbols: Symbols)

  ghost predicate ObjectValid(o: Object) {
    && WellPlaced(o.sections, o.layout, |o.file|)
    && o.symbols.section < |o.sections| && o.symbols.offset + 16 * o.symbols.count <= |o.file|
  }

  /** The checks on relocation entry r of a section, and the patch it asks for. */
  function StepAt(o: Object, entry: nat, target: nat): (s: Step)
    requires ObjectValid(o) && entry + 8 <= |o.file| && target < |o.sections| && o.sections[target].alloc
    ensures s.Do? ==> s.patch.place + 4 <= o.layout.size
  {
    assert SectionPlaced(o.sections[target], o.layout, target, |o.file|);
    var offset, info, size := U32(o.file, entry), U32(o.file, entry + 4), o.sections[target].size;
    var index, kind := info / 256, info % 256;
    if index >= o.symbols.count || offset > size || size - offset < 4 then Fail(RelocationError) else
    if kind == 0 then Skip else
    var at := o.symbols.offset + 16 * index;
    match SymbolTarget(U32(o.file, at + 4), U16(o.file, at + 14), o.sections, o.layout)
    case None => Fail(RelocationError)
    case Some(t) =>
      if kind == 1 then Do(Patch(o.layout.offsets[target] + offset, Direct, t))
      else if kind == 2 then Do(Patch(o.layout.offsets[target] + offset, PcRelative, t))
      else Fail(Unsupported)
  }

  predicate RelocationsValid(o: Object, s: Section) {
    && s.entry == 8 && s.link == o.symbols.section
    && s.info < |o.sections| && o.sections[s.info].alloc
    && RangeValid(s.offset, s.size, |o.file|)
  }

  /** The patches so far, and one entry more. */
  function Extend(r: Result<seq<Patch>>, step: Step): Result<seq<Patch>> {
    match r
    case Err(code) => Err(code)
    case Ok(ps) =>
      match step
      case Skip => Ok(ps)
      case Do(p) => Ok(ps + [p])
      case Fail(code) => Err(code)
  }

  /** The patches of the first n entries of a relocation section. */
  function EntryPatches(o: Object, s: Section, n: nat): (r: Result<seq<Patch>>)
    requires ObjectValid(o) && RelocationsValid(o, s) && n <= s.size / 8
    ensures r.Ok? ==> InRange(r.value, o.layout.size)
  {
    if n == 0 then Ok([]) else
    Extend(EntryPatches(o, s, n - 1), StepAt(o, s.offset + 8 * (n - 1), s.info))
  }

  /** The patches of one section header: none unless it holds relocations. */
  function SectionPatches(o: Object, s: Section): (r: Result<seq<Patch>>)
    requires ObjectValid(o)
    ensures r.Ok? ==> InRange(r.value, o.layout.size)
  {
    if s.kind == RELA then Err(Unsupported) else
    if s.kind != REL then Ok([]) else
    if !RelocationsValid(o, s) then Err(RelocationError) else
    EntryPatches(o, s, s.size / 8)
  }

  /** All patches of the sections below n, in the order they are applied; they do not depend on the load address. */
  function Patches(o: Object, n: nat): (r: Result<seq<Patch>>)
    requires ObjectValid(o) && n <= |o.sections|
    ensures r.Ok? ==> InRange(r.value, o.layout.size)
  {
    if n == 0 then Ok([]) else
    match Patches(o, n - 1)
    case Ok(ps) =>
      (match SectionPatches(o, o.sections[n - 1])
       case Ok(qs) => Ok(ps + qs)
       case Err(code) => Err(code))
    case Err(code) => Err(code)
  }

  // ----------------------------------------------------------------
  // The relocation loop
  // ----------------------------------------------------------------

  /** What running into this result did: the patches applied to m gave m', or the failure was reported. */
  ghost predicate Relocated(r: Result<seq<Patch>>, failed: Option<Code>, m: Bytes, m': Bytes, base: nat) {
    match r
    case Ok(ps) => failed == None && InRange(ps, |m|) && m' == ApplyAll(m, ps, base)
    case Err(code) => failed == Some(code)
  }

  ghost predicate Stepped(step: Step, failed: Option<Code>, m: Bytes, m': Bytes, base: nat) {
    match step
    case Skip => failed == None && m' == m
    case Do(p) => failed == None && p.place + 4 <= |m| && m' == ApplyPatch(m, p, base)
    case Fail(code) => failed == Some(code)
  }

  /** *place = value */
  method StoreField(image: array<byte>, place: nat, v: nat)
    requires place + 4 <= image.Length && v < TWO32
    modifies image
    ensures image[..] == Overlay(old(image[..]), place, Le32(v))
  {
    image[place], image[place + 1], image[place + 2], image[place + 3] := v % 256, v / 256 % 256, v / 0x1_0000 % 256, v / 0x100_0000;
  }

  /** The body of the inner loop, for the entry at file offset `entry`. */
  method ApplyEntry(o: Object, entry: nat, target: nat, image: array<byte>, base: nat) returns (failed: Option<Code>)
    requires ObjectValid(o) && entry + 8 <= |o.file| && target < |o.sections| && o.sections[target].alloc
    requires image.Length == o.layout.size
    modifies image
    ensures Stepped(StepAt(o, entry, target), failed, old(image[..]), image[..], base)
  {
    var step := StepAt(o, entry, target);
    match step {
      case Skip =>
        return None;
      case Do(p) =>
        StoreField(image, p.place, PatchValue(p, base, U32(image[..], p.place)));
        return None;
      case Fail(code) =>
        return Some(code);
    }
  }

  method ApplySection(o: Object, s: Section, image: array<byte>, base: nat) returns (failed: Option<Code>)
    requires ObjectValid(o) && RelocationsValid(o, s) && image.Length == o.layout.size
    modifies image
    ensures Relocated(EntryPatches(o, s, s.size / 8), failed, old(image[..]), image[..], base)
  {
    var r := 0;
    while r < s.size / 8
      invariant r <= s.size / 8 && Relocated(EntryPatches(o, s, r), None, old(image[..]), image[..], base)
    {
      ghost var m := image[..];
      failed := ApplyEntry(o, s.offset + 8 * r, s.info, image, base);
      NextEntry(o, s, r, failed, old(image[..]), m, image[..], base);
      if failed.Some? {
        EntriesStuck(o, s, r + 1, s.size / 8);
        return;
      }
      r := r + 1;
    }
    return None;
  }

  lemma NextEntry(o: Object, s: Section, r: nat, failed: Option<Code>, m: Bytes, m1: Bytes, m2: Bytes, base: nat)
    requires ObjectValid(o) && RelocationsValid(o, s) && r < s.size / 8 && |m1| == o.layout.size
    requires Relocated(EntryPatches(o, s, r), None, m, m1, base)
    requires Stepped(StepAt(o, s.offset + 8 * r, s.info), failed, m1, m2, base)
    ensures Relocated(EntryPatches(o, s, r + 1), failed, m, m2, base)
  {
  }

  lemma {:induction false} EntriesStuck(o: Object, s: Section, n: nat, m: nat)
    requires ObjectValid(o) && RelocationsValid(o, s) && n <= m <= s.size / 8 && EntryPatches(o, s, n).Err?
    ensures EntryPatches(o, s, m) == EntryPatches(o, s, n)
    decreases m
  {
    if n < m {
      EntriesStuck(o, s, n, m - 1);
    }
  }

  lemma {:induction false} SectionsStuck(o: Object, n: nat)
    requires ObjectValid(o) && n <= |o.sections| && Patches(o, n).Err?
    ensures Patches(o, |o.sections|) == Patches(o, n)
    decreases |o.sections| - n
  {
    if n < |o.sections| {
      SectionsStuck(o, n + 1);
    }
  }

  lemma ApplyPush(image: Bytes, ps: seq<Patch>, p: Patch, base: nat)
    requires InRange(ps, |image|) && p.place + 4 <= |image|
    ensures ApplyAll(image, ps + [p], base) == ApplyPatch(ApplyAll(image, ps, base), p, base)
  {
  }

  lemma PushBoth(a: Bytes, ps: seq<Patch>, b: Bytes, qs: seq<Patch>, p: Patch, base: nat)
    requires InRange(ps, |a|) && InRange(qs, |b|) && p.place + 4 <= |a| == |b|
    requires ApplyAll(a, ps, base) == ApplyAll(b, qs, base)
    ensures ApplyAll(a, ps + [p], base) == ApplyAll(b, qs + [p], base)
  {
    ApplyPush(a, ps, p, base);
    ApplyPush(b, qs, p, base);
  }

  lemma LastOfAppend(ps: seq<Patch>, qs: seq<Patch>)
    requires qs != []
    ensures var n := |qs| - 1; qs == qs[..n] + [qs[n]] && ps + qs == (ps + qs[..n]) + [qs[n]]
  {
  }

  lemma {:induction false} ApplyAppend(image: Bytes, ps: seq<Patch>, qs: seq<Patch>, base: nat)
    requires InRange(ps, |image|) && InRange(qs, |image|)
    ensures ApplyAll(image, ps + qs, base) == ApplyAll(ApplyAll(image, ps, base), qs, base)
  {
    if qs == [] {
      assert ps + qs == ps;
    } else {
      var n := |qs| - 1;
      ApplyAppend(image, ps, qs[..n], base);
      LastOfAppend(ps, qs);
      PushBoth(image, ps + qs[..n], ApplyAll(image, ps, base), qs[..n], qs[n], base);
    }
  }

  /** One turn of the outer loop. */
  method RelocateFrom(o: Object, s: Section, image: array<byte>, base: nat) returns (failed: Option<Code>)
    requires ObjectValid(o) && image.Length == o.layout.size
    modifies image
    ensures Relocated(SectionPatches(o, s), failed, old(image[..]), image[..], base)
  {
    if s.kind == RELA {
      return Some(Unsupported);
    }
    if s.kind != REL {
      return None;
    }
    if !RelocationsValid(o, s) {
      return Some(RelocationError);
    }
    failed := ApplySection(o, s, image, base);
  }

  lemma NextSection(o: Object, n: nat, failed: Option<Code>, m: Bytes, m1: Bytes, m2: Bytes, base: nat)
    requires ObjectValid(o) && n < |o.sections|
    requires Relocated(Patches(o, n), None, m, m1, base)
    requires Relocated(SectionPatches(o, o.sections[n]), failed, m1, m2, base)
    ensures failed.None? ==> Relocated(Patches(o, n + 1), None, m, m2, base)
    ensures failed.Some? ==> Relocated(Patches(o, |o.sections|), failed, m, m2, base)
  {
    match SectionPatches(o, o.sections[n])
    case Ok(qs) => ApplyAppend(m, Patches(o, n).value, qs, base);
    case Err(code) => SectionsStuck(o, n + 1);
  }

  /** The sections below n are done, or an earlier one has failed for the whole object. */
  ghost predicate Progress(o: Object, n: nat, failed: Option<Code>, m: Bytes, m': Bytes, base: nat)
    requires ObjectValid(o) && n <= |o.sections|
  {
    Relocated(Patches(o, if failed.None? then n else |o.sections|), failed, m, m', base)
  }

  lemma Unstarted(o: Object, m: Bytes, base: nat)
    requires ObjectValid(o)
    ensures Progress(o, 0, None, m, m, base)
  {
  }

  method RelocateNext(o: Object, i: nat, image: array<byte>, base: nat, ghost m: Bytes) returns (failed: Option<Code>)
    requires ObjectValid(o) && image.Length == o.layout.size && i < |o.sections|
    requires Progress(o, i, None, m, image[..], base)
    modifies image
    ensures Progress(o, i + 1, failed, m, image[..], base)
  {
    failed := RelocateFrom(o, o.sections[i], image, base);
    NextSection(o, i, failed, m, old(image[..]), image[..], base);
  }

  /** The relocation loop of elf_loader_run, at load address base. */
  method Relocate(o: Object, image: array<byte>, base: nat) returns (failed: Option<Code>)
    requires ObjectValid(o) && image.Length == o.layout.size
    modifies image
    ensures Relocated(Patches(o, |o.sections|), failed, old(image[..]), image[..], base)
  {
    ghost var m := image[..];
    Unstarted(o, m, base);
    failed := None;
    var i := 0;
    while i < |o.sections| && failed.None?
      invariant i <= |o.sections| && Progress(o, i, failed, m, image[..], base)
    {
      failed := RelocateNext(o, i, image, base, m);
      i := i + 1;
    }
  }

  // ----------------------------------------------------------------
  // The loader
  // ----------------------------------------------------------------

  /** Headers, layout and symbol table of an acceptable file. */
  function Examine(file: Bytes): (r: Result<Object>)
    ensures r.Ok? ==> ObjectValid(r.value) && r.value.file == file && r.value.layout.size > 0
  {
    if !HeaderValid(file) then Err(BadFormat) else
    var ss := Sections(file);
    match LayOut(ss, |file|, |ss|)
    case Err(code) => Err(code)
    case Ok(l) =>
      LayoutPlaces(ss, |file|, |ss|);
      assert ss[..|ss|] == ss;
      if l.size == 0 then Err(BadFormat) else
      match FindSymbols(ss, |file|, 0)
      case Err(code) => Err(code)
      case Ok(symbols) => Ok(Object(file, ss, l, symbols))
  }

  /** The image the loader leaves at address base, for files it accepts; acceptance does not depend on base. */
  function LoadedAt(file: Bytes, base: nat): Result<Bytes> {
    match Examine(file)
    case Err(code) => Err(code)
    case Ok(o) =>
      match Patches(o, |o.sections|)
      case Err(code) => Err(code)
      case Ok(ps) => Ok(ApplyAll(Loaded(file, o.sections, o.layout, |o.sections|), ps, base))
  }

  /** elf_loader_run from the file in memory to the relocated image; raw is the address of the allocation. */
  method Load(file: Bytes, raw: nat) returns (r: Result<array<byte>>, base: nat)
    ensures r.Ok? ==> LoadedAt(file, base) == Ok(r.value[..])
    ensures r.Err? ==> LoadedAt(file, base) == Err(r.code)
    ensures r.Ok? ==> var l := Examine(file).value.layout;
                      l.alignment > 0 && base % l.alignment == 0 && raw <= base && base + l.size <= raw + (l.size + l.alignment)
  {
    base := 0;
    if !HeaderValid(file) {
      return Err(BadFormat), base;
    }
    var ss := Sections(file);
    var laid := LayOutSections(ss, |file|);
    if laid.Err? {
      return Err(laid.code), base;
    }
    var l := laid.value;
    LayoutPlaces(ss, |file|, |ss|);
    assert ss[..|ss|] == ss;
    if l.size == 0 {
      return Err(BadFormat), base;
    }
    base := AlignUp(raw, l.alignment);
    var image := LoadSections(file, ss, l);
    var found := FindSymbolTable(ss, |file|);
    if found.Err? {
      return Err(found.code), base;
    }
    var failed := Relocate(Object(file, ss, l, found.value), image, base);
    if failed.Some? {
      return Err(failed.value), base;
    }
    return Ok(image), base;
  }

  // ----------------------------------------------------------------
  // What relocation achieves
  // ----------------------------------------------------------------

  predicate Apart(p: Patch, q: Patch) {
    p.place + 4 <= q.place || q.place + 4 <= p.place
  }

  ghost predicate NoOverlap(ps: seq<Patch>) {
    forall i, j :: 0 <= i < j < |ps| ==> Apart(ps[i], ps[j])
  }

  /** Bytes outside every field stay as loaded. */
  lemma {:induction false} Untouched(image: Bytes, ps: seq<Patch>, base: nat, x: nat)
    requires InRange(ps, |image|) && x < |image|
    requires forall i :: 0 <= i < |ps| ==> x < ps[i].place || ps[i].place + 4 <= x
    ensures ApplyAll(image, ps, base)[x] == image[x]
  {
    if ps != [] {
      Untouched(image, ps[..|ps| - 1], base, x);
    }
  }

  lemma FieldUntouched(image: Bytes, ps: seq<Patch>, base: nat, p: Patch)
    requires InRange(ps, |image|) && p.place + 4 <= |image|
    requires forall i :: 0 <= i < |ps| ==> Apart(ps[i], p)
    ensures U32(ApplyAll(image, ps, base), p.place) == U32(image, p.place)
  {
    Untouched(image, ps, base, p.place);
    Untouched(image, ps, base, p.place + 1);
    Untouched(image, ps, base, p.place + 2);
    Untouched(image, ps, base, p.place + 3);
  }

  /** Every field ends as S + A or S + A - P with the addend A found in the object file, whatever the order. */
  lemma {:induction false} FinalField(image: Bytes, ps: seq<Patch>, base: nat, i: nat)
    requires InRange(ps, |image|) && NoOverlap(ps) && i < |ps|
    ensures U32(ApplyAll(image, ps, base), ps[i].place) == PatchValue(ps[i], base, U32(image, ps[i].place))
  {
    var n := |ps| - 1;
    if i == n {
      FieldUntouched(image, ps[..n], base, ps[n]);
      PatchedField(ApplyAll(image, ps[..n], base), ps[n], base);
    } else {
      FinalField(image, ps[..n], base, i);
      OtherField(ApplyAll(image, ps[..n], base), ps[n], base, ps[i]);
    }
  }

  lemma PatchedField(image: Bytes, p: Patch, base: nat)
    requires p.place + 4 <= |image|
    ensures U32(ApplyPatch(image, p, base), p.place) == PatchValue(p, base, U32(image, p.place))
  {
    var v := PatchValue(p, base, U32(image, p.place));
    OverlayAt(image, p.place, Le32(v));
    Le32Reads(ApplyPatch(image, p, base), p.place, v);
  }

  lemma OtherField(image: Bytes, p: Patch, base: nat, q: Patch)
    requires p.place + 4 <= |image| && q.place + 4 <= |image| && Apart(p, q)
    ensures U32(ApplyPatch(image, p, base), q.place) == U32(image, q.place)
  {
    var data := Le32(PatchValue(p, base, U32(image, p.place)));
    OverlayByte(image, p.place, data, q.place);
    OverlayByte(image, p.place, data, q.place + 1);
    OverlayByte(image, p.place, data, q.place + 2);
    OverlayByte(image, p.place, data, q.place + 3);
  }

  /** How many times the load address counts in a field. */
  function Weight(p: Patch): int {
    (if p.target.InImage? then 1 else 0) - (if p.kind.PcRelative? then 1 else 0)
  }

  /** f' is f plus w times d, modulo 2^32; equal if w is 0. */
  predicate ShiftedBy(f: nat, f': nat, w: int, d: int) {
    (f' - f - w * d) % TWO32 == 0 && (w == 0 ==> f' == f)
  }

  lemma ModInner(x: int, y: int)
    ensures (x % TWO32 + y) % TWO32 == (x + y) % TWO32
  {
  }

  lemma ModDifference(a: int, b: int)
    ensures (a % TWO32 - b % TWO32 - (a - b)) % TWO32 == 0
  {
  }

  /** The value of a field before it is cut to 32 bits. */
  function Unreduced(p: Patch, base: nat, addend: nat): int {
    (match p.target case Absolute(address) => address case InImage(offset) => base + offset)
    + addend - (if p.kind.PcRelative? then base + p.place else 0)
  }

  lemma ValueIs(p: Patch, base: nat, addend: nat)
    ensures PatchValue(p, base, addend) == Unreduced(p, base, addend) % TWO32
  {
    var s := match p.target case Absolute(address) => address case InImage(offset) => base + offset;
    ModInner(s, addend);
    ModInner(s, addend - (base + p.place));
  }

  lemma ValueShift(p: Patch, base: nat, base': nat, addend: nat)
    ensures ShiftedBy(PatchValue(p, base, addend), PatchValue(p, base', addend), Weight(p), base' - base)
  {
    ValueIs(p, base, addend);
    ValueIs(p, base', addend);
    UnreducedShift(p, base, base', addend);
    ModDifference(Unreduced(p, base', addend), Unreduced(p, base, addend));
  }

  lemma UnreducedShift(p: Patch, base: nat, base': nat, addend: nat)
    ensures Unreduced(p, base', addend) - Unreduced(p, base, addend) == Weight(p) * (base' - base)
  {
  }

  /**
    Loading the same object at another address: a field differs by exactly its weight times
    the distance, modulo 2^32. For a symbol in a section that is 0 for R_386_PC32 and the
    distance for R_386_32.
   */
  lemma BaseShift(image: Bytes, ps: seq<Patch>, base: nat, base': nat, i: nat)
    requires InRange(ps, |image|) && NoOverlap(ps) && i < |ps|
    ensures var f, f' := U32(ApplyAll(image, ps, base), ps[i].place), U32(ApplyAll(image, ps, base'), ps[i].place);
            ShiftedBy(f, f', Weight(ps[i]), base' - base)
  {
    FinalField(image, ps, base, i);
    FinalField(image, ps, base', i);
    ValueShift(ps[i], base, base', U32(image, ps[i].place));
  }

  /** Bytes that belong to no field are the same at every load address. */
  lemma {:induction false} BaseIndependent(image: Bytes, ps: seq<Patch>, base: nat, base': nat, x: nat)
    requires InRange(ps, |image|) && x < |image|
    requires forall i :: 0 <= i < |ps| ==> x < ps[i].place || ps[i].place + 4 <= x
    ensures ApplyAll(image, ps, base')[x] == ApplyAll(image, ps, base)[x]
  {
    Untouched(image, ps, base, x);
    Untouched(image, ps, base', x);
  }

  /**
    What an accepted file leaves in memory: every byte of an allocated section that belongs
    to no field is its file byte, or zero for a NOBITS section, at every load address.
   */
  lemma SectionInMemory(file: Bytes, base: nat, ps: seq<Patch>, i: nat, k: nat)
    requires Examine(file).Ok? && Patches(Examine(file).value, |Examine(file).value.sections|) == Ok(ps)
    requires var ss := Examine(file).value.sections; i < |ss| && ss[i].alloc && k < ss[i].size
    requires var x := Examine(file).value.layout.offsets[i] + k;
             forall j :: 0 <= j < |ps| ==> x < ps[j].place || ps[j].place + 4 <= x
    ensures var o, r := Examine(file).value, LoadedAt(file, base);
            && SectionPlaced(o.sections[i], o.layout, i, |file|) && r.Ok? && o.layout.offsets[i] + k < |r.value|
            && r.value[o.layout.offsets[i] + k] == SectionByte(file, o.sections[i], k)
  {
    var o := Examine(file).value;
    var n := |o.sections|;
    ByteLoaded(file, o.sections, o.layout, n, i, k);
    Untouched(Loaded(file, o.sections, o.layout, n), ps, base, o.layout.offsets[i] + k);
  }

  /** The same for whole files: acceptance does not depend on the load address, and the images differ only as said. */
  lemma PatchShift(file: Bytes, base: nat, base': nat, ps: seq<Patch>, i: nat)
    requires Examine(file).Ok? && Patches(Examine(file).value, |Examine(file).value.sections|) == Ok(ps)
    requires NoOverlap(ps) && i < |ps|
    ensures var r, r' := LoadedAt(file, base), LoadedAt(file, base');
            && r.Ok? && r'.Ok? && ps[i].place + 4 <= |r.value| == |r'.value|
            && ShiftedBy(U32(r.value, ps[i].place), U32(r'.value, ps[i].place), Weight(ps[i]), base' - base)
  {
    var o := Examine(file).value;
    BaseShift(Loaded(file, o.sections, o.layout, |o.sections|), ps, base, base', i);
  }
}
