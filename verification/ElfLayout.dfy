/**
  Relocatable ELF objects as the app loader reads them (source/app/elf_loader.c): file
  header, section headers, and the layout of the allocated sections in one image.
 */
module ElfLayout {
  import opened Basics

  /** The failures of RootElfResult that concern the object itself. */
  datatype Code = BadFormat | Unsupported | RelocationError | NoEntry

  datatype Result<T> = Ok(value: T) | Err(code: Code)

  const SYMTAB := 2
  const STRTAB := 3
  const RELA := 4
  const NOBITS := 8
  const REL := 9
  const MAX_SECTIONS := 96
  const MAX_IMAGE := 2 * 1024 * 1024
  const MAX_ALIGNMENT := 4096

  predicate RangeValid(offset: nat, amount: nat, total: nat) {
    offset <= total && amount <= total - offset
  }

  // ----------------------------------------------------------------
  // Headers
  // ----------------------------------------------------------------

  datatype Section = Section(kind: nat, alloc: bool, offset: nat, size: nat, link: nat, info: nat, align: nat, entry: nat)

  /** elf_header_valid */
  predicate HeaderValid(file: Bytes) {
    && |file| >= 52
    && file[0] == 0x7F && file[1] == 0x45 && file[2] == 0x4C && file[3] == 0x46   // 0x7F 'E' 'L' 'F'
    && file[4] == 1 && file[5] == 1 && file[6] == 1
    && U16(file, 16) == 1 && U16(file, 18) == 3 && U32(file, 20) == 1
    && U16(file, 40) == 52 && U16(file, 46) == 40
    && 0 < U16(file, 48) <= MAX_SECTIONS
    && RangeValid(U32(file, 32), U16(file, 48) * 40, |file|)
  }

  function SectionAt(file: Bytes, o: nat): Section
    requires o + 40 <= |file|
  {
    Section(U32(file, o + 4), U32(file, o + 8) / 2 % 2 == 1, U32(file, o + 16), U32(file, o + 20),
            U32(file, o + 24), U32(file, o + 28), U32(file, o + 32), U32(file, o + 36))
  }

  function Sections(file: Bytes): (ss: seq<Section>)
    requires HeaderValid(file)
    ensures 0 < |ss| <= MAX_SECTIONS
  {
    seq(U16(file, 48), i requires 0 <= i < U16(file, 48) => SectionAt(file, U32(file, 32) + 40 * i))
  }

  // ----------------------------------------------------------------
  // Alignment
  // ----------------------------------------------------------------

  predicate PowerOfTwo(n: nat) {
    n == 1 || (n > 1 && n % 2 == 0 && PowerOfTwo(n / 2))
  }

  /** align_up; the loader calls it for powers of two only, where masking is rounding down. */
  function AlignUp(value: nat, alignment: nat): (r: nat)
    ensures value <= r && (alignment > 0 ==> r % alignment == 0 && r < value + alignment)
  {
    if alignment <= 1 then value else
      RoundsUp(value, alignment);
      (value + alignment - 1) / alignment * alignment
  }

  lemma RoundsUp(value: nat, alignment: nat)
    requires alignment > 0
    ensures var r := (value + alignment - 1) / alignment * alignment;
            value <= r < value + alignment && r % alignment == 0
  {
  }

  lemma Quotient(x: nat, q: nat, n: nat)
    requires n > 0 && x == n * q
    ensures x % n == 0
  {
    Remainder(x, q, x / n, x % n, n);
  }

  lemma Remainder(x: nat, q: nat, q': nat, r: nat, n: nat)
    requires x == n * q && x == n * q' + r && r < n
    ensures r == 0
  {
    if q > q' {
      Larger(n, q, q');
    } else if q < q' {
      Larger(n, q', q);
    }
  }

  lemma Larger(n: nat, q: nat, q': nat)
    requires q > q'
    ensures n * q >= n * q' + n
  {
    var d := q - q' - 1;
    assert n * q == n * q' + n + n * d;
  }

  /** The smaller of two powers of two divides the larger. */
  lemma {:induction false} PowersDivide(a: nat, b: nat)
    requires PowerOfTwo(a) && PowerOfTwo(b) && a <= b
    ensures b % a == 0
  {
    if a > 1 {
      PowersDivide(a / 2, b / 2);
      var q := b / 2 / (a / 2);
      assert b / 2 == a / 2 * q;
      assert b == a * q;
      Quotient(b, q, a);
    }
  }

  // ----------------------------------------------------------------
  // Layout
  // ----------------------------------------------------------------

  /** Where each section goes; a section that is not allocated has offset 0 and no place. */
  datatype Layout = Layout(offsets: seq<nat>, size: nat, alignment: nat)

  function AlignmentOf(s: Section): nat {
    if s.align == 0 then 1 else s.align
  }

  /** One turn of the layout loop. */
  function Place(l: Layout, s: Section, fileSize: nat): Result<Layout> {
    if !s.alloc then Ok(l.(offsets := l.offsets + [0])) else
    var alignment := AlignmentOf(s);
    if !PowerOfTwo(alignment) || alignment > MAX_ALIGNMENT then Err(Unsupported) else
    var start := AlignUp(l.size, alignment);
    if s.size > MAX_IMAGE || start > MAX_IMAGE - s.size then Err(Unsupported) else
    if s.kind != NOBITS && !RangeValid(s.offset, s.size, fileSize) then Err(BadFormat) else
    Ok(Layout(l.offsets + [start], start + s.size, if alignment > l.alignment then alignment else l.alignment))
  }

  function LayOut(ss: seq<Section>, fileSize: nat, n: nat): Result<Layout>
    requires n <= |ss|
  {
    if n == 0 then Ok(Layout([], 0, 16)) else
    match LayOut(ss, fileSize, n - 1)
    case Ok(l) => Place(l, ss[n - 1], fileSize)
    case Err(code) => Err(code)
  }

  /** The layout loop of elf_loader_run. */
  method LayOutSections(ss: seq<Section>, fileSize: nat) returns (r: Result<Layout>)
    requires |ss| <= MAX_SECTIONS
    ensures r == LayOut(ss, fileSize, |ss|)
  {
    var offsets := new nat[MAX_SECTIONS](_ => 0);
    var size, alignment := 0, 16;
    var i := 0;
    while i < |ss|
      invariant i <= |ss| && size >= 0
      invariant LayOut(ss, fileSize, i) == Ok(Layout(offsets[..i], size, alignment))
      invariant forall j :: i <= j < MAX_SECTIONS ==> offsets[j] == 0
    {
      ghost var before := offsets[..i];
      var s := ss[i];
      if s.alloc {
        var a := if s.align == 0 then 1 else s.align;
        if !PowerOfTwo(a) || a > MAX_ALIGNMENT {
          Stuck(ss, fileSize, i + 1);
          return Err(Unsupported);
        }
        if a > alignment {
          alignment := a;
        }
        size := AlignUp(size, a);
        offsets[i] := size;
        if s.size > MAX_IMAGE || size > MAX_IMAGE - s.size {
          Stuck(ss, fileSize, i + 1);
          return Err(Unsupported);
        }
        size := size + s.size;
        if s.kind != NOBITS && !RangeValid(s.offset, s.size, fileSize) {
          Stuck(ss, fileSize, i + 1);
          return Err(BadFormat);
        }
      }
      assert offsets[..i + 1] == before + [offsets[i]];
      i := i + 1;
    }
    return Ok(Layout(offsets[..|ss|], size, alignment));
  }

  /** Once the loop has failed it stays failed. */
  lemma {:induction false} Stuck(ss: seq<Section>, fileSize: nat, n: nat)
    requires n <= |ss| && !LayOut(ss, fileSize, n).Ok?
    ensures LayOut(ss, fileSize, |ss|) == LayOut(ss, fileSize, n)
    decreases |ss| - n
  {
    if n < |ss| {
      Stuck(ss, fileSize, n + 1);
    }
  }

  /** Where the first n sections end when nothing is refused. */
  function End(ss: seq<Section>, n: nat): nat
    requires n <= |ss|
  {
    if n == 0 then 0 else
    if !ss[n - 1].alloc then End(ss, n - 1) else AlignUp(End(ss, n - 1), AlignmentOf(ss[n - 1])) + ss[n - 1].size
  }

  /** A section that can be placed so that it ends at byte `end` of the image. */
  predicate Placeable(s: Section, end: nat, fileSize: nat) {
    s.alloc ==>
      && s.align in {0, 1, 2, 4, 8, 16, 32, 64, 128, 256, 512, 1024, 2048, 4096} && end <= MAX_IMAGE
      && (s.kind == NOBITS || s.offset + s.size <= fileSize)
  }

  /** The powers of two the loader takes. */
  lemma SmallPowers(n: nat)
    requires n <= MAX_ALIGNMENT
    ensures PowerOfTwo(n) <==> n in {1, 2, 4, 8, 16, 32, 64, 128, 256, 512, 1024, 2048, 4096}
  {
    if n > 1 && n % 2 == 0 {
      SmallPowers(n / 2);
    }
  }

  lemma PlaceIff(l: Layout, s: Section, fileSize: nat)
    ensures var end := if s.alloc then AlignUp(l.size, AlignmentOf(s)) + s.size else l.size;
            && (Place(l, s, fileSize).Ok? <==> Placeable(s, end, fileSize))
            && (Place(l, s, fileSize).Ok? ==> Place(l, s, fileSize).value.size == end)
  {
    if s.alloc && AlignmentOf(s) <= MAX_ALIGNMENT {
      SmallPowers(AlignmentOf(s));
    }
  }

  /** A layout is refused exactly when some section cannot be placed; nothing is wasted but alignment. */
  lemma {:induction false} LayOutIff(ss: seq<Section>, fileSize: nat, n: nat)
    requires n <= |ss|
    ensures LayOut(ss, fileSize, n).Ok? <==> forall i :: 0 <= i < n ==> Placeable(ss[i], End(ss, i + 1), fileSize)
    ensures LayOut(ss, fileSize, n).Ok? ==> LayOut(ss, fileSize, n).value.size == End(ss, n)
  {
    if n > 0 {
      LayOutIff(ss, fileSize, n - 1);
      if LayOut(ss, fileSize, n - 1).Ok? {
        PlaceIff(LayOut(ss, fileSize, n - 1).value, ss[n - 1], fileSize);
      }
    }
  }

  /** What a layout of these sections promises: aligned, inside the image, in order and therefore disjoint. */
  ghost predicate WellPlaced(ss: seq<Section>, l: Layout, fileSize: nat) {
    && |l.offsets| == |ss| && l.size <= MAX_IMAGE && PowerOfTwo(l.alignment) && l.alignment <= MAX_ALIGNMENT
    && (forall i {:trigger SectionPlaced(ss[i], l, i, fileSize)} ::
          0 <= i < |ss| && ss[i].alloc ==> SectionPlaced(ss[i], l, i, fileSize))
    && forall i, j {:trigger Ordered(ss, l, i, j)} :: 0 <= i < j < |ss| ==> Ordered(ss, l, i, j)
  }

  predicate Ordered(ss: seq<Section>, l: Layout, i: nat, j: nat)
    requires i < |ss| && j < |ss| && |l.offsets| == |ss|
  {
    ss[i].alloc && ss[j].alloc ==> l.offsets[i] + ss[i].size <= l.offsets[j]
  }

  ghost predicate SectionPlaced(s: Section, l: Layout, i: nat, fileSize: nat)
    requires i < |l.offsets|
  {
    && PowerOfTwo(AlignmentOf(s)) && AlignmentOf(s) <= l.alignment
    && l.offsets[i] % AlignmentOf(s) == 0 && l.offsets[i] + s.size <= l.size
    && (s.kind != NOBITS ==> RangeValid(s.offset, s.size, fileSize))
  }

  lemma {:induction false} LayoutPlaces(ss: seq<Section>, fileSize: nat, n: nat)
    requires n <= |ss| && LayOut(ss, fileSize, n).Ok?
    ensures WellPlaced(ss[..n], LayOut(ss, fileSize, n).value, fileSize)
  {
    var l := LayOut(ss, fileSize, n).value;
    if n > 0 {
      var before := LayOut(ss, fileSize, n - 1).value;
      LayoutPlaces(ss, fileSize, n - 1);
      PlaceKeeps(ss[..n - 1], before, ss[n - 1], l, fileSize);
      assert ss[..n] == ss[..n - 1] + [ss[n - 1]];
    } else {
      assert PowerOfTwo(2) && PowerOfTwo(4) && PowerOfTwo(8) && PowerOfTwo(16);
    }
  }

  /** Each section ends where the sections so far end, so nothing lies between two of them but alignment. */
  lemma {:induction false} PlacedTightly(ss: seq<Section>, fileSize: nat, n: nat, i: nat)
    requires i < n <= |ss| && LayOut(ss, fileSize, n).Ok? && ss[i].alloc
    ensures var l := LayOut(ss, fileSize, n).value; i < |l.offsets| && l.offsets[i] + ss[i].size == End(ss, i + 1)
  {
    LayoutPlaces(ss, fileSize, n);
    LayoutPlaces(ss, fileSize, n - 1);
    LayOutIff(ss, fileSize, n - 1);
    if i < n - 1 {
      PlacedTightly(ss, fileSize, n - 1, i);
    }
  }

  lemma PlaceKeeps(ss: seq<Section>, l: Layout, s: Section, r: Layout, fileSize: nat)
    requires WellPlaced(ss, l, fileSize) && Place(l, s, fileSize) == Ok(r)
    ensures WellPlaced(ss + [s], r, fileSize)
  {
    var n, ts := |ss|, ss + [s];
    assert r.size >= l.size && r.alignment >= l.alignment;
    forall i | 0 <= i < |ts| && ts[i].alloc
      ensures SectionPlaced(ts[i], r, i, fileSize)
    {
      assert i < n ==> SectionPlaced(ss[i], l, i, fileSize);
    }
    forall i, j | 0 <= i < j < |ts|
      ensures Ordered(ts, r, i, j)
    {
      assert ss[i].alloc ==> SectionPlaced(ss[i], l, i, fileSize);
      assert j < n ==> Ordered(ss, l, i, j);
    }
  }

  /** At an aligned base every section address is aligned as its header asks. */
  lemma RuntimeAligned(ss: seq<Section>, l: Layout, fileSize: nat, base: nat, i: nat)
    requires WellPlaced(ss, l, fileSize) && base % l.alignment == 0 && i < |ss| && ss[i].alloc
    ensures l.alignment > 0 && (base + l.offsets[i]) % AlignmentOf(ss[i]) == 0
  {
    var a := AlignmentOf(ss[i]);
    assert SectionPlaced(ss[i], l, i, fileSize);
    PowersDivide(a, l.alignment);
    SumAligned(base, l.alignment, a, l.offsets[i]);
  }

  lemma SumAligned(base: nat, b: nat, a: nat, offset: nat)
    requires a > 0 && b > 0 && base % b == 0 && b % a == 0 && offset % a == 0
    ensures (base + offset) % a == 0
  {
    var q, p, t := base / b, b / a, offset / a;
    Distribute(a, p, q, t);
    Quotient(base + offset, p * q + t, a);
  }

  lemma Distribute(a: nat, p: nat, q: nat, t: nat)
    ensures a * p * q + a * t == a * (p * q + t)
  {
  }

  /** The aligned image lies inside the allocation of size + alignment bytes. */
  lemma ImageFits(raw: nat, l: Layout)
    requires l.alignment > 0
    ensures var base := AlignUp(raw, l.alignment);
            raw <= base && base + l.size <= raw + (l.size + l.alignment) && base % l.alignment == 0
  {
  }
}
