/**
  What the app loader makes of an accepted object, told from the relocation entries of the
  file itself (source/app/elf_loader.c): which entries it accepts, and what each 32-bit
  field holds in memory.
 */
module ElfFields {
  import opened Basics
  import opened ElfLayout
  import opened ElfLoader

  /** Entry number `entry` of section number `section`. */
  datatype Reloc = Reloc(section: nat, entry: nat)

  ghost predicate HasEntry(o: Object, f: Reloc) {
    && f.section < |o.sections| && o.sections[f.section].kind == REL
    && RelocationsValid(o, o.sections[f.section]) && f.entry < o.sections[f.section].size / 8
  }

  /** Where the entry stands in the file: r_offset, then r_info. */
  function EntryAt(o: Object, f: Reloc): (e: nat)
    requires HasEntry(o, f)
    ensures e + 8 <= |o.file|
  {
    o.sections[f.section].offset + 8 * f.entry
  }

  /** The section the entry patches. */
  function Patched(o: Object, f: Reloc): Section
    requires HasEntry(o, f)
  {
    o.sections[o.sections[f.section].info]
  }

  function TypeOf(o: Object, f: Reloc): nat
    requires HasEntry(o, f)
  {
    U32(o.file, EntryAt(o, f) + 4) % 256
  }

  function SymbolOf(o: Object, f: Reloc): nat
    requires HasEntry(o, f)
  {
    U32(o.file, EntryAt(o, f) + 4) / 256
  }

  /** Offset of the field in the image. */
  function PlaceOf(o: Object, f: Reloc): nat
    requires ObjectValid(o) && HasEntry(o, f)
  {
    o.layout.offsets[o.sections[f.section].info] + U32(o.file, EntryAt(o, f))
  }

  /** st_value and st_shndx of the symbol. */
  function ValueOf(o: Object, f: Reloc): nat
    requires ObjectValid(o) && HasEntry(o, f) && SymbolOf(o, f) < o.symbols.count
  {
    U32(o.file, o.symbols.offset + 16 * SymbolOf(o, f) + 4)
  }

  function HomeOf(o: Object, f: Reloc): nat
    requires ObjectValid(o) && HasEntry(o, f) && SymbolOf(o, f) < o.symbols.count
  {
    U16(o.file, o.symbols.offset + 16 * SymbolOf(o, f) + 14)
  }

  const SHN_ABS := 0xFFF1

  /** The symbol has an address: absolute, or inside an allocated section of the file. */
  ghost predicate SymbolPlaced(o: Object, f: Reloc)
    requires ObjectValid(o) && HasEntry(o, f) && SymbolOf(o, f) < o.symbols.count
  {
    || HomeOf(o, f) == SHN_ABS
    || (0 < HomeOf(o, f) < |o.sections| && HomeOf(o, f) != 0xFFF2
        && o.sections[HomeOf(o, f)].alloc && ValueOf(o, f) <= o.sections[HomeOf(o, f)].size)
  }

  /** What the loader demands of an entry. */
  ghost predicate EntryGood(o: Object, f: Reloc)
    requires ObjectValid(o) && HasEntry(o, f)
  {
    && SymbolOf(o, f) < o.symbols.count && U32(o.file, EntryAt(o, f)) + 4 <= Patched(o, f).size
    && (TypeOf(o, f) == 0 || (TypeOf(o, f) in {1, 2} && SymbolPlaced(o, f)))
  }

  /** S: the address of the symbol when the image lies at base. */
  function SymbolAddress(o: Object, f: Reloc, base: nat): nat
    requires ObjectValid(o) && HasEntry(o, f) && SymbolOf(o, f) < o.symbols.count && SymbolPlaced(o, f)
  {
    if HomeOf(o, f) == SHN_ABS then ValueOf(o, f) else base + o.layout.offsets[HomeOf(o, f)] + ValueOf(o, f)
  }

  /** A: what the file holds at the field; zero in a section without contents. */
  function Addend(o: Object, f: Reloc): nat
    requires ObjectValid(o) && HasEntry(o, f) && EntryGood(o, f)
  {
    if Patched(o, f).kind == NOBITS then 0 else
      assert SectionPlaced(Patched(o, f), o.layout, o.sections[f.section].info, |o.file|);
      U32(o.file, Patched(o, f).offset + U32(o.file, EntryAt(o, f)))
  }

  // ----------------------------------------------------------------
  // Headers
  // ----------------------------------------------------------------

  lemma ExamineHeaders(file: Bytes)
    requires Examine(file).Ok?
    ensures HeaderValid(file) && Examine(file).value.sections == Sections(file)
  {
  }

  /** The file header an object must have: a little-endian 32-bit relocatable file for the 386, version 1. */
  lemma HeaderBytes(file: Bytes)
    requires HeaderValid(file)
    ensures |file| >= 52 && file[..7] == [0x7F, 0x45, 0x4C, 0x46, 1, 1, 1]
    ensures file[16] == 1 && file[17] == 0 && file[18] == 3 && file[19] == 0
    ensures file[20] == 1 && file[21] == 0 && file[22] == 0 && file[23] == 0
    ensures 0 < U16(file, 48) <= 96 && U32(file, 32) + 40 * U16(file, 48) <= |file|
  {
    TwoBytes(file, 16);
    TwoBytes(file, 18);
    FourBytes(file, 20);
  }

  lemma TwoBytes(file: Bytes, i: nat)
    requires i + 2 <= |file| && U16(file, i) < 256
    ensures file[i] == U16(file, i) && file[i + 1] == 0
  {
  }

  lemma FourBytes(file: Bytes, i: nat)
    requires i + 4 <= |file| && U32(file, i) == 1
    ensures file[i] == 1 && file[i + 1] == 0 && file[i + 2] == 0 && file[i + 3] == 0
  {
  }

  /** Each field of section i stands at its place of the section header table. */
  lemma SectionFields(file: Bytes, i: nat, at: nat)
    requires HeaderValid(file) && i < U16(file, 48) && at == U32(file, 32) + 40 * i
    ensures |Sections(file)| == U16(file, 48) && at + 40 <= |file|
    ensures var s := Sections(file)[i];
            && s.kind == U32(file, at + 4) && (s.alloc <==> file[at + 8] as int / 2 % 2 == 1)
            && s.offset == U32(file, at + 16) && s.size == U32(file, at + 20) && s.link == U32(file, at + 24)
            && s.info == U32(file, at + 28) && s.align == U32(file, at + 32) && s.entry == U32(file, at + 36)
  {
    assert Sections(file)[i] == SectionAt(file, at);
    LowBit(file, at + 8);
  }

  lemma LowBit(file: Bytes, i: nat)
    requires i + 4 <= |file|
    ensures U32(file, i) / 2 % 2 == file[i] as int / 2 % 2
  {
    var rest := 64 * file[i + 1] as int + 0x4000 * file[i + 2] as int + 0x40_0000 * file[i + 3] as int;
    assert U32(file, i) == file[i] as int + 4 * rest;
  }

  // ----------------------------------------------------------------
  // Entries and patches
  // ----------------------------------------------------------------

  /** p is the patch that this entry asks for. */
  ghost predicate Asks(o: Object, f: Reloc, p: Patch)
    requires ObjectValid(o)
  {
    && HasEntry(o, f) && EntryGood(o, f) && p.place == PlaceOf(o, f)
    && ((TypeOf(o, f) == 1 && p.kind == Direct) || (TypeOf(o, f) == 2 && p.kind == PcRelative))
    && p.target == if HomeOf(o, f) == SHN_ABS then Absolute(ValueOf(o, f))
                   else InImage(o.layout.offsets[HomeOf(o, f)] + ValueOf(o, f))
  }

  lemma StepMeans(o: Object, f: Reloc)
    requires ObjectValid(o) && HasEntry(o, f)
    ensures var s := StepAt(o, EntryAt(o, f), o.sections[f.section].info);
            && (s.Fail? <==> !EntryGood(o, f))
            && (EntryGood(o, f) ==> (s.Skip? <==> TypeOf(o, f) == 0))
            && (s.Do? ==> Asks(o, f, s.patch))
  {
  }

  /** The entries of section r below n that ask for a patch, in file order. */
  ghost function EntriesAsking(o: Object, r: nat, n: nat): seq<Reloc>
    requires ObjectValid(o) && r < |o.sections| && o.sections[r].kind == REL
    requires RelocationsValid(o, o.sections[r]) && n <= o.sections[r].size / 8
  {
    if n == 0 then [] else
      WithEntry(EntriesAsking(o, r, n - 1), Reloc(r, n - 1), TypeOf(o, Reloc(r, n - 1)) != 0)
  }

  /** The patches are those of these entries, one by one. */
  ghost predicate AskedBy(o: Object, fs: seq<Reloc>, ps: seq<Patch>)
    requires ObjectValid(o)
  {
    |fs| == |ps| && forall i :: 0 <= i < |fs| ==> Asks(o, fs[i], ps[i])
  }

  lemma AskedJoin(o: Object, fs: seq<Reloc>, ps: seq<Patch>, gs: seq<Reloc>, qs: seq<Patch>)
    requires ObjectValid(o) && AskedBy(o, fs, ps) && AskedBy(o, gs, qs)
    ensures AskedBy(o, fs + gs, ps + qs)
  {
  }

  /** The first n entries of section r are in order. */
  ghost predicate EntriesGood(o: Object, r: nat, n: nat)
    requires ObjectValid(o) && r < |o.sections| && o.sections[r].kind == REL
    requires RelocationsValid(o, o.sections[r]) && n <= o.sections[r].size / 8
  {
    forall e :: 0 <= e < n ==> EntryGood(o, Reloc(r, e))
  }

  /** A result that is fine has the patches of these entries. */
  ghost predicate Matches(o: Object, fs: seq<Reloc>, r: Result<seq<Patch>>)
    requires ObjectValid(o)
  {
    r.Ok? ==> AskedBy(o, fs, r.value)
  }

  function WithEntry(fs: seq<Reloc>, f: Reloc, asks: bool): seq<Reloc> {
    fs + if asks then [f] else []
  }

  lemma EntryMore(o: Object, fs: seq<Reloc>, before: Result<seq<Patch>>, f: Reloc, step: Step, asks: bool)
    requires ObjectValid(o) && Matches(o, fs, before)
    requires step.Do? ==> asks && Asks(o, f, step.patch)
    requires step.Skip? ==> !asks
    ensures Matches(o, WithEntry(fs, f, asks), Extend(before, step))
  {
    if before.Ok? && step.Do? {
      AskedJoin(o, fs, before.value, [f], [step.patch]);
    }
  }

  /** One turn of the loop over the entries. */
  lemma EntryStep(o: Object, r: nat, n: nat) returns (step: Step)
    requires ObjectValid(o) && r < |o.sections| && o.sections[r].kind == REL
    requires RelocationsValid(o, o.sections[r]) && 0 < n <= o.sections[r].size / 8
    ensures EntryPatches(o, o.sections[r], n) == Extend(EntryPatches(o, o.sections[r], n - 1), step)
    ensures var f := Reloc(r, n - 1);
            && (step.Fail? <==> !EntryGood(o, f)) && (step.Skip? ==> TypeOf(o, f) == 0)
            && (step.Do? ==> TypeOf(o, f) != 0 && Asks(o, f, step.patch))
  {
    StepMeans(o, Reloc(r, n - 1));
    step := StepAt(o, EntryAt(o, Reloc(r, n - 1)), o.sections[r].info);
    Unfolded(o, o.sections[r], n, step);
  }

  /** t is what entry e of s asks for. */
  ghost predicate IsStep(o: Object, s: Section, e: nat, t: Step)
    requires ObjectValid(o) && RelocationsValid(o, s) && e < s.size / 8
  {
    t == StepAt(o, s.offset + 8 * e, s.info)
  }

  lemma AllSteps(o: Object, s: Section) returns (ts: seq<Step>)
    requires ObjectValid(o) && RelocationsValid(o, s)
    ensures |ts| == s.size / 8 && forall e :: 0 <= e < |ts| ==> IsStep(o, s, e, ts[e])
  {
    ts := seq(s.size / 8, e requires 0 <= e < s.size / 8 => StepAt(o, s.offset + 8 * e, s.info));
  }

  function Collect(ts: seq<Step>, n: nat): Result<seq<Patch>>
    requires n <= |ts|
  {
    if n == 0 then Ok([]) else Extend(Collect(ts, n - 1), ts[n - 1])
  }

  lemma {:induction false} CollectOk(ts: seq<Step>, n: nat)
    requires n <= |ts|
    ensures Collect(ts, n).Ok? <==> forall e :: 0 <= e < n ==> !ts[e].Fail?
  {
    if n > 0 {
      CollectOk(ts, n - 1);
    }
  }

  lemma Unfolded(o: Object, s: Section, n: nat, t: Step)
    requires ObjectValid(o) && RelocationsValid(o, s) && 0 < n <= s.size / 8 && IsStep(o, s, n - 1, t)
    ensures EntryPatches(o, s, n) == Extend(EntryPatches(o, s, n - 1), t)
  {
  }

  lemma {:induction false} EntriesCollect(o: Object, s: Section, n: nat, ts: seq<Step>)
    requires ObjectValid(o) && RelocationsValid(o, s) && n <= s.size / 8 == |ts|
    requires forall e :: 0 <= e < |ts| ==> IsStep(o, s, e, ts[e])
    ensures EntryPatches(o, s, n) == Collect(ts, n)
  {
    if n > 0 {
      EntriesCollect(o, s, n - 1, ts);
      Unfolded(o, s, n, ts[n - 1]);
    }
  }

  lemma StepGood(o: Object, r: nat, e: nat, t: Step)
    requires ObjectValid(o) && r < |o.sections| && o.sections[r].kind == REL && RelocationsValid(o, o.sections[r])
    requires e < o.sections[r].size / 8 && IsStep(o, o.sections[r], e, t)
    ensures t.Fail? <==> !EntryGood(o, Reloc(r, e))
  {
    StepMeans(o, Reloc(r, e));
  }

  lemma EntriesOkIff(o: Object, r: nat)
    requires ObjectValid(o) && r < |o.sections| && o.sections[r].kind == REL && RelocationsValid(o, o.sections[r])
    ensures EntryPatches(o, o.sections[r], o.sections[r].size / 8).Ok? <==> EntriesGood(o, r, o.sections[r].size / 8)
  {
    var ts := AllSteps(o, o.sections[r]);
    EntriesCollect(o, o.sections[r], |ts|, ts);
    CollectOk(ts, |ts|);
    forall e | 0 <= e < |ts|
      ensures ts[e].Fail? <==> !EntryGood(o, Reloc(r, e))
    {
      StepGood(o, r, e, ts[e]);
    }
  }

  lemma {:induction false} EntriesMatch(o: Object, r: nat, n: nat)
    requires ObjectValid(o) && r < |o.sections| && o.sections[r].kind == REL
    requires RelocationsValid(o, o.sections[r]) && n <= o.sections[r].size / 8
    ensures Matches(o, EntriesAsking(o, r, n), EntryPatches(o, o.sections[r], n))
  {
    if n == 0 {
      assert EntryPatches(o, o.sections[r], 0) == Ok([]) && EntriesAsking(o, r, 0) == [];
    } else {
      var f := Reloc(r, n - 1);
      EntriesMatch(o, r, n - 1);
      var step := EntryStep(o, r, n);
      EntryMore(o, EntriesAsking(o, r, n - 1), EntryPatches(o, o.sections[r], n - 1), f, step, TypeOf(o, f) != 0);
    }
  }

  /** A section the loader can work with. */
  ghost predicate SectionGood(o: Object, r: nat)
    requires ObjectValid(o) && r < |o.sections|
  {
    && o.sections[r].kind != RELA
    && (o.sections[r].kind == REL ==>
          RelocationsValid(o, o.sections[r]) && EntriesGood(o, r, o.sections[r].size / 8))
  }

  ghost predicate AllGood(o: Object, n: nat)
    requires ObjectValid(o) && n <= |o.sections|
  {
    forall r :: 0 <= r < n ==> SectionGood(o, r)
  }

  lemma AllGoodMore(o: Object, n: nat)
    requires ObjectValid(o) && 0 < n <= |o.sections|
    ensures AllGood(o, n) <==> AllGood(o, n - 1) && SectionGood(o, n - 1)
  {
  }

  /** The patches of several sections and of one more. */
  function Chained(r: Result<seq<Patch>>, q: Result<seq<Patch>>): Result<seq<Patch>> {
    if r.Err? then r else if q.Err? then q else Ok(r.value + q.value)
  }

  /** The entries of one section that ask for a patch. */
  ghost function SectionAsking(o: Object, r: nat): seq<Reloc>
    requires ObjectValid(o) && r < |o.sections|
  {
    if o.sections[r].kind == REL && RelocationsValid(o, o.sections[r])
    then EntriesAsking(o, r, o.sections[r].size / 8) else []
  }

  lemma SectionMatch(o: Object, r: nat)
    requires ObjectValid(o) && r < |o.sections|
    ensures SectionPatches(o, o.sections[r]).Ok? <==> SectionGood(o, r)
    ensures SectionPatches(o, o.sections[r]).Ok? ==> AskedBy(o, SectionAsking(o, r), SectionPatches(o, o.sections[r]).value)
  {
    if o.sections[r].kind == REL && RelocationsValid(o, o.sections[r]) {
      EntriesMatch(o, r, o.sections[r].size / 8);
      EntriesOkIff(o, r);
    }
  }

  ghost function Lists(o: Object): (ls: seq<seq<Reloc>>)
    requires ObjectValid(o)
    ensures |ls| == |o.sections|
  {
    seq(|o.sections|, r requires 0 <= r < |o.sections| => SectionAsking(o, r))
  }

  /** The first n lists, one after the other. */
  function Flat(ls: seq<seq<Reloc>>, n: nat): seq<Reloc>
    requires n <= |ls|
  {
    if n == 0 then [] else Flat(ls, n - 1) + ls[n - 1]
  }

  /** All entries of the sections below n that ask for a patch. */
  ghost function Asking(o: Object, n: nat): seq<Reloc>
    requires ObjectValid(o) && n <= |o.sections|
  {
    Flat(Lists(o), n)
  }

  /** The relocation loop accepts exactly these objects, and its patches are those of the entries, in file order. */
  lemma {:induction false} PatchesMatch(o: Object, n: nat)
    requires ObjectValid(o) && n <= |o.sections|
    ensures Patches(o, n).Ok? <==> AllGood(o, n)
    ensures Patches(o, n).Ok? ==> AskedBy(o, Asking(o, n), Patches(o, n).value)
  {
    if n == 0 {
      assert Patches(o, 0) == Ok([]) && Asking(o, 0) == [];
    } else {
      PatchesMatch(o, n - 1);
      SectionMatch(o, n - 1);
      AllGoodMore(o, n);
      var before, more := Patches(o, n - 1), SectionPatches(o, o.sections[n - 1]);
      assert Patches(o, n) == Chained(before, more);
      if before.Ok? && more.Ok? {
        AskedJoin(o, Asking(o, n - 1), before.value, SectionAsking(o, n - 1), more.value);
      }
    }
  }

  /** The file is accepted exactly when its headers are, and every relocation section and entry is in order. */
  lemma AcceptedIff(file: Bytes, base: nat)
    ensures LoadedAt(file, base).Ok? <==>
            Examine(file).Ok? && var o := Examine(file).value; AllGood(o, |o.sections|)
  {
    if Examine(file).Ok? {
      PatchesMatch(Examine(file).value, |Examine(file).value.sections|);
    }
  }

  // ----------------------------------------------------------------
  // Each entry once
  // ----------------------------------------------------------------

  predicate Twice(fs: seq<Reloc>, i: int, j: int) {
    0 <= i < j < |fs| && fs[i] == fs[j]
  }

  ghost predicate Distinct(fs: seq<Reloc>) {
    forall i, j :: !Twice(fs, i, j)
  }

  /** An entry that asks for a patch. */
  ghost predicate IsField(o: Object, f: Reloc) {
    HasEntry(o, f) && TypeOf(o, f) != 0
  }

  lemma {:induction false} EntryListed(o: Object, r: nat, n: nat, f: Reloc)
    requires ObjectValid(o) && r < |o.sections| && o.sections[r].kind == REL
    requires RelocationsValid(o, o.sections[r]) && n <= o.sections[r].size / 8
    ensures f in EntriesAsking(o, r, n) <==> f.section == r && f.entry < n && IsField(o, f)
  {
    if n > 0 {
      EntryListed(o, r, n - 1, f);
      assert f.section == r && f.entry == n - 1 ==> f == Reloc(r, n - 1);
    }
  }

  lemma AddedDistinct(fs: seq<Reloc>, f: Reloc, asks: bool)
    requires Distinct(fs) && f !in fs
    ensures Distinct(WithEntry(fs, f, asks))
  {
    var more: seq<Reloc> := if asks then [f] else [];
    DistinctJoin(fs, more);
  }

  lemma {:induction false} EntriesDistinct(o: Object, r: nat, n: nat)
    requires ObjectValid(o) && r < |o.sections| && o.sections[r].kind == REL
    requires RelocationsValid(o, o.sections[r]) && n <= o.sections[r].size / 8
    ensures Distinct(EntriesAsking(o, r, n))
  {
    if n > 0 {
      EntriesDistinct(o, r, n - 1);
      EntryListed(o, r, n - 1, Reloc(r, n - 1));
      AddedDistinct(EntriesAsking(o, r, n - 1), Reloc(r, n - 1), TypeOf(o, Reloc(r, n - 1)) != 0);
    }
  }

  lemma InJoin(a: seq<Reloc>, b: seq<Reloc>, f: Reloc)
    ensures f in a + b <==> f in a || f in b
  {
  }

  lemma SectionListed(o: Object, r: nat, f: Reloc)
    requires ObjectValid(o) && r < |o.sections|
    ensures f in SectionAsking(o, r) <==> f.section == r && IsField(o, f)
  {
    if o.sections[r].kind == REL && RelocationsValid(o, o.sections[r]) {
      EntryListed(o, r, o.sections[r].size / 8, f);
    }
  }

  /** Entries of section r only, each once. */
  ghost predicate Own(fs: seq<Reloc>, r: nat) {
    (forall f :: f in fs ==> f.section == r) && Distinct(fs)
  }

  lemma {:induction false} FlatBelow(ls: seq<seq<Reloc>>, n: nat, f: Reloc)
    requires n <= |ls| && (forall r :: 0 <= r < |ls| ==> Own(ls[r], r)) && f in Flat(ls, n)
    ensures f.section < n
  {
    if n > 0 {
      InJoin(Flat(ls, n - 1), ls[n - 1], f);
      if f in Flat(ls, n - 1) {
        FlatBelow(ls, n - 1, f);
      }
    }
  }

  lemma {:induction false} FlatIn(ls: seq<seq<Reloc>>, n: nat, r: nat, f: Reloc)
    requires r < n <= |ls| && f in ls[r]
    ensures f in Flat(ls, n)
  {
    if r < n - 1 {
      FlatIn(ls, n - 1, r, f);
    }
    InJoin(Flat(ls, n - 1), ls[n - 1], f);
  }

  lemma {:induction false} FlatDistinct(ls: seq<seq<Reloc>>, n: nat)
    requires n <= |ls| && forall r :: 0 <= r < |ls| ==> Own(ls[r], r)
    ensures Distinct(Flat(ls, n))
  {
    if n > 0 {
      var before, more := Flat(ls, n - 1), ls[n - 1];
      FlatDistinct(ls, n - 1);
      assert Own(more, n - 1);
      forall f | f in more
        ensures f !in before
      {
        if f in before {
          FlatBelow(ls, n - 1, f);
        }
      }
      DistinctJoin(before, more);
    }
  }

  lemma SectionOwn(o: Object, r: nat)
    requires ObjectValid(o) && r < |o.sections|
    ensures Own(SectionAsking(o, r), r)
  {
    forall f | f in SectionAsking(o, r)
      ensures f.section == r
    {
      SectionListed(o, r, f);
    }
    if o.sections[r].kind == REL && RelocationsValid(o, o.sections[r]) {
      EntriesDistinct(o, r, o.sections[r].size / 8);
    }
  }

  lemma AskingDistinct(o: Object)
    requires ObjectValid(o)
    ensures Distinct(Asking(o, |o.sections|))
  {
    var ls := Lists(o);
    forall r | 0 <= r < |ls|
      ensures Own(ls[r], r)
    {
      SectionOwn(o, r);
    }
    FlatDistinct(ls, |ls|);
  }

  lemma DistinctJoin(a: seq<Reloc>, b: seq<Reloc>)
    requires Distinct(a) && Distinct(b) && forall f :: f in b ==> f !in a
    ensures Distinct(a + b)
  {
    forall i, j
      ensures !Twice(a + b, i, j)
    {
      assert !Twice(a, i, j) && !Twice(b, i - |a|, j - |a|);
      if 0 <= i < |a| <= j < |a + b| {
        assert a[i] in a && b[j - |a|] in b;
      }
    }
  }

  // ----------------------------------------------------------------
  // Fields in memory
  // ----------------------------------------------------------------

  /** No two fields of the file overlap. */
  ghost predicate FieldsApart(o: Object)
    requires ObjectValid(o)
  {
    forall f, g {:trigger IsField(o, f), IsField(o, g)} :: IsField(o, f) && IsField(o, g) && f != g ==>
      PlaceOf(o, f) + 4 <= PlaceOf(o, g) || PlaceOf(o, g) + 4 <= PlaceOf(o, f)
  }

  lemma AskedApart(o: Object, f: Reloc, p: Patch, g: Reloc, q: Patch)
    requires ObjectValid(o) && FieldsApart(o) && Asks(o, f, p) && Asks(o, g, q) && f != g
    ensures Apart(p, q)
  {
    assert IsField(o, f) && IsField(o, g);
  }

  lemma ApartMeans(o: Object, ps: seq<Patch>)
    requires ObjectValid(o) && Patches(o, |o.sections|) == Ok(ps) && FieldsApart(o)
    ensures NoOverlap(ps)
  {
    var fs := Asking(o, |o.sections|);
    PatchesMatch(o, |o.sections|);
    AskingDistinct(o);
    forall i, j | 0 <= i < j < |ps|
      ensures Apart(ps[i], ps[j])
    {
      assert !Twice(fs, i, j);
      AskedApart(o, fs[i], ps[i], fs[j], ps[j]);
    }
  }

  /** The patch an entry asks for is among the patches. */
  lemma PatchOf(o: Object, f: Reloc, ps: seq<Patch>) returns (i: nat)
    requires ObjectValid(o) && Patches(o, |o.sections|) == Ok(ps) && IsField(o, f)
    ensures i < |ps| && Asks(o, f, ps[i])
  {
    var fs := Asking(o, |o.sections|);
    PatchesMatch(o, |o.sections|);
    SectionListed(o, f.section, f);
    FlatIn(Lists(o), |o.sections|, f.section, f);
    i :| i < |fs| && fs[i] == f;
  }

  /** The field as the sections were copied, before any patch. */
  lemma AddendLoaded(o: Object, f: Reloc)
    requires ObjectValid(o) && HasEntry(o, f) && EntryGood(o, f)
    ensures PlaceOf(o, f) + 4 <= o.layout.size
    ensures U32(Loaded(o.file, o.sections, o.layout, |o.sections|), PlaceOf(o, f)) == Addend(o, f)
  {
    var n, i, k := |o.sections|, o.sections[f.section].info, U32(o.file, EntryAt(o, f));
    ByteLoaded(o.file, o.sections, o.layout, n, i, k);
    ByteLoaded(o.file, o.sections, o.layout, n, i, k + 1);
    ByteLoaded(o.file, o.sections, o.layout, n, i, k + 2);
    ByteLoaded(o.file, o.sections, o.layout, n, i, k + 3);
  }

  /** Type 1 (R_386_32) is S + A, type 2 (R_386_PC32) is S + A - P, in 32 bits. */
  ghost predicate IsValue(o: Object, f: Reloc, base: nat, u: nat)
    requires ObjectValid(o) && HasEntry(o, f) && EntryGood(o, f)
  {
    && (TypeOf(o, f) == 1 ==> u == (SymbolAddress(o, f, base) + Addend(o, f)) % TWO32)
    && (TypeOf(o, f) == 2 ==> u == (SymbolAddress(o, f, base) + Addend(o, f) - (base + PlaceOf(o, f))) % TWO32)
  }

  /** What a patch stores, from the entry that asks for it. */
  lemma StoredValue(o: Object, f: Reloc, p: Patch, base: nat)
    requires ObjectValid(o) && Asks(o, f, p)
    ensures IsValue(o, f, base, PatchValue(p, base, Addend(o, f)))
  {
    ValueIs(p, base, Addend(o, f));
  }

  lemma FieldStored(o: Object, ps: seq<Patch>, base: nat, f: Reloc)
    requires ObjectValid(o) && Patches(o, |o.sections|) == Ok(ps) && FieldsApart(o) && IsField(o, f)
    ensures EntryGood(o, f) && PlaceOf(o, f) + 4 <= o.layout.size
    ensures IsValue(o, f, base, U32(ApplyAll(Loaded(o.file, o.sections, o.layout, |o.sections|), ps, base), PlaceOf(o, f)))
  {
    ApartMeans(o, ps);
    var i := PatchOf(o, f, ps);
    AddendLoaded(o, f);
    FinalField(Loaded(o.file, o.sections, o.layout, |o.sections|), ps, base, i);
    StoredValue(o, f, ps[i], base);
  }

  /**
    In the image of an accepted file whose fields do not overlap, the field of an entry of
    type 1 (R_386_32) is S + A and of an entry of type 2 (R_386_PC32) S + A - P, in 32 bits;
    there is no other type. A is what the file holds there, P the address of the field.
   */
  lemma FieldInMemory(file: Bytes, base: nat, f: Reloc)
    requires LoadedAt(file, base).Ok? && var o := Examine(file).value; FieldsApart(o) && IsField(o, f)
    ensures var o, image := Examine(file).value, LoadedAt(file, base).value;
            && EntryGood(o, f) && PlaceOf(o, f) + 4 <= |image| && TypeOf(o, f) in {1, 2}
            && IsValue(o, f, base, U32(image, PlaceOf(o, f)))
  {
    var o := Examine(file).value;
    FieldStored(o, Patches(o, |o.sections|).value, base, f);
  }

  /** How the words u and u' of one field at two addresses differ. */
  ghost predicate Shifts(o: Object, f: Reloc, u: nat, u': nat, d: int)
    requires ObjectValid(o) && HasEntry(o, f) && SymbolOf(o, f) < o.symbols.count
  {
    if HomeOf(o, f) != SHN_ABS
    then (if TypeOf(o, f) == 2 then u' == u else (u' - u - d) % TWO32 == 0)
    else (if TypeOf(o, f) == 1 then u' == u else (u' - u + d) % TWO32 == 0)
  }

  lemma ValuesShift(o: Object, f: Reloc, base: nat, base': nat, u: nat, u': nat)
    requires ObjectValid(o) && HasEntry(o, f) && EntryGood(o, f) && TypeOf(o, f) != 0
    requires IsValue(o, f, base, u) && IsValue(o, f, base', u')
    ensures Shifts(o, f, u, u', base' - base)
  {
    var s, s' := SymbolAddress(o, f, base) + Addend(o, f), SymbolAddress(o, f, base') + Addend(o, f);
    var p := if TypeOf(o, f) == 2 then base + PlaceOf(o, f) else 0;
    var p' := if TypeOf(o, f) == 2 then base' + PlaceOf(o, f) else 0;
    ModDifference(s' - p', s - p);
  }

  /**
    The same file at two addresses. A type 2 field of a symbol in a section is the same word
    at both and a type 1 field moves with the address; for an absolute symbol the type 1
    field stays and the type 2 field moves the other way.
   */
  lemma LoadShift(file: Bytes, base: nat, base': nat, f: Reloc)
    requires LoadedAt(file, base).Ok? && var o := Examine(file).value; FieldsApart(o) && IsField(o, f)
    ensures var o, r, r' := Examine(file).value, LoadedAt(file, base), LoadedAt(file, base');
            && r'.Ok? && EntryGood(o, f) && PlaceOf(o, f) + 4 <= |r.value| == |r'.value|
            && Shifts(o, f, U32(r.value, PlaceOf(o, f)), U32(r'.value, PlaceOf(o, f)), base' - base)
  {
    var o := Examine(file).value;
    var ps := Patches(o, |o.sections|).value;
    FieldStored(o, ps, base, f);
    FieldStored(o, ps, base', f);
    ValuesShift(o, f, base, base', U32(LoadedAt(file, base).value, PlaceOf(o, f)), U32(LoadedAt(file, base').value, PlaceOf(o, f)));
  }
}
