/** Where the first process finds its text (kernel/src/mm/address_space.rs): the bytes that the
    hardware fetches in user mode, through the init space as written and as it is meant. */
module TextFetch {
  import opened Wrappers
  import opened Bits
  import opened Sv39Format
  import opened Layout
  import opened Machines
  import opened PageTables
  import opened Mapping
  import opened KernelAreas
  import opened AddressSpaces
  import opened UserSpaces
  import opened InitIntended
  import opened Sv39Hardware
  import opened Translating

  /** The word that an entry was read from. */
  function WordOf(e: Pte): nat {
    e.ppn * 1024 + e.low
  }

  function ByteIn(mem: Memory, f: Frame, offset: nat): nat
    requires f in mem && offset < PAGE_SIZE
  {
    ByteOf(WordOf(mem[f][offset / 8]), offset % 8)
  }

  /** The byte that user code fetches at va; None is a fault. */
  function Fetch(mem: Memory, satp: Word, va: Word): Option<nat> {
    match HwAccess(mem, satp, va, Fetches, UserMode)
    case None => None
    case Some(pa) =>
      if pa < TWO64 && pa / PAGE_SIZE in mem then Some(ByteIn(mem, pa / PAGE_SIZE, pa % PAGE_SIZE)) else None
  }

  lemma WordOfPte(w: Word)
    ensures WordOf(PteOf(w)) == w
  {
  }

  lemma PackedByte(mem: Memory, f: Frame, data: seq<Byte>, offset: nat)
    requires f in mem && mem[f] == Pack(data) && offset < PAGE_SIZE
    ensures ByteIn(mem, f, offset) == ByteAt(data, offset)
  {
    PackHolds(data, offset / 8, offset % 8);
    WordOfPte(WordAt(data, offset / 8));
    assert 8 * (offset / 8) + offset % 8 == offset;
  }

  lemma ExpectedCode(view: map<nat, Leaf>, va: Word, f: Frame)
    requires Vpn(va) in view && view[Vpn(va)] == Leaf(f, WithValid(RXU)) && f < 0x1000_0000_0000
    ensures Expected(view, va) == Translated(BaseAddr(f) + va % PAGE_SIZE, WithValid(RXU))
    ensures Permits(WithValid(RXU), Fetches, UserMode)
  {
  }

  lemma OffsetInFrame(f: Frame, offset: nat)
    requires offset < PAGE_SIZE && f < 0x1000_0000_0000
    ensures var pa := BaseAddr(f) + offset;
            pa < TWO64 && pa / PAGE_SIZE == f && pa % PAGE_SIZE == offset
  {
  }

  /** A code page that holds data is fetched byte by byte. */
  lemma FetchMapped(m: Machine, t: Table, va: Word, f: Frame, data: seq<Byte>)
    requires Wf(m, t) && va < MAX_VA && f < 0x1000_0000_0000 && f in m.mem && m.mem[f] == Pack(data)
    requires Vpn(va) in Denote(m.mem, t.root) && Denote(m.mem, t.root)[Vpn(va)] == Leaf(f, WithValid(RXU))
    ensures Fetch(m.mem, MakeSatp(t.root), va) == Some(ByteAt(data, va % PAGE_SIZE))
  {
    hide Wf, Denote, Fetch, Pack;
    HardwareAgrees(m, t, va);
    ExpectedCode(Denote(m.mem, t.root), va, f);
    FetchTranslated(m.mem, MakeSatp(t.root), va, f, data);
  }

  lemma FetchTranslated(mem: Memory, satp: Word, va: Word, f: Frame, data: seq<Byte>)
    requires HwTranslate(mem, satp, va) == Translated(BaseAddr(f) + va % PAGE_SIZE, WithValid(RXU))
    requires Permits(WithValid(RXU), Fetches, UserMode)
    requires f < 0x1000_0000_0000 && f in mem && mem[f] == Pack(data)
    ensures Fetch(mem, satp, va) == Some(ByteAt(data, va % PAGE_SIZE))
  {
    hide HwTranslate, Pack, Permits;
    OffsetInFrame(f, va % PAGE_SIZE);
    PackedByte(mem, f, data, va % PAGE_SIZE);
  }

  /** A page that is unmapped, or mapped other than as user code, is not fetched from. */
  lemma FetchFaults(m: Machine, t: Table, va: Word)
    requires Wf(m, t) && va < MAX_VA
    requires Vpn(va) in Denote(m.mem, t.root) ==> !Permits(Denote(m.mem, t.root)[Vpn(va)].flags, Fetches, UserMode)
    ensures Fetch(m.mem, MakeSatp(t.root), va) == None
  {
    HardwareAgrees(m, t, va);
  }

  // -------------------------------------------------------------------- as meant

  lemma TextByteAddress(b: nat, va: Word)
    requires va == TEXT_BASE_USER_VA + b && va < MAX_VA
    ensures Vpn(va) == TEXT_VPN + b / PAGE_SIZE && va % PAGE_SIZE == b % PAGE_SIZE
  {
    ModUnique(va, PAGE_SIZE, TEXT_VPN + b / PAGE_SIZE, b % PAGE_SIZE);
  }

  lemma SliceByte(text: seq<Byte>, b: nat)
    requires b < |text|
    ensures b / PAGE_SIZE < TextPages(|text|)
    ensures ByteAt(TextSlice(text, b / PAGE_SIZE), b % PAGE_SIZE) == text[b]
  {
  }

  lemma IntendedViewText(l: Linker, stackVpn: nat, stack: Frame, fs: seq<Frame>, i: nat)
    requires i < |fs| && TEXT_VPN + |fs| <= TRAMPOLINE_VPN && stackVpn > TEXT_VPN + |fs|
    ensures TEXT_VPN + i in IntendedView(l, stackVpn, stack, fs)
    ensures IntendedView(l, stackVpn, stack, fs)[TEXT_VPN + i] == Leaf(fs[i], WithValid(RXU))
  {
  }

  /** As meant, user code fetches every byte of its text, however long that is. */
  lemma IntendedTextFetched(m: Machine, l: Linker, text: seq<Byte>, b: nat, va: Word)
    requires MachineOk(m) && LinkerOk(l) && MakeInitIntended(m, l, text).Ok?
    requires b < |text| && va == TEXT_BASE_USER_VA + b
    ensures var (m', sp) := MakeInitIntended(m, l, text).value;
            Fetch(m'.mem, MakeSatp(sp.table.root), va) == Some(text[b])
  {
    hide MakeInitIntended;
    var stack, fs := MakeInitIntendedExact(m, l, text);
    var (m', sp) := MakeInitIntended(m, l, text).value;
    SliceByte(text, b);
    IntendedByteFetched(m, l, text, m', sp, stack, fs, b, va);
  }

  lemma IntendedByteFetched(m: Machine, l: Linker, text: seq<Byte>, m': Machine, sp: Space, stack: Frame,
                            fs: seq<Frame>, b: nat, va: Word)
    requires IntendedMade(m, l, text, m', sp, stack, fs) && IntendedFits(|text|)
    requires b < |text| && va == TEXT_BASE_USER_VA + b
    ensures Fetch(m'.mem, MakeSatp(sp.table.root), va) == Some(text[b])
  {
    hide Fetch, Wf, Denote, Pack, IntendedView, Extends, TextSlice;
    var i := b / PAGE_SIZE;
    SliceByte(text, b);
    TextByteAddress(b, va);
    IntendedViewText(l, StackVpn(|text|), stack, fs, i);
    assert fs[i] in OwnedFrames(sp);
    OwnedLow(m, m', OwnedFrames(sp), fs[i]);
    FetchMapped(m', sp.table, va, fs[i], TextSlice(text, i));
  }

  lemma OwnedLow(m: Machine, m': Machine, fs: seq<Frame>, f: Frame)
    requires Extends(m, [], m', fs) && f in fs
    ensures f < 0x1000_0000_0000
  {
    assert Live(m', f);
  }

  // ------------------------------------------------------------------ as written

  lemma InitViewElsewhere(l: Linker, stackVpn: nat, stack: Frame, code: Frame, n: nat)
    requires n != TEXT_VPN
    ensures n in InitView(l, stackVpn, stack, code) ==>
              !Permits(InitView(l, stackVpn, stack, code)[n].flags, Fetches, UserMode)
  {
  }

  lemma InitViewCode(l: Linker, stackVpn: nat, stack: Frame, code: Frame)
    ensures TEXT_VPN in InitView(l, stackVpn, stack, code)
    ensures InitView(l, stackVpn, stack, code)[TEXT_VPN] == Leaf(code, WithValid(RXU))
  {
  }

  /** As written, user code fetches exactly the bytes of the first page of its text; the others,
      below MAX_VA, fault. */
  lemma TextFetchedIff(m: Machine, l: Linker, text: seq<Byte>, b: nat, va: Word)
    requires MachineOk(m) && LinkerOk(l) && MakeInit(m, l, text).Ok?
    requires b < |text| && va == TEXT_BASE_USER_VA + b && va < MAX_VA
    ensures var (m', sp) := MakeInit(m, l, text).value;
            Fetch(m'.mem, MakeSatp(sp.table.root), va) == if b < PAGE_SIZE then Some(text[b]) else None
  {
    hide MakeInit;
    var stack, code := MakeInitExact(m, l, text);
    var (m', sp) := MakeInit(m, l, text).value;
    TextByte(m, l, text, m', sp, stack, code, b, va);
  }

  lemma TextByte(m: Machine, l: Linker, text: seq<Byte>, m': Machine, sp: Space, stack: Frame, code: Frame, b: nat,
                 va: Word)
    requires InReach(|text|) && InitMade(m, l, text, m', sp, stack, code)
    requires b < |text| && va == TEXT_BASE_USER_VA + b && va < MAX_VA
    ensures Fetch(m'.mem, MakeSatp(sp.table.root), va) == if b < PAGE_SIZE then Some(text[b]) else None
  {
    hide Fetch, Wf, Denote, Pack, InitView, Extends;
    TextByteAddress(b, va);
    if b < PAGE_SIZE {
      assert code in OwnedFrames(sp);
      OwnedLow(m, m', OwnedFrames(sp), code);
      InitViewCode(l, StackPage(|text|), stack, code);
      FetchMapped(m', sp.table, va, code, text);
    } else {
      InitViewElsewhere(l, StackPage(|text|), stack, code, Vpn(va));
      FetchFaults(m', sp.table, va);
    }
  }
}
