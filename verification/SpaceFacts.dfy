/** What running on these spaces relies on: the kernel's identity map, the first process's pages,
    and the trampoline page both share (kernel/src/process/process.rs, kernel/src/trap/mod.rs). */
module SpaceFacts {
  import opened Wrappers
  import opened Bits
  import opened Sv39Format
  import opened Layout
  import opened Machines
  import opened PageTables
  import opened TableShapes
  import opened Mapping
  import opened Requests
  import opened KernelAreas
  import opened AddressSpaces
  import opened UserSpaces
  import opened Sv39Hardware
  import opened Translating

  // ------------------------------------------------------------------ trampoline

  /** What `translate` answers for a mapped page. */
  function Answer(leaf: Leaf, va: Word): Outcome<Option<(Word, Flags)>> {
    Ok(Some((BaseAddr(leaf.frame) + MaskedOffset(va), leaf.flags)))
  }

  lemma TranslateView(mem: Memory, s: Shape, va: Word)
    requires Tree(mem, s) && Vpn(va) in View(mem, s)
    ensures Translate(mem, s.root, va) == Answer(View(mem, s)[Vpn(va)], va)
  {
    TranslateTree(mem, s, va);
    var e := SlotEntry(mem, s, Vpn(va));
    assert View(mem, s)[Vpn(va)] == Leaf(e.ppn, e.low);
  }

  lemma TranslateMapped(m: Machine, t: Table, va: Word)
    requires Wf(m, t) && Vpn(va) in Denote(m.mem, t.root)
    ensures Translate(m.mem, t.root, va) == Answer(Denote(m.mem, t.root)[Vpn(va)], va)
  {
    var s :| Shaped(m, t, s);
    DenoteIsView(m.mem, s);
    TranslateView(m.mem, s, va);
  }

  lemma TrampolinePage(va: Word)
    requires TRAMPOLINE_BASE_VA <= va < MAX_VA
    ensures Vpn(va) == TRAMPOLINE_VPN
  {
  }

  /** The table maps the trampoline page as the kernel does. */
  ghost predicate HasTrampoline(m: Machine, l: Linker, t: Table) {
    && Wf(m, t) && TRAMPOLINE_VPN in Denote(m.mem, t.root)
    && Denote(m.mem, t.root)[TRAMPOLINE_VPN] == Leaf(FrameAt(l.trampoline), WithValid(RX))
  }

  lemma TrampolineExpected(v: map<nat, Leaf>, w: map<nat, Leaf>, va: Word)
    requires TRAMPOLINE_VPN in v && TRAMPOLINE_VPN in w && v[TRAMPOLINE_VPN] == w[TRAMPOLINE_VPN]
    requires TRAMPOLINE_BASE_VA <= va < MAX_VA
    ensures Expected(v, va) == Expected(w, va)
  {
  }

  lemma TrampolineBySoftware(m: Machine, l: Linker, t: Table, va: Word)
    requires HasTrampoline(m, l, t) && TRAMPOLINE_BASE_VA <= va < MAX_VA
    ensures Translate(m.mem, t.root, va) == Answer(Leaf(FrameAt(l.trampoline), WithValid(RX)), va)
  {
    TrampolinePage(va);
    TranslateMapped(m, t, va);
  }

  /** Two spaces with the trampoline agree on all of its page, by the hardware walk and by
      `translate`; so switching tables on that page does not change what runs. */
  lemma TrampolineAgrees(m: Machine, l: Linker, user: Table, kernel: Table, va: Word)
    requires HasTrampoline(m, l, user) && HasTrampoline(m, l, kernel) && TRAMPOLINE_BASE_VA <= va < MAX_VA
    ensures HwTranslate(m.mem, MakeSatp(user.root), va) == HwTranslate(m.mem, MakeSatp(kernel.root), va)
    ensures Translate(m.mem, user.root, va) == Translate(m.mem, kernel.root, va)
  {
    HardwareAgrees(m, user, va);
    HardwareAgrees(m, kernel, va);
    TrampolineExpected(Denote(m.mem, user.root), Denote(m.mem, kernel.root), va);
    TrampolineBySoftware(m, l, user, va);
    TrampolineBySoftware(m, l, kernel, va);
  }

  // -------------------------------------------------------------- first user space

  /** The page after a text of len bytes, below its stack, as the walk sees it. */
  function GuardPageOf(len: nat): nat {
    (TEXT_VPN + TextPages(len)) % VPNS
  }

  /** In every first user space the page between text and stack is unmapped exactly when it is none
      of the three pages of fixed place; below the trap frame that means: when the text is not
      empty. */
  lemma GuardPageIff(m: Machine, l: Linker, text: seq<Byte>)
    requires MachineOk(m) && LinkerOk(l) && MakeUser(m, l, text).Ok?
    ensures var (m', sp, _) := MakeUser(m, l, text).value;
            GuardPageOf(|text|) !in Denote(m'.mem, sp.table.root) <==> FreePage(GuardPageOf(|text|))
    ensures StackVpn(|text|) < TRAPFRAME_VPN ==> (FreePage(GuardPageOf(|text|)) <==> |text| >= 1)
  {
    hide MakeUser, UserCost;
    var stack, code := MakeUserExact(m, l, text);
    var (m', sp, trap) := MakeUser(m, l, text).value;
    BesideStack(l, |text|, stack, code, trap);
  }

  lemma BesideStack(l: Linker, len: nat, stack: Frame, code: Frame, trap: Frame)
    requires UserFits(len)
    ensures GuardPageOf(len) !in UserView(l, StackPage(len), stack, code, trap) <==> FreePage(GuardPageOf(len))
    ensures StackVpn(len) < TRAPFRAME_VPN ==> (FreePage(GuardPageOf(len)) <==> len >= 1)
  {
    assert StackPage(len) != GuardPageOf(len);
  }

  /** A user space with a stack below page 512 takes eight frames. */
  lemma SmallUserCost(l: Linker, s: nat)
    requires TEXT_VPN < s < 512
    ensures UserCost(l, s) == 8
  {
    var view := UserView(l, s, 0, 0, 0);
    assert view.Keys == {TRAMPOLINE_VPN, TRAPFRAME_VPN, s, TEXT_VPN};
    TwoRegions(view, s);
  }

  lemma TwoRegions(view: map<nat, Leaf>, s: nat)
    requires TEXT_VPN < s < 512 && view.Keys == {TRAMPOLINE_VPN, TRAPFRAME_VPN, s, TEXT_VPN}
    ensures NodeCount(view) == 5
  {
    assert RegionOf(TRAMPOLINE_VPN) == RegionOf(TRAPFRAME_VPN) == Region(255, 511);
    assert RegionOf(s) == RegionOf(TEXT_VPN) == Region(0, 0);
    assert forall n :: n in view <==> n in view.Keys;
    assert TRAMPOLINE_VPN in view && TEXT_VPN in view;
    assert Dirs(view) == {0, 255};
    assert Regions(view) == {Region(0, 0), Region(255, 511)};
  }

  /** `translate` finds the trap frame where `init_trapframe` put it, and the trampoline where
      the linker put it. */
  lemma UserTranslates(m: Machine, l: Linker, t: Table, s: nat, stack: Frame, code: Frame, trap: Frame)
    requires LinkerOk(l) && FreePage(s)
    requires Wf(m, t) && Denote(m.mem, t.root) == UserView(l, s, stack, code, trap)
    ensures Translate(m.mem, t.root, TRAPFRAME_BASE_USER_VA) == Ok(Some((BaseAddr(trap), WithValid(RW))))
    ensures Translate(m.mem, t.root, TRAMPOLINE_BASE_VA) == Ok(Some((l.trampoline, WithValid(RX))))
  {
    UserViewLookups(l, s, stack, code, trap);
    TranslateMapped(m, t, TRAPFRAME_BASE_USER_VA);
    TranslateMapped(m, t, TRAMPOLINE_BASE_VA);
    FixedAnswers(l, trap);
  }

  lemma FixedAnswers(l: Linker, trap: Frame)
    requires LinkerOk(l)
    ensures Answer(Leaf(trap, WithValid(RW)), TRAPFRAME_BASE_USER_VA) == Ok(Some((BaseAddr(trap), WithValid(RW))))
    ensures Answer(Leaf(FrameAt(l.trampoline), WithValid(RX)), TRAMPOLINE_BASE_VA) ==
              Ok(Some((l.trampoline, WithValid(RX))))
  {
  }

  lemma UserViewLookups(l: Linker, s: nat, stack: Frame, code: Frame, trap: Frame)
    requires FreePage(s)
    ensures var view := UserView(l, s, stack, code, trap);
            && TRAPFRAME_VPN in view && view[TRAPFRAME_VPN] == Leaf(trap, WithValid(RW))
            && TRAMPOLINE_VPN in view && view[TRAMPOLINE_VPN] == Leaf(FrameAt(l.trampoline), WithValid(RX))
            && TEXT_VPN in view && view[TEXT_VPN] == Leaf(code, WithValid(RXU))
            && s in view && view[s] == Leaf(stack, WithValid(RWU))
    ensures Vpn(TRAPFRAME_BASE_USER_VA) == TRAPFRAME_VPN && Vpn(TRAMPOLINE_BASE_VA) == TRAMPOLINE_VPN
  {
  }

  /** On the user table the hardware translates each word of the trap frame to the allocated
      frame, with the flags V, R and W and no other, so for the kernel only. */
  lemma TrapframeIsMapped(m: Machine, l: Linker, t: Table, s: nat, stack: Frame, code: Frame, trap: Frame, k: nat,
                          va: Word)
    requires FreePage(s) && trap < 0x1000_0000_0000
    requires Wf(m, t) && Denote(m.mem, t.root) == UserView(l, s, stack, code, trap)
    requires k < ENTRIES && va == TRAPFRAME_BASE_USER_VA + 8 * k
    ensures HwTranslate(m.mem, MakeSatp(t.root), va) == Translated(BaseAddr(trap) + 8 * k, WithValid(RW))
    ensures FlagSet(WithValid(RW)) == {0, 1, 2}
  {
    FlagSets();
    UserViewLookups(l, s, stack, code, trap);
    ExpectedTrapframe(Denote(m.mem, t.root), trap, k, va);
    HardwareAgrees(m, t, va);
  }

  lemma ExpectedTrapframe(view: map<nat, Leaf>, trap: Frame, k: nat, va: Word)
    requires trap < 0x1000_0000_0000 && TRAPFRAME_VPN in view && view[TRAPFRAME_VPN] == Leaf(trap, WithValid(RW))
    requires k < ENTRIES && va == TRAPFRAME_BASE_USER_VA + 8 * k
    ensures va < MAX_VA && Expected(view, va) == Translated(BaseAddr(trap) + 8 * k, WithValid(RW))
  {
    TrapframeAddress(k, va);
  }

  lemma NoTrapframeInKernel(l: Linker)
    requires LinkerOk(l)
    ensures TRAPFRAME_VPN !in KernelView(l)
  {
    if TRAPFRAME_VPN in KernelView(l) {
      KernelViewBelow(l, TRAPFRAME_VPN);
    }
  }

  lemma TrapframeAddress(k: nat, va: Word)
    requires k < ENTRIES && va == TRAPFRAME_BASE_USER_VA + 8 * k
    ensures va < MAX_VA && Vpn(va) == TRAPFRAME_VPN && va % PAGE_SIZE == 8 * k
  {
  }

  // ---------------------------------------------- where translation goes wrong

  /** One byte past the text base, the text frame and that byte are meant, and `translate` answers
      with the base of the frame. */
  ghost predicate DropsOffset(m: Machine, t: Table, code: Frame) {
    var va := TEXT_BASE_USER_VA + 1;
    && TranslateIntended(Denote(m.mem, t.root), va) == Some((BaseAddr(code) + 1, WithValid(RXU)))
    && Translate(m.mem, t.root, va) == Ok(Some((BaseAddr(code), WithValid(RXU))))
  }

  /** Every first user space is a witness that the offset is lost. */
  lemma OffsetLost(m: Machine, l: Linker, text: seq<Byte>) returns (code: Frame)
    requires MachineOk(m) && LinkerOk(l) && MakeUser(m, l, text).Ok?
    ensures DropsOffset(MakeUser(m, l, text).value.0, MakeUser(m, l, text).value.1.table, code)
  {
    var stack: Frame;
    stack, code := MakeUserExact(m, l, text);
    var (m', sp, trap) := MakeUser(m, l, text).value;
    UserViewLookups(l, StackPage(|text|), stack, code, trap);
    TextTranslated(m', sp.table, code);
  }

  lemma TextTranslated(m: Machine, t: Table, code: Frame)
    requires Wf(m, t) && TEXT_VPN in Denote(m.mem, t.root)
    requires Denote(m.mem, t.root)[TEXT_VPN] == Leaf(code, WithValid(RXU))
    ensures DropsOffset(m, t, code)
  {
    PastTextBase(Denote(m.mem, t.root), code);
    TranslateMapped(m, t, TEXT_BASE_USER_VA + 1);
  }

  lemma PastTextBase(view: map<nat, Leaf>, code: Frame)
    requires TEXT_VPN in view && view[TEXT_VPN] == Leaf(code, WithValid(RXU))
    ensures var va := TEXT_BASE_USER_VA + 1;
            && Vpn(va) == TEXT_VPN
            && TranslateIntended(view, va) == Some((BaseAddr(code) + 1, WithValid(RXU)))
            && Answer(Leaf(code, WithValid(RXU)), va) == Ok(Some((BaseAddr(code), WithValid(RXU))))
  {
  }

  /** In every first user space with a text of 1 to 4096 bytes, `translate` answers for the guard page
      after the text, which is not mapped. */
  lemma UnmappedAnswered(m: Machine, l: Linker, text: seq<Byte>)
    requires MachineOk(m) && LinkerOk(l) && 1 <= |text| <= PAGE_SIZE && MakeUser(m, l, text).Ok?
    ensures var (m', sp, _) := MakeUser(m, l, text).value;
            var view, va := Denote(m'.mem, sp.table.root), TEXT_BASE_USER_VA + PAGE_SIZE;
            && Vpn(va) !in view && TranslateIntended(view, va) == None
            && Translate(m'.mem, sp.table.root, va).Ok? && Translate(m'.mem, sp.table.root, va).value.Some?
  {
    var stack, code := MakeUserExact(m, l, text);
    var (m', sp, trap) := MakeUser(m, l, text).value;
    OnePageStack(|text|);
    GuardPage(l, TEXT_VPN + 2, stack, code, trap);
    TranslateAnswersIff(m', sp.table, TEXT_BASE_USER_VA + PAGE_SIZE);
  }

  lemma GuardPage(l: Linker, s: nat, stack: Frame, code: Frame, trap: Frame)
    requires s == TEXT_VPN + 2
    ensures var view, vpn := UserView(l, s, stack, code, trap), Vpn(TEXT_BASE_USER_VA + PAGE_SIZE);
            vpn == TEXT_VPN + 1 && vpn !in view && RegionOf(vpn) in Regions(view)
  {
    assert RegionOf(TEXT_VPN + 1) == RegionOf(TEXT_VPN) && TEXT_VPN in UserView(l, s, stack, code, trap);
  }
}
