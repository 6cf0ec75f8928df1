/**
 * Device-tree fixups for high-security (HS) OMAP5/DRA7 parts: reserve three
 * crossbar interrupts, the hardware RNG and the start of OCMC RAM for the
 * secure world, and halt the boot if any of that cannot be done.
 *
 * Each fixup is a method over the in-place blob (`Fdt`) that follows the C
 * code step by step, and a function (`...Effect`) over the abstract tree that
 * says what the step leaves behind and what it returns; the method's
 * postcondition ties the two.
 */
module SecureFixups {
  import opened FdtStore

  const CROSSBAR_PATH: Path := "/ocp/crossbar"
  const IRQS_SKIP: Name := "ti,irqs-skip"
  /** Secure violation reporting, SDMA for the secure world, crypto DMA for the secure world. */
  const HS_IRQ_SKIP: seq<u32> := [8, 15, 118]
  /** Bytes of room the crossbar fixup asks libfdt for before editing. */
  const CROSSBAR_SLACK: nat := 512

  const RNG_PATH: Path := "/ocp/rng"
  const STATUS: Name := "status"
  const DISABLED: string := "disabled"

  const SRAM_HS_PATH: Path := "/ocp/ocmcram@40300000/sram-hs"
  const REG: Name := "reg"

  /** What the boot ROM reports about the part's security fusing. */
  datatype DeviceType = TstDevice | EmuDevice | HsDevice | GpDevice

  /** How a void fixup ends: it returns, or the boot hangs. */
  datatype Outcome = Returned | Halted
  datatype Run = Run(tree: Tree, outcome: Outcome)

  /**
   * Build-time choices: whether this is a secure-device build, and the
   * secure boot-time and run-time SRAM reservations (0 when not configured).
   */
  datatype SecureConfig = SecureConfig(secureDevice: bool, bootSram: u32, runSram: u32)

  /** The SRAM fixup is compiled in only when some reservation is configured. */
  predicate SramReserved(cfg: SecureConfig)
  {
    cfg.bootSram != 0 || cfg.runSram != 0
  }

  /** The larger of two sizes, as U-Boot's `max`. */
  function Max(a: u32, b: u32): (m: u32)
    ensures m >= a && m >= b
    ensures m == a || m == b
  {
    if a > b then a else b
  }

  // ----- crossbar -----

  /** The skip list already at the crossbar node; none when it has no such property. */
  function ExistingSkipList(t: Tree): (cells: seq<u32>)
    requires CROSSBAR_PATH in t
    ensures IRQS_SKIP !in t[CROSSBAR_PATH] ==> cells == []
    ensures IRQS_SKIP in t[CROSSBAR_PATH] && t[CROSSBAR_PATH][IRQS_SKIP].Cells? ==>
      cells == t[CROSSBAR_PATH][IRQS_SKIP].cells
    ensures IRQS_SKIP in t[CROSSBAR_PATH] && t[CROSSBAR_PATH][IRQS_SKIP].Str? ==> cells == []
  {
    match GetProp(t, CROSSBAR_PATH, IRQS_SKIP)
    case Some(Cells(cells)) => cells
    case _ => []
  }

  /** When the crossbar fixup returns 0: growing succeeded and, if the node exists, the write is accepted. */
  predicate CrossbarOk(nodes: set<Path>, f: Faults)
  {
    f.grow == 0 && (CROSSBAR_PATH in nodes ==> Writable(nodes, f, CROSSBAR_PATH, IRQS_SKIP))
  }

  /** `u` carries the HS skip list followed by `t`'s old entries at the crossbar node. */
  predicate CrossbarDone(t: Tree, u: Tree)
  {
    CROSSBAR_PATH in t ==>
      && CROSSBAR_PATH in u
      && IRQS_SKIP in u[CROSSBAR_PATH]
      && u[CROSSBAR_PATH][IRQS_SKIP] == Cells(HS_IRQ_SKIP + ExistingSkipList(t))
  }

  /** What ft_hs_fixup_crossbar leaves behind and returns. */
  function CrossbarEffect(t: Tree, f: Faults): (r: Step)
    ensures SameExcept(t, r.tree, CROSSBAR_PATH, IRQS_SKIP)
    ensures r.ret == 0 <==> CrossbarOk(t.Keys, f)
    ensures f.grow < 0 ==> r == Step(t, f.grow)
    ensures CROSSBAR_PATH !in t ==> r.tree == t
    ensures r.ret == 0 && CROSSBAR_PATH in t ==>
      var was := ExistingSkipList(t);
      && IRQS_SKIP in r.tree[CROSSBAR_PATH]
      && r.tree[CROSSBAR_PATH][IRQS_SKIP].Cells?
      && var cells := r.tree[CROSSBAR_PATH][IRQS_SKIP].cells;
      && |cells| == |was| + 3
      && cells[..3] == [8, 15, 118]
      && cells[3..] == was
    ensures r.ret < 0 && f.grow == 0 ==>
      && r.ret == f.refused[(CROSSBAR_PATH, IRQS_SKIP)]
      && IRQS_SKIP !in r.tree[CROSSBAR_PATH]
  {
    if f.grow < 0 then Step(t, f.grow)
    else if CROSSBAR_PATH !in t then Step(t, 0)
    else
      var cleared := AfterDelProp(t, CROSSBAR_PATH, IRQS_SKIP);
      AfterSetProp(cleared, f, CROSSBAR_PATH, IRQS_SKIP, Cells(HS_IRQ_SKIP + ExistingSkipList(t)))
  }

  /** The temporary list of ft_hs_fixup_crossbar: the HS entries, then the old ones copied verbatim. */
  method FillSkipList(oldCells: seq<u32>) returns (temp: seq<u32>)
    ensures |temp| == |oldCells| + |HS_IRQ_SKIP|
    ensures temp[..|HS_IRQ_SKIP|] == HS_IRQ_SKIP
    ensures temp[|HS_IRQ_SKIP|..] == oldCells
  {
    var newCnt := |HS_IRQ_SKIP|;
    var buf := new u32[|oldCells| + newCnt];
    for i := 0 to newCnt
      invariant forall k :: 0 <= k < i ==> buf[k] == HS_IRQ_SKIP[k]
    {
      buf[i] := HS_IRQ_SKIP[i];
    }
    for i := 0 to |oldCells|
      invariant forall k :: 0 <= k < newCnt ==> buf[k] == HS_IRQ_SKIP[k]
      invariant forall k :: 0 <= k < i ==> buf[k + newCnt] == oldCells[k]
    {
      buf[i + newCnt] := oldCells[i];
    }
    temp := buf[..];
  }

  method HsFixupCrossbar(fdt: Fdt) returns (ret: Status)
    modifies fdt
    ensures Step(fdt.tree, ret) == CrossbarEffect(old(fdt.tree), fdt.faults)
  {
    ret := fdt.IncreaseSize(CROSSBAR_SLACK);
    if ret < 0 {
      return;
    }
    var offs := PathOffset(fdt.tree, CROSSBAR_PATH);
    if offs < 0 {
      return 0;
    }
    var oldCells := ExistingSkipList(fdt.tree);
    var temp := FillSkipList(oldCells);
    assert temp == HS_IRQ_SKIP + oldCells;
    var _ := fdt.DelProp(CROSSBAR_PATH, IRQS_SKIP);
    ret := fdt.SetProp(CROSSBAR_PATH, IRQS_SKIP, Cells(temp));
    if ret < 0 {
      return;
    }
    return 0;
  }

  // ----- RNG -----

  predicate RngOk(nodes: set<Path>, f: Faults)
  {
    RNG_PATH in nodes ==> Writable(nodes, f, RNG_PATH, STATUS)
  }

  predicate RngDone(t: Tree, u: Tree)
  {
    RNG_PATH in t ==> RNG_PATH in u && STATUS in u[RNG_PATH] && u[RNG_PATH][STATUS] == Str(DISABLED)
  }

  /** What ft_hs_disable_rng leaves behind and returns. */
  function RngEffect(t: Tree, f: Faults): (r: Step)
    ensures SameExcept(t, r.tree, RNG_PATH, STATUS)
    ensures r.ret == 0 <==> RngOk(t.Keys, f)
    ensures r.ret == 0 && RNG_PATH in t ==>
      STATUS in r.tree[RNG_PATH] && r.tree[RNG_PATH][STATUS] == Str("disabled")
    ensures r.ret < 0 || RNG_PATH !in t ==> r.tree == t
    ensures r.ret < 0 ==> RNG_PATH in t && r.ret == f.refused[(RNG_PATH, STATUS)]
  {
    if RNG_PATH !in t then Step(t, 0)
    else AfterSetProp(t, f, RNG_PATH, STATUS, Str(DISABLED))
  }

  method HsDisableRng(fdt: Fdt) returns (ret: Status)
    modifies fdt
    ensures Step(fdt.tree, ret) == RngEffect(old(fdt.tree), fdt.faults)
  {
    var offs := PathOffset(fdt.tree, RNG_PATH);
    if offs < 0 {
      return 0;
    }
    ret := fdt.SetProp(RNG_PATH, STATUS, Str(DISABLED));
    if ret < 0 {
      return;
    }
    return 0;
  }

  // ----- SRAM -----

  predicate SramOk(nodes: set<Path>, f: Faults, cfg: SecureConfig)
  {
    SramReserved(cfg) && SRAM_HS_PATH in nodes ==> Writable(nodes, f, SRAM_HS_PATH, REG)
  }

  /** `u` reserves [0, max(boot, run)) of OCMC RAM at the SRAM node, when the fixup is compiled in. */
  predicate SramDone(t: Tree, u: Tree, cfg: SecureConfig)
  {
    SramReserved(cfg) && SRAM_HS_PATH in t ==>
      && SRAM_HS_PATH in u
      && REG in u[SRAM_HS_PATH]
      && u[SRAM_HS_PATH][REG] == Cells([0, Max(cfg.bootSram, cfg.runSram)])
  }

  /** What ft_hs_fixup_sram leaves behind and returns. */
  function SramEffect(t: Tree, f: Faults, cfg: SecureConfig): (r: Step)
    ensures SameExcept(t, r.tree, SRAM_HS_PATH, REG)
    ensures !SramReserved(cfg) || SRAM_HS_PATH !in t ==> r == Step(t, 0)
    ensures r.ret == 0 <==> SramOk(t.Keys, f, cfg)
    ensures r.ret == 0 && SramReserved(cfg) && SRAM_HS_PATH in t ==>
      && REG in r.tree[SRAM_HS_PATH]
      && r.tree[SRAM_HS_PATH][REG].Cells?
      && var reg := r.tree[SRAM_HS_PATH][REG].cells;
      && |reg| == 2
      && reg[0] == 0
      && reg[1] >= cfg.bootSram && reg[1] >= cfg.runSram
      && (reg[1] == cfg.bootSram || reg[1] == cfg.runSram)
    ensures r.ret < 0 ==>
      && SRAM_HS_PATH in t
      && r.ret == f.refused[(SRAM_HS_PATH, REG)]
      && REG !in r.tree[SRAM_HS_PATH]
  {
    if !SramReserved(cfg) || SRAM_HS_PATH !in t then Step(t, 0)
    else
      var cleared := AfterDelProp(t, SRAM_HS_PATH, REG);
      AfterSetProp(cleared, f, SRAM_HS_PATH, REG, Cells([0, Max(cfg.bootSram, cfg.runSram)]))
  }

  method HsFixupSram(fdt: Fdt, cfg: SecureConfig) returns (ret: Status)
    modifies fdt
    ensures Step(fdt.tree, ret) == SramEffect(old(fdt.tree), fdt.faults, cfg)
  {
    if !SramReserved(cfg) {
      // the stub compiled when neither reservation is configured
      return 0;
    }
    var offs := PathOffset(fdt.tree, SRAM_HS_PATH);
    if offs < 0 {
      return 0;
    }
    var temp := [0, Max(cfg.bootSram, cfg.runSram)];
    var _ := fdt.DelProp(SRAM_HS_PATH, REG);
    ret := fdt.SetProp(SRAM_HS_PATH, REG, Cells(temp));
    if ret < 0 {
      return;
    }
    return 0;
  }

  // ----- orchestration -----

  /** What ft_hs_fixups leaves behind, and whether it returns or hangs. */
  function HsEffect(t: Tree, f: Faults, cfg: SecureConfig, device: DeviceType): (r: Run)
    ensures !cfg.secureDevice ==> r == Run(t, Returned)
    ensures cfg.secureDevice && device == GpDevice ==> r == Run(t, Halted)
    ensures r.outcome == Returned <==>
      !cfg.secureDevice ||
      (device != GpDevice && CrossbarOk(t.Keys, f) && RngOk(t.Keys, f) && SramOk(t.Keys, f, cfg))
    ensures cfg.secureDevice && r.outcome == Returned ==>
      CrossbarDone(t, r.tree) && RngDone(t, r.tree) && SramDone(t, r.tree, cfg)
    ensures r.tree.Keys == t.Keys
    ensures forall p :: p in t && p != CROSSBAR_PATH && p != RNG_PATH && p != SRAM_HS_PATH ==> r.tree[p] == t[p]
    // inside the three secure nodes, only the property each fixup writes can change
    ensures CROSSBAR_PATH in t ==> r.tree[CROSSBAR_PATH] - {IRQS_SKIP} == t[CROSSBAR_PATH] - {IRQS_SKIP}
    ensures RNG_PATH in t ==> r.tree[RNG_PATH] - {STATUS} == t[RNG_PATH] - {STATUS}
    ensures SRAM_HS_PATH in t ==> r.tree[SRAM_HS_PATH] - {REG} == t[SRAM_HS_PATH] - {REG}
    // the SRAM stub leaves the SRAM node alone
    ensures !SramReserved(cfg) && SRAM_HS_PATH in t ==> r.tree[SRAM_HS_PATH] == t[SRAM_HS_PATH]
    // the fixups run in order and stop at the first failure
    ensures !CrossbarOk(t.Keys, f) ==>
      && (RNG_PATH in t ==> r.tree[RNG_PATH] == t[RNG_PATH])
      && (SRAM_HS_PATH in t ==> r.tree[SRAM_HS_PATH] == t[SRAM_HS_PATH])
    ensures !RngOk(t.Keys, f) ==> (SRAM_HS_PATH in t ==> r.tree[SRAM_HS_PATH] == t[SRAM_HS_PATH])
  {
    if !cfg.secureDevice then Run(t, Returned)
    else if device == GpDevice then Run(t, Halted)
    else
      var c := CrossbarEffect(t, f);
      if c.ret != 0 then Run(c.tree, Halted)
      else
        var g := RngEffect(c.tree, f);
        if g.ret != 0 then Run(g.tree, Halted)
        else
          var s := SramEffect(g.tree, f, cfg);
          if s.ret != 0 then Run(s.tree, Halted) else Run(s.tree, Returned)
  }

  method HsFixups(fdt: Fdt, cfg: SecureConfig, device: DeviceType) returns (outcome: Outcome)
    modifies fdt
    ensures Run(fdt.tree, outcome) == HsEffect(old(fdt.tree), fdt.faults, cfg, device)
  {
    if !cfg.secureDevice {
      // the empty ft_hs_fixups of a non-secure build
      return Returned;
    }
    if device != GpDevice {
      var ret := HsFixupCrossbar(fdt);
      if ret == 0 {
        ret := HsDisableRng(fdt);
        if ret == 0 {
          ret := HsFixupSram(fdt, cfg);
          if ret == 0 {
            return Returned;
          }
        }
      }
    }
    // a fixup failed, or a general-purpose part runs a secure build: hang()
    return Halted;
  }
}
