/**
 * ft_cpu_setup: the SoC-level device-tree fixups run once, just before the
 * kernel is booted. The secure fixups come first; if they hang the boot,
 * nothing else happens, otherwise the clock fixups follow.
 */
module Omap5Setup {
  import opened FdtStore
  import opened SecureFixups
  import opened ClockFixups

  /** The build's configuration, split as the two fixup families use it. */
  datatype Config = Config(secure: SecureConfig, clocks: ClockConfig)

  /** What the hardware reports at run time. */
  datatype Hw = Hw(device: DeviceType, soc: Soc)

  /** The clock node paths, which no secure fixup touches. */
  predicate IsClockNode(p: Path)
  {
    p in DSP_CLK_NAMES || p in IVA_CLK_NAMES
  }

  /** The secure fixups' three nodes are none of the clock nodes. */
  lemma SecureNodesAreNotClockNodes()
    ensures !IsClockNode(CROSSBAR_PATH) && !IsClockNode(RNG_PATH) && !IsClockNode(SRAM_HS_PATH)
  {
  }

  /** What ft_cpu_setup leaves behind, and whether the boot goes on. */
  function SetupEffect(t: Tree, f: Faults, cfg: Config, hw: Hw): (r: Run)
    ensures r.outcome == HsEffect(t, f, cfg.secure, hw.device).outcome
    ensures r.tree.Keys == t.Keys
    ensures cfg.secure.secureDevice && hw.device == GpDevice ==> r == Run(t, Halted)
    ensures !cfg.secure.secureDevice ==> r == Run(OppEffect(t, f, cfg.clocks, hw.soc), Returned)
    // a hang comes before any clock fixup
    ensures r.outcome == Halted ==> r == HsEffect(t, f, cfg.secure, hw.device)
    // a boot that goes on runs the clock fixups over the secured tree
    ensures r.outcome == Returned ==>
      r.tree == OppEffect(HsEffect(t, f, cfg.secure, hw.device).tree, f, cfg.clocks, hw.soc)
    ensures r.outcome == Halted ==> forall p :: p in t && IsClockNode(p) ==> r.tree[p] == t[p]
  {
    SecureNodesAreNotClockNodes();
    var hs := HsEffect(t, f, cfg.secure, hw.device);
    if hs.outcome == Halted then hs
    else Run(OppEffect(hs.tree, f, cfg.clocks, hw.soc), Returned)
  }

  /**
   * When a secure build boots on, the clock fixups have left the crossbar
   * skip list, the disabled RNG and the SRAM reservation in place, whatever
   * happened to the clock writes.
   */
  lemma SetupKeepsSecure(t: Tree, f: Faults, cfg: Config, hw: Hw)
    ensures
      var r := SetupEffect(t, f, cfg, hw);
      cfg.secure.secureDevice && r.outcome == Returned ==>
        CrossbarDone(t, r.tree) && RngDone(t, r.tree) && SramDone(t, r.tree, cfg.secure)
  {
    var hs := HsEffect(t, f, cfg.secure, hw.device);
    if hs.outcome == Returned {
      OppFrame(hs.tree, f, cfg.clocks, hw.soc);
      SecureNodesAreNotClockNodes();
    }
  }

  /**
   * ft_cpu_setup changes nothing but `ti,irqs-skip` at the crossbar,
   * `status` at the RNG, `reg` at the SRAM node and `assigned-clock-rates`
   * at the five clock nodes.
   */
  lemma SetupFrame(t: Tree, f: Faults, cfg: Config, hw: Hw)
    ensures
      var u := SetupEffect(t, f, cfg, hw).tree;
      && (forall p :: p in t && !IsClockNode(p) && p != CROSSBAR_PATH && p != RNG_PATH && p != SRAM_HS_PATH ==>
            u[p] == t[p])
      && (CROSSBAR_PATH in t ==> u[CROSSBAR_PATH] - {IRQS_SKIP} == t[CROSSBAR_PATH] - {IRQS_SKIP})
      && (RNG_PATH in t ==> u[RNG_PATH] - {STATUS} == t[RNG_PATH] - {STATUS})
      && (SRAM_HS_PATH in t ==> u[SRAM_HS_PATH] - {REG} == t[SRAM_HS_PATH] - {REG})
      && (!SramReserved(cfg.secure) && SRAM_HS_PATH in t ==> u[SRAM_HS_PATH] == t[SRAM_HS_PATH])
      && (forall p :: p in t && IsClockNode(p) ==> u[p] - {ASSIGNED_CLOCK_RATES} == t[p] - {ASSIGNED_CLOCK_RATES})
  {
    var hs := HsEffect(t, f, cfg.secure, hw.device);
    SecureNodesAreNotClockNodes();
    if hs.outcome == Returned {
      OppFrame(hs.tree, f, cfg.clocks, hw.soc);
    }
  }

  /**
   * On a secure build running on an HS or EMU part whose fixups all succeed,
   * and a DRA7 part whose clock nodes all accept their writes, the boot goes
   * on with every fixup in place: the crossbar's skip list, the disabled RNG,
   * the SRAM reservation and the five clock rates.
   */
  lemma SetupAllApplied(t: Tree, f: Faults, cfg: Config, hw: Hw)
    requires cfg.secure.secureDevice && hw.device != GpDevice
    requires CrossbarOk(t.Keys, f) && RngOk(t.Keys, f) && SramOk(t.Keys, f, cfg.secure)
    requires cfg.clocks.dra7Target && (hw.soc.isDra72x || hw.soc.isDra7xx)
    requires AllWritable(t.Keys, f, DSP_CLK_NAMES) && AllWritable(t.Keys, f, IVA_CLK_NAMES)
    ensures
      var r := SetupEffect(t, f, cfg, hw);
      && r.outcome == Returned
      && CrossbarDone(t, r.tree)
      && RngDone(t, r.tree)
      && SramDone(t, r.tree, cfg.secure)
      && HoldsRates(r.tree, DSP_CLK_NAMES, DspRates(cfg.clocks, hw.soc))
      && HoldsRates(r.tree, IVA_CLK_NAMES, IvaRates(SelectOpp(cfg.clocks.ivaOppHigh, cfg.clocks.ivaOppOd)))
  {
    var hs := HsEffect(t, f, cfg.secure, hw.device);
    var u := OppEffect(hs.tree, f, cfg.clocks, hw.soc);
    assert SetupEffect(t, f, cfg, hw) == Run(u, Returned);
    assert HoldsRates(u, DSP_CLK_NAMES, DspRates(cfg.clocks, hw.soc))
        && HoldsRates(u, IVA_CLK_NAMES, IvaRates(SelectOpp(cfg.clocks.ivaOppHigh, cfg.clocks.ivaOppOd)))
    by {
      OppAllWritten(hs.tree, f, cfg.clocks, hw.soc);
    }
    assert forall p :: p in t && !IsClockNode(p) ==> u[p] == hs.tree[p] by {
      OppFrame(hs.tree, f, cfg.clocks, hw.soc);
    }
    SecureNodesAreNotClockNodes();
  }

  method CpuSetup(fdt: Fdt, cfg: Config, hw: Hw) returns (outcome: Outcome)
    modifies fdt
    ensures Run(fdt.tree, outcome) == SetupEffect(old(fdt.tree), fdt.faults, cfg, hw)
  {
    outcome := HsFixups(fdt, cfg.secure, hw.device);
    if outcome == Halted {
      // hang() does not return
      return;
    }
    OppClockFixups(fdt, cfg.clocks, hw.soc);
  }
}
