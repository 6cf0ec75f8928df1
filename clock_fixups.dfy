/**
 * Clock-rate fixups for the DSP and IVA voltage domains of DRA7xx/AM57xx
 * boards: each clock node of a domain gets a single-cell
 * `assigned-clock-rates` property from a rate table picked by SoC variant and
 * by the build's operating point (OPP). Failures here are logged and skipped,
 * never fatal.
 */
module ClockFixups {
  import opened FdtStore

  const ASSIGNED_CLOCK_RATES: Name := "assigned-clock-rates"

  const OPP_DSP_CLK_NUM: nat := 3
  const OPP_IVA_CLK_NUM: nat := 2

  const DSP_CLK_NAMES: seq<Path> := [
    "/ocp/l4@4a000000/cm_core_aon@5000/clocks/dpll_dsp_ck",
    "/ocp/l4@4a000000/cm_core_aon@5000/clocks/dpll_dsp_m2_ck",
    "/ocp/l4@4a000000/cm_core_aon@5000/clocks/dpll_dsp_m3x2_ck"
  ]

  const IVA_CLK_NAMES: seq<Path> := [
    "/ocp/l4@4a000000/cm_core_aon@5000/clocks/dpll_iva_ck",
    "/ocp/l4@4a000000/cm_core_aon@5000/clocks/dpll_iva_m2_ck"
  ]

  /** Operating points a voltage domain can be built for. */
  datatype Opp = OppNom | OppOd | OppHigh

  /**
   * Build-time choices: whether the target is a DRA7xx or AM57xx EVM, and the
   * OPP_HIGH / OPP_OD selectors of the DSPEVE and IVA domains.
   */
  datatype ClockConfig = ClockConfig(
    dra7Target: bool,
    dspeveOppHigh: bool, dspeveOppOd: bool,
    ivaOppHigh: bool, ivaOppOd: bool)

  /** The SoC variant, as the hardware reports it. */
  datatype Soc = Soc(isDra72x: bool, isDra7xx: bool)

  /** The #if / #elif / #else chain: OPP_HIGH wins over OPP_OD, nominal otherwise. */
  function SelectOpp(high: bool, od: bool): (opp: Opp)
  {
    if high then OppHigh else if od then OppOd else OppNom
  }

  function Dra752DspRates(opp: Opp): (r: seq<u32>)
    ensures |r| == OPP_DSP_CLK_NUM
  {
    match opp
    case OppHigh => [750000000, 750000000, 500000000]
    case OppOd => [700000000, 700000000, 466666667]
    case OppNom => [600000000, 600000000, 400000000]
  }

  function Dra722DspRates(opp: Opp): (r: seq<u32>)
    ensures |r| == OPP_DSP_CLK_NUM
  {
    match opp
    case OppHigh => [700000000, 700000000, 466666667]
    case OppOd => [700000000, 700000000, 466666667]
    case OppNom => [600000000, 600000000, 400000000]
  }

  function IvaRates(opp: Opp): (r: seq<u32>)
    ensures |r| == OPP_IVA_CLK_NUM
  {
    match opp
    case OppHigh => [1064000000, 532000000]
    case OppOd => [860000000, 430000000]
    case OppNom => [1165000000, 388333334]
  }

  /** The DSP rate table: the dra722 one on a DRA72x, the dra752 one otherwise. */
  function DspRates(cfg: ClockConfig, soc: Soc): (r: seq<u32>)
    ensures |r| == OPP_DSP_CLK_NUM
  {
    var opp := SelectOpp(cfg.dspeveOppHigh, cfg.dspeveOppOd);
    if soc.isDra72x then Dra722DspRates(opp) else Dra752DspRates(opp)
  }

  // ----- the generic clock loop -----

  /** What ft_fixup_clocks leaves behind and returns, over the first |paths| entries. */
  function ClocksEffect(t: Tree, f: Faults, paths: seq<Path>, rates: seq<u32>): (r: Step)
    requires |paths| == |rates|
    ensures r.tree.Keys == t.Keys
    decreases |paths|
  {
    if paths == [] then Step(t, 0)
    else if paths[0] !in t then Step(t, -FDT_ERR_NOTFOUND)
    else
      var s := AfterSetProp(t, f, paths[0], ASSIGNED_CLOCK_RATES, Cells([rates[0]]));
      if s.ret < 0 then s
      else ClocksEffect(s.tree, f, paths[1..], rates[1..])
  }

  /** The index of the first path that is missing or whose write is refused; |paths| if none. */
  function FirstFailure(nodes: set<Path>, f: Faults, paths: seq<Path>): (k: nat)
    ensures k <= |paths|
    ensures forall i :: 0 <= i < k ==> Writable(nodes, f, paths[i], ASSIGNED_CLOCK_RATES)
    ensures k < |paths| ==> !Writable(nodes, f, paths[k], ASSIGNED_CLOCK_RATES)
  {
    if paths == [] || !Writable(nodes, f, paths[0], ASSIGNED_CLOCK_RATES) then 0
    else 1 + FirstFailure(nodes, f, paths[1..])
  }

  /** The code a failing path produces: not-found for a missing node, else the refused write's error. */
  function ClockError(nodes: set<Path>, f: Faults, path: Path): (e: Error)
    requires !Writable(nodes, f, path, ASSIGNED_CLOCK_RATES)
  {
    if path !in nodes then -FDT_ERR_NOTFOUND else f.refused[(path, ASSIGNED_CLOCK_RATES)]
  }

  /** The loop returns 0 exactly when no index fails, and otherwise the first failing index's code. */
  lemma {:induction false} ClocksStatus(t: Tree, f: Faults, paths: seq<Path>, rates: seq<u32>)
    requires |paths| == |rates|
    ensures
      var k := FirstFailure(t.Keys, f, paths);
      var r := ClocksEffect(t, f, paths, rates);
      && (r.ret == 0 <==> k == |paths|)
      && (k < |paths| ==> r.ret == ClockError(t.Keys, f, paths[k]))
  {
    if paths != [] && Writable(t.Keys, f, paths[0], ASSIGNED_CLOCK_RATES) {
      var s := AfterSetProp(t, f, paths[0], ASSIGNED_CLOCK_RATES, Cells([rates[0]]));
      ClocksStatus(s.tree, f, paths[1..], rates[1..]);
    }
  }

  /** A node the loop did not reach before the first failure is left as it was. */
  lemma {:induction false} ClockNodeUntouched(t: Tree, f: Faults, paths: seq<Path>, rates: seq<u32>, p: Path)
    requires |paths| == |rates|
    requires p in t && p !in paths[..FirstFailure(t.Keys, f, paths)]
    ensures ClocksEffect(t, f, paths, rates).tree[p] == t[p]
  {
    if paths != [] && Writable(t.Keys, f, paths[0], ASSIGNED_CLOCK_RATES) {
      var s := AfterSetProp(t, f, paths[0], ASSIGNED_CLOCK_RATES, Cells([rates[0]]));
      var k := FirstFailure(t.Keys, f, paths);
      assert paths[..k] == [paths[0]] + paths[1..][..k - 1];
      ClockNodeUntouched(s.tree, f, paths[1..], rates[1..], p);
    }
  }

  /** At any node, the loop changes at most `assigned-clock-rates`. */
  lemma {:induction false} ClockNodeOthersKept(t: Tree, f: Faults, paths: seq<Path>, rates: seq<u32>, p: Path)
    requires |paths| == |rates|
    requires p in t
    ensures ClocksEffect(t, f, paths, rates).tree[p] - {ASSIGNED_CLOCK_RATES} == t[p] - {ASSIGNED_CLOCK_RATES}
  {
    if paths != [] && Writable(t.Keys, f, paths[0], ASSIGNED_CLOCK_RATES) {
      var s := AfterSetProp(t, f, paths[0], ASSIGNED_CLOCK_RATES, Cells([rates[0]]));
      ClockNodeOthersKept(s.tree, f, paths[1..], rates[1..], p);
    }
  }

  /**
   * The loop touches nothing but `assigned-clock-rates`, and only at the
   * nodes it reached before the first failure.
   */
  lemma ClocksUntouched(t: Tree, f: Faults, paths: seq<Path>, rates: seq<u32>)
    requires |paths| == |rates|
    ensures
      var k := FirstFailure(t.Keys, f, paths);
      var u := ClocksEffect(t, f, paths, rates).tree;
      && (forall p :: p in t && p !in paths[..k] ==> u[p] == t[p])
      && (forall p :: p in t ==> u[p] - {ASSIGNED_CLOCK_RATES} == t[p] - {ASSIGNED_CLOCK_RATES})
  {
    forall p | p in t && p !in paths[..FirstFailure(t.Keys, f, paths)]
      ensures ClocksEffect(t, f, paths, rates).tree[p] == t[p]
    {
      ClockNodeUntouched(t, f, paths, rates, p);
    }
    forall p | p in t
      ensures ClocksEffect(t, f, paths, rates).tree[p] - {ASSIGNED_CLOCK_RATES} == t[p] - {ASSIGNED_CLOCK_RATES}
    {
      ClockNodeOthersKept(t, f, paths, rates, p);
    }
  }

  /** A slice of a sequence's tail is the shifted slice of the sequence. */
  lemma TailSlice(s: seq<Path>, i: nat, k: nat)
    requires 1 <= i < k <= |s|
    ensures s[1..][i..k - 1] == s[i + 1..k]
  {
  }

  /**
   * Before the first failure, a node written for the last time at index `i`
   * holds the rate of index `i`.
   */
  lemma {:induction false} ClockWrittenAt(t: Tree, f: Faults, paths: seq<Path>, rates: seq<u32>, i: nat)
    requires |paths| == |rates|
    requires i < FirstFailure(t.Keys, f, paths)
    requires paths[i] !in paths[i + 1..FirstFailure(t.Keys, f, paths)]
    ensures
      var u := ClocksEffect(t, f, paths, rates).tree;
      ASSIGNED_CLOCK_RATES in u[paths[i]] && u[paths[i]][ASSIGNED_CLOCK_RATES] == Cells([rates[i]])
  {
    var s := AfterSetProp(t, f, paths[0], ASSIGNED_CLOCK_RATES, Cells([rates[0]]));
    var k := FirstFailure(t.Keys, f, paths);
    if i == 0 {
      assert paths[1..][..k - 1] == paths[1..k];
      ClockNodeUntouched(s.tree, f, paths[1..], rates[1..], paths[0]);
    } else {
      assert paths[1..][i - 1] == paths[i];
      TailSlice(paths, i, k);
      ClockWrittenAt(s.tree, f, paths[1..], rates[1..], i - 1);
    }
  }

  /**
   * Before the first failure, every node written for the last time holds the
   * rate of its index, in order.
   */
  lemma ClocksWritten(t: Tree, f: Faults, paths: seq<Path>, rates: seq<u32>)
    requires |paths| == |rates|
    ensures
      var k := FirstFailure(t.Keys, f, paths);
      var u := ClocksEffect(t, f, paths, rates).tree;
      forall i :: 0 <= i < k && paths[i] !in paths[i + 1..k] ==>
        ASSIGNED_CLOCK_RATES in u[paths[i]] && u[paths[i]][ASSIGNED_CLOCK_RATES] == Cells([rates[i]])
  {
    forall i | 0 <= i < FirstFailure(t.Keys, f, paths) && paths[i] !in paths[i + 1..FirstFailure(t.Keys, f, paths)]
      ensures
        var u := ClocksEffect(t, f, paths, rates).tree;
        ASSIGNED_CLOCK_RATES in u[paths[i]] && u[paths[i]][ASSIGNED_CLOCK_RATES] == Cells([rates[i]])
    {
      ClockWrittenAt(t, f, paths, rates, i);
    }
  }

  /** Every path exists and accepts the write. */
  predicate AllWritable(nodes: set<Path>, f: Faults, paths: seq<Path>)
  {
    forall i :: 0 <= i < |paths| ==> Writable(nodes, f, paths[i], ASSIGNED_CLOCK_RATES)
  }

  /** No path is listed twice. */
  predicate NoRepeats(paths: seq<Path>)
  {
    forall i :: 0 <= i < |paths| ==> paths[i] !in paths[i + 1..]
  }

  /** Each node of `paths` holds the single-cell rate of its index. */
  predicate HoldsRates(u: Tree, paths: seq<Path>, rates: seq<u32>)
    requires |paths| == |rates|
  {
    forall i :: 0 <= i < |paths| ==>
      && paths[i] in u
      && ASSIGNED_CLOCK_RATES in u[paths[i]]
      && u[paths[i]][ASSIGNED_CLOCK_RATES] == Cells([rates[i]])
  }

  /**
   * When every path exists, accepts the write and is listed once, the loop
   * returns 0 and every node holds the rate of its index.
   */
  lemma ClocksAllWritten(t: Tree, f: Faults, paths: seq<Path>, rates: seq<u32>)
    requires |paths| == |rates|
    requires AllWritable(t.Keys, f, paths) && NoRepeats(paths)
    ensures
      var r := ClocksEffect(t, f, paths, rates);
      r.ret == 0 && HoldsRates(r.tree, paths, rates)
  {
    var k := FirstFailure(t.Keys, f, paths);
    ClocksStatus(t, f, paths, rates);
    ClocksWritten(t, f, paths, rates);
    assert paths[..k] == paths;
  }

  method FixupClocks(fdt: Fdt, paths: seq<Path>, rates: seq<u32>, num: nat) returns (ret: Status)
    requires num <= |paths| && num <= |rates|
    modifies fdt
    ensures Step(fdt.tree, ret) == ClocksEffect(old(fdt.tree), fdt.faults, paths[..num], rates[..num])
  {
    for i := 0 to num
      invariant ClocksEffect(fdt.tree, fdt.faults, paths[i..num], rates[i..num])
             == ClocksEffect(old(fdt.tree), fdt.faults, paths[..num], rates[..num])
    {
      var offs := PathOffset(fdt.tree, paths[i]);
      if offs < 0 {
        return offs;
      }
      ret := fdt.SetProp(paths[i], ASSIGNED_CLOCK_RATES, Cells([rates[i]]));
      if ret < 0 {
        return;
      }
      assert paths[i..num][1..] == paths[i + 1..num];
      assert rates[i..num][1..] == rates[i + 1..num];
    }
    return 0;
  }

  // ----- the OPP orchestrator -----

  /** One voltage domain, then, only if it succeeded, a second one; a failure is not reported further. */
  function TwoDomainsEffect(t: Tree, f: Faults, firstPaths: seq<Path>, firstRates: seq<u32>,
                            secondPaths: seq<Path>, secondRates: seq<u32>): (u: Tree)
    requires |firstPaths| == |firstRates| && |secondPaths| == |secondRates|
    ensures u.Keys == t.Keys
  {
    var first := ClocksEffect(t, f, firstPaths, firstRates);
    if first.ret != 0 then first.tree
    else ClocksEffect(first.tree, f, secondPaths, secondRates).tree
  }

  /**
   * Both domains fully writable and sharing no node: every node of each
   * domain holds its rate.
   */
  lemma TwoDomainsAllWritten(t: Tree, f: Faults, firstPaths: seq<Path>, firstRates: seq<u32>,
                             secondPaths: seq<Path>, secondRates: seq<u32>)
    requires |firstPaths| == |firstRates| && |secondPaths| == |secondRates|
    requires AllWritable(t.Keys, f, firstPaths) && NoRepeats(firstPaths)
    requires AllWritable(t.Keys, f, secondPaths) && NoRepeats(secondPaths)
    requires forall p :: p in firstPaths ==> p !in secondPaths
    ensures
      var u := TwoDomainsEffect(t, f, firstPaths, firstRates, secondPaths, secondRates);
      HoldsRates(u, firstPaths, firstRates) && HoldsRates(u, secondPaths, secondRates)
  {
    var first := ClocksEffect(t, f, firstPaths, firstRates);
    ClocksAllWritten(t, f, firstPaths, firstRates);
    ClocksAllWritten(first.tree, f, secondPaths, secondRates);
    ClocksUntouched(first.tree, f, secondPaths, secondRates);
    var u := ClocksEffect(first.tree, f, secondPaths, secondRates).tree;
    forall i | 0 <= i < |firstPaths|
      ensures u[firstPaths[i]] == first.tree[firstPaths[i]]
    {
      assert firstPaths[i] in firstPaths;
      assert secondPaths[..FirstFailure(first.tree.Keys, f, secondPaths)] <= secondPaths;
    }
  }

  /**
   * When the first domain fails, the second is not attempted: its nodes are
   * left as they were, and the first domain's nodes before the failing one
   * hold their rates.
   */
  lemma FirstDomainFails(t: Tree, f: Faults, firstPaths: seq<Path>, firstRates: seq<u32>,
                         secondPaths: seq<Path>, secondRates: seq<u32>)
    requires |firstPaths| == |firstRates| && |secondPaths| == |secondRates|
    requires NoRepeats(firstPaths) && !AllWritable(t.Keys, f, firstPaths)
    requires forall p :: p in firstPaths ==> p !in secondPaths
    ensures
      var u := TwoDomainsEffect(t, f, firstPaths, firstRates, secondPaths, secondRates);
      var k := FirstFailure(t.Keys, f, firstPaths);
      && k < |firstPaths|
      && (forall p :: p in secondPaths && p in t ==> u[p] == t[p])
      && HoldsRates(u, firstPaths[..k], firstRates[..k])
  {
    var k := FirstFailure(t.Keys, f, firstPaths);
    ClocksStatus(t, f, firstPaths, firstRates);
    ClocksWritten(t, f, firstPaths, firstRates);
    ClocksUntouched(t, f, firstPaths, firstRates);
    var u := ClocksEffect(t, f, firstPaths, firstRates).tree;
    forall p | p in secondPaths && p in t
      ensures u[p] == t[p]
    {
      assert firstPaths[..k] <= firstPaths;
    }
    forall i | 0 <= i < k
      ensures firstPaths[i] !in firstPaths[i + 1..k]
    {
      assert firstPaths[i + 1..k] <= firstPaths[i + 1..];
    }
  }

  /** In a list without repeats, a path at or after index `k` is not among the first `k`. */
  lemma LaterNotInPrefix(paths: seq<Path>, k: nat, j: nat)
    requires NoRepeats(paths) && k <= j < |paths|
    ensures paths[j] !in paths[..k]
  {
    forall i | 0 <= i < k
      ensures paths[i] != paths[j]
    {
      assert paths[j] == paths[i + 1..][j - i - 1];
    }
  }

  /**
   * After a fully written first domain, the second domain's nodes from its
   * first failure on are left as they were.
   */
  lemma SecondDomainRestUntouched(t: Tree, f: Faults, firstPaths: seq<Path>, firstRates: seq<u32>,
                                  secondPaths: seq<Path>, secondRates: seq<u32>)
    requires |firstPaths| == |firstRates| && |secondPaths| == |secondRates|
    requires AllWritable(t.Keys, f, firstPaths) && NoRepeats(secondPaths)
    requires forall p :: p in firstPaths ==> p !in secondPaths
    ensures
      var u := TwoDomainsEffect(t, f, firstPaths, firstRates, secondPaths, secondRates);
      var k := FirstFailure(t.Keys, f, secondPaths);
      forall j :: k <= j < |secondPaths| && secondPaths[j] in t ==> u[secondPaths[j]] == t[secondPaths[j]]
  {
    var first := ClocksEffect(t, f, firstPaths, firstRates);
    ClocksStatus(t, f, firstPaths, firstRates);
    assert FirstFailure(t.Keys, f, firstPaths) == |firstPaths|;
    assert firstPaths[..|firstPaths|] == firstPaths;
    var k := FirstFailure(first.tree.Keys, f, secondPaths);
    forall j | k <= j < |secondPaths| && secondPaths[j] in t
      ensures TwoDomainsEffect(t, f, firstPaths, firstRates, secondPaths, secondRates)[secondPaths[j]]
           == t[secondPaths[j]]
    {
      LaterNotInPrefix(secondPaths, k, j);
      assert secondPaths[j] in secondPaths;
      ClockNodeUntouched(t, f, firstPaths, firstRates, secondPaths[j]);
      ClockNodeUntouched(first.tree, f, secondPaths, secondRates, secondPaths[j]);
    }
  }

  /** A fully written first domain keeps its rates through a second domain it shares no node with. */
  lemma SecondDomainKeepsFirst(t: Tree, f: Faults, firstPaths: seq<Path>, firstRates: seq<u32>,
                               secondPaths: seq<Path>, secondRates: seq<u32>)
    requires |firstPaths| == |firstRates| && |secondPaths| == |secondRates|
    requires AllWritable(t.Keys, f, firstPaths) && NoRepeats(firstPaths)
    requires forall p :: p in firstPaths ==> p !in secondPaths
    ensures HoldsRates(TwoDomainsEffect(t, f, firstPaths, firstRates, secondPaths, secondRates), firstPaths, firstRates)
  {
    var first := ClocksEffect(t, f, firstPaths, firstRates);
    ClocksAllWritten(t, f, firstPaths, firstRates);
    var k := FirstFailure(first.tree.Keys, f, secondPaths);
    var u := ClocksEffect(first.tree, f, secondPaths, secondRates).tree;
    forall i | 0 <= i < |firstPaths|
      ensures u[firstPaths[i]] == first.tree[firstPaths[i]]
    {
      assert firstPaths[i] in firstPaths;
      assert secondPaths[..k] <= secondPaths;
      ClockNodeUntouched(first.tree, f, secondPaths, secondRates, firstPaths[i]);
    }
  }

  /** After a fully written first domain, the second domain's nodes before its first failure hold their rates. */
  lemma SecondDomainPrefixWritten(t: Tree, f: Faults, firstPaths: seq<Path>, firstRates: seq<u32>,
                                  secondPaths: seq<Path>, secondRates: seq<u32>)
    requires |firstPaths| == |firstRates| && |secondPaths| == |secondRates|
    requires AllWritable(t.Keys, f, firstPaths) && NoRepeats(secondPaths)
    ensures
      var u := TwoDomainsEffect(t, f, firstPaths, firstRates, secondPaths, secondRates);
      var k := FirstFailure(t.Keys, f, secondPaths);
      HoldsRates(u, secondPaths[..k], secondRates[..k])
  {
    var first := ClocksEffect(t, f, firstPaths, firstRates);
    ClocksStatus(t, f, firstPaths, firstRates);
    var k := FirstFailure(first.tree.Keys, f, secondPaths);
    ClocksWritten(first.tree, f, secondPaths, secondRates);
    forall i | 0 <= i < k
      ensures secondPaths[i] !in secondPaths[i + 1..k]
    {
      assert secondPaths[i + 1..k] <= secondPaths[i + 1..];
    }
  }

  /**
   * When the first domain succeeds and the second fails at index `k`, every
   * node of the first domain keeps its rate. The second domain's nodes before
   * `k` hold their rates, and its nodes from `k` on are left as they were.
   */
  lemma SecondDomainFails(t: Tree, f: Faults, firstPaths: seq<Path>, firstRates: seq<u32>,
                          secondPaths: seq<Path>, secondRates: seq<u32>)
    requires |firstPaths| == |firstRates| && |secondPaths| == |secondRates|
    requires AllWritable(t.Keys, f, firstPaths) && NoRepeats(firstPaths)
    requires NoRepeats(secondPaths) && !AllWritable(t.Keys, f, secondPaths)
    requires forall p :: p in firstPaths ==> p !in secondPaths
    ensures
      var u := TwoDomainsEffect(t, f, firstPaths, firstRates, secondPaths, secondRates);
      var k := FirstFailure(t.Keys, f, secondPaths);
      && k < |secondPaths|
      && HoldsRates(u, firstPaths, firstRates)
      && HoldsRates(u, secondPaths[..k], secondRates[..k])
      && (forall j :: k <= j < |secondPaths| && secondPaths[j] in t ==> u[secondPaths[j]] == t[secondPaths[j]])
  {
    SecondDomainKeepsFirst(t, f, firstPaths, firstRates, secondPaths, secondRates);
    SecondDomainPrefixWritten(t, f, firstPaths, firstRates, secondPaths, secondRates);
    SecondDomainRestUntouched(t, f, firstPaths, firstRates, secondPaths, secondRates);
  }

  /** What ft_opp_clock_fixups leaves behind: the DSP domain, then the IVA domain, on DRA7 parts only. */
  function OppEffect(t: Tree, f: Faults, cfg: ClockConfig, soc: Soc): (u: Tree)
    ensures !cfg.dra7Target || (!soc.isDra72x && !soc.isDra7xx) ==> u == t
    ensures u.Keys == t.Keys
  {
    if !cfg.dra7Target || (!soc.isDra72x && !soc.isDra7xx) then t
    else TwoDomainsEffect(t, f, DSP_CLK_NAMES, DspRates(cfg, soc),
                          IVA_CLK_NAMES, IvaRates(SelectOpp(cfg.ivaOppHigh, cfg.ivaOppOd)))
  }

  /** No clock node is listed twice, and the two domains share none. */
  lemma ClockNodesDistinct()
    ensures NoRepeats(DSP_CLK_NAMES) && NoRepeats(IVA_CLK_NAMES)
    ensures forall p :: p in DSP_CLK_NAMES ==> p !in IVA_CLK_NAMES
  {
  }

  /** The two domains change only `assigned-clock-rates`, and only at their own nodes. */
  lemma TwoDomainsFrame(t: Tree, f: Faults, firstPaths: seq<Path>, firstRates: seq<u32>,
                        secondPaths: seq<Path>, secondRates: seq<u32>)
    requires |firstPaths| == |firstRates| && |secondPaths| == |secondRates|
    ensures
      var u := TwoDomainsEffect(t, f, firstPaths, firstRates, secondPaths, secondRates);
      && (forall p :: p in t ==> u[p] - {ASSIGNED_CLOCK_RATES} == t[p] - {ASSIGNED_CLOCK_RATES})
      && (forall p :: p in t && p !in firstPaths && p !in secondPaths ==> u[p] == t[p])
  {
    var first := ClocksEffect(t, f, firstPaths, firstRates);
    ClocksUntouched(t, f, firstPaths, firstRates);
    assert firstPaths[..FirstFailure(t.Keys, f, firstPaths)] <= firstPaths;
    if first.ret == 0 {
      ClocksUntouched(first.tree, f, secondPaths, secondRates);
      assert secondPaths[..FirstFailure(first.tree.Keys, f, secondPaths)] <= secondPaths;
    }
  }

  /** The orchestrator changes only `assigned-clock-rates`, and only at the five clock nodes. */
  lemma OppFrame(t: Tree, f: Faults, cfg: ClockConfig, soc: Soc)
    ensures
      var u := OppEffect(t, f, cfg, soc);
      && (forall p :: p in t ==> u[p] - {ASSIGNED_CLOCK_RATES} == t[p] - {ASSIGNED_CLOCK_RATES})
      && (forall p :: p in t && p !in DSP_CLK_NAMES && p !in IVA_CLK_NAMES ==> u[p] == t[p])
  {
    if cfg.dra7Target && (soc.isDra72x || soc.isDra7xx) {
      TwoDomainsFrame(t, f, DSP_CLK_NAMES, DspRates(cfg, soc),
                      IVA_CLK_NAMES, IvaRates(SelectOpp(cfg.ivaOppHigh, cfg.ivaOppOd)));
    }
  }

  /**
   * On a DRA7 part whose five clock nodes all exist and accept the write,
   * each DSP node holds its rate from the variant's DSP table and each IVA
   * node its rate from the IVA table, index by index.
   */
  lemma OppAllWritten(t: Tree, f: Faults, cfg: ClockConfig, soc: Soc)
    requires cfg.dra7Target && (soc.isDra72x || soc.isDra7xx)
    requires AllWritable(t.Keys, f, DSP_CLK_NAMES) && AllWritable(t.Keys, f, IVA_CLK_NAMES)
    ensures
      var u := OppEffect(t, f, cfg, soc);
      && HoldsRates(u, DSP_CLK_NAMES, DspRates(cfg, soc))
      && HoldsRates(u, IVA_CLK_NAMES, IvaRates(SelectOpp(cfg.ivaOppHigh, cfg.ivaOppOd)))
  {
    ClockNodesDistinct();
    TwoDomainsAllWritten(t, f, DSP_CLK_NAMES, DspRates(cfg, soc),
                         IVA_CLK_NAMES, IvaRates(SelectOpp(cfg.ivaOppHigh, cfg.ivaOppOd)));
  }

  /**
   * When a DSP clock node is missing or refuses the write, the IVA nodes are
   * left as they were; the DSP nodes before the failing one hold their rates.
   */
  lemma OppDspFailureSkipsIva(t: Tree, f: Faults, cfg: ClockConfig, soc: Soc)
    requires cfg.dra7Target && (soc.isDra72x || soc.isDra7xx)
    requires !AllWritable(t.Keys, f, DSP_CLK_NAMES)
    ensures
      var u := OppEffect(t, f, cfg, soc);
      var k := FirstFailure(t.Keys, f, DSP_CLK_NAMES);
      && (forall p :: p in IVA_CLK_NAMES && p in t ==> u[p] == t[p])
      && HoldsRates(u, DSP_CLK_NAMES[..k], DspRates(cfg, soc)[..k])
  {
    ClockNodesDistinct();
    FirstDomainFails(t, f, DSP_CLK_NAMES, DspRates(cfg, soc),
                     IVA_CLK_NAMES, IvaRates(SelectOpp(cfg.ivaOppHigh, cfg.ivaOppOd)));
  }

  /**
   * When every DSP clock node takes its rate but an IVA node is missing or
   * refuses the write, the DSP nodes keep their rates. The IVA nodes before
   * the failing one hold theirs, and the rest are left as they were.
   */
  lemma OppIvaFailureKeepsDsp(t: Tree, f: Faults, cfg: ClockConfig, soc: Soc)
    requires cfg.dra7Target && (soc.isDra72x || soc.isDra7xx)
    requires AllWritable(t.Keys, f, DSP_CLK_NAMES) && !AllWritable(t.Keys, f, IVA_CLK_NAMES)
    ensures
      var u := OppEffect(t, f, cfg, soc);
      var ivaRates := IvaRates(SelectOpp(cfg.ivaOppHigh, cfg.ivaOppOd));
      var k := FirstFailure(t.Keys, f, IVA_CLK_NAMES);
      && HoldsRates(u, DSP_CLK_NAMES, DspRates(cfg, soc))
      && HoldsRates(u, IVA_CLK_NAMES[..k], ivaRates[..k])
      && (forall j :: k <= j < |IVA_CLK_NAMES| && IVA_CLK_NAMES[j] in t ==> u[IVA_CLK_NAMES[j]] == t[IVA_CLK_NAMES[j]])
  {
    ClockNodesDistinct();
    SecondDomainFails(t, f, DSP_CLK_NAMES, DspRates(cfg, soc),
                      IVA_CLK_NAMES, IvaRates(SelectOpp(cfg.ivaOppHigh, cfg.ivaOppOd)));
  }

  method OppClockFixups(fdt: Fdt, cfg: ClockConfig, soc: Soc)
    modifies fdt
    ensures fdt.tree == OppEffect(old(fdt.tree), fdt.faults, cfg, soc)
  {
    if !cfg.dra7Target {
      // the empty ft_opp_clock_fixups of other targets
      return;
    }
    if !soc.isDra72x && !soc.isDra7xx {
      return;
    }
    var clkRates := DspRates(cfg, soc);
    assert DSP_CLK_NAMES[..OPP_DSP_CLK_NUM] == DSP_CLK_NAMES && clkRates[..OPP_DSP_CLK_NUM] == clkRates;
    var ret := FixupClocks(fdt, DSP_CLK_NAMES, clkRates, OPP_DSP_CLK_NUM);
    if ret != 0 {
      return;
    }
    clkRates := IvaRates(SelectOpp(cfg.ivaOppHigh, cfg.ivaOppOd));
    assert IVA_CLK_NAMES[..OPP_IVA_CLK_NUM] == IVA_CLK_NAMES && clkRates[..OPP_IVA_CLK_NUM] == clkRates;
    ret := FixupClocks(fdt, IVA_CLK_NAMES, clkRates, OPP_IVA_CLK_NUM);
    if ret != 0 {
      return;
    }
  }
}
