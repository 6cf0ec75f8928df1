# OMAP5 / DRA7 SoC device-tree fixups

A Dafny model of `arch/arm/cpu/armv7/omap5/fdt.c` from TI's U-Boot tree:
the SoC-level fixups `ft_cpu_setup` applies to the flattened device tree just
before the kernel is booted.

- **Secure fixups** (`SecureFixups`, `secure_fixups.dfy`). On a
  `CONFIG_TI_SECURE_DEVICE` build, `ft_hs_fixups` first checks the device type.
  A general-purpose (GP) part running a secure build hangs. On an HS or EMU
  part it runs three fixups in order:
  - the crossbar fixup prepends interrupts 8, 15 and 118 to the crossbar's
    `ti,irqs-skip` list;
  - the RNG fixup sets the hardware RNG's `status` to `"disabled"`;
  - the SRAM fixup sets `reg` of the OCMC `sram-hs` node to `<0 max(boot, run)>`.

  The run stops at the first fixup that does not return 0, and then the boot
  hangs. A missing node is skipped with status 0.
- **Clock fixups** (`ClockFixups`, `clock_fixups.dfy`). On DRA7xx/AM57xx EVM
  builds running on a DRA72x or DRA7xx part, `ft_opp_clock_fixups` writes a
  single-cell `assigned-clock-rates` to each of the three DSP clock nodes.
  Then, only if that succeeded, it writes the two IVA clock nodes. The rates
  come from tables chosen by the build's operating point (OPP_HIGH, then
  OPP_OD, otherwise nominal) and, for the DSP, by SoC variant.
  `ft_fixup_clocks` stops at the first missing node or refused write.
  Failures are logged and never stop the boot.
- **Orchestration** (`Omap5Setup`, `cpu_setup.dfy`). `ft_cpu_setup` runs the
  secure fixups, then the clock fixups. A hang ends the boot there.

The device tree is abstracted in `FdtStore` (`fdt_store.dfy`) as a map from
node path to properties, where a property is a list of 32-bit cells or a
string. The libfdt calls that change the blob (`fdt_increase_size`, `fdt_delprop`,
`fdt_setprop*`) are methods of a class `Fdt` that holds the tree and edits it
in place. The lookups (`fdt_path_offset`, `fdt_getprop`) are functions over
the tree (`PathOffset`, `GetProp`). Library failures
are determined by a `Faults` value in the store:
- what growing the blob returns;
- which (node, property) writes are refused, and with which negative code.

Every fixup comes twice:
- a method that follows the C statement by statement over the `Fdt` object;
- a pure `...Effect` function over the tree that gives the resulting tree and
  return status.

Each method's postcondition equates the two. The properties are then proved
about the `...Effect` functions as postconditions and lemmas. `hang()` is the
`Halted` outcome. Build options (`CONFIG_*`) and hardware queries
(`get_device_type`, `is_dra72x`, `is_dra7xx`) are parameters: `SecureConfig`,
`ClockConfig`, `DeviceType` and `Soc`.

## Model

| member | source | states |
|---|---|---|
| FdtStore.PathOffset | arch/arm/cpu/armv7/omap5/fdt.c:53-57 | the node lookup is negative exactly when the node is absent |
| FdtStore.GetProp | arch/arm/cpu/armv7/omap5/fdt.c:60 | the lookup finds nothing exactly when the node has no such property, and otherwise returns the property's value |
| FdtStore.Fdt.IncreaseSize | arch/arm/cpu/armv7/omap5/fdt.c:44-49 | growing the blob returns the store's growth status and leaves the tree as it was |
| FdtStore.Fdt.DelProp | arch/arm/cpu/armv7/omap5/fdt.c:77 | the property is gone afterwards; the call reports success exactly when it was present |
| FdtStore.Fdt.SetProp | arch/arm/cpu/armv7/omap5/fdt.c:78-80 | a refused write returns its error with the tree unchanged; otherwise the property holds the new value |
| SecureFixups.Max | arch/arm/cpu/armv7/omap5/fdt.c:139-140 | the reservation size is at least both configured sizes and equals one of them |
| SecureFixups.SramReserved | arch/arm/cpu/armv7/omap5/fdt.c:116-153 | no contract; the body is the definition: the real SRAM fixup is compiled in when the boot or the run reservation is non-zero, and the stub of line 152 otherwise |
| SecureFixups.ExistingSkipList | arch/arm/cpu/armv7/omap5/fdt.c:59-64 | with no `ti,irqs-skip` property there are no old entries. A cell-valued property gives its cells, and a string-valued one is read as no entries |
| SecureFixups.CrossbarEffect | arch/arm/cpu/armv7/omap5/fdt.c:31-91 | only the crossbar's `ti,irqs-skip` can change. The fixup returns 0 iff growing succeeds and the node is absent or accepts the write. A failed growth is returned with nothing touched. An absent node leaves the tree unchanged. On success the list is 8, 15, 118 followed by the old entries verbatim, so its length is the old length plus 3. A refused write returns its error, and the old list is then already deleted |
| SecureFixups.FillSkipList | arch/arm/cpu/armv7/omap5/fdt.c:66-74 | the temporary buffer has old+3 entries: the HS interrupts first, then the old entries in order |
| SecureFixups.HsFixupCrossbar | arch/arm/cpu/armv7/omap5/fdt.c:31-91 | the in-place fixup leaves exactly the tree and status `CrossbarEffect` gives |
| SecureFixups.RngEffect | arch/arm/cpu/armv7/omap5/fdt.c:93-114 | only the RNG's `status` can change. The fixup returns 0 iff the node is absent or accepts the write. On success with the node present, `status` is `"disabled"`. A failure or an absent node leaves the tree unchanged. A failure occurs only at a present node and returns the refused write's code |
| SecureFixups.HsDisableRng | arch/arm/cpu/armv7/omap5/fdt.c:93-114 | the in-place fixup leaves exactly the tree and status `RngEffect` gives |
| SecureFixups.SramEffect | arch/arm/cpu/armv7/omap5/fdt.c:116-153 | only `reg` of the `sram-hs` node can change. With no reservation configured (the stub), or with the node absent, nothing changes and 0 is returned. Otherwise it returns 0 iff the write is accepted. On success `reg` is two cells, 0 and a size that is the larger of the boot and run sizes. A failure occurs only at a present node: it returns the refused write's code, with `reg` already deleted |
| SecureFixups.HsFixupSram | arch/arm/cpu/armv7/omap5/fdt.c:116-153 | the in-place fixup leaves exactly the tree and status `SramEffect` gives |
| SecureFixups.HsEffect | arch/arm/cpu/armv7/omap5/fdt.c:155-173 | a non-secure build changes nothing and returns. A GP part halts with nothing changed. Otherwise the boot continues iff all three fixups succeed, and then all three are in place. Only `ti,irqs-skip` at the crossbar, `status` at the RNG and `reg` at the SRAM node can change. The fixups short-circuit: a failed crossbar fixup leaves the RNG and SRAM nodes as they were, and a failed RNG fixup leaves the SRAM node. With no SRAM reservation configured (the stub), the SRAM node is left exactly as it was |
| SecureFixups.HsFixups | arch/arm/cpu/armv7/omap5/fdt.c:155-173 | the in-place orchestrator leaves exactly the tree and outcome `HsEffect` gives |
| ClockFixups.SelectOpp | arch/arm/cpu/armv7/omap5/fdt.c:191-215 | no contract; the body is the definition of the `#if`/`#elif`/`#else` chains here and at lines 218-230: OPP_HIGH wins over OPP_OD, and nominal is the default |
| ClockFixups.Dra752DspRates | arch/arm/cpu/armv7/omap5/fdt.c:190-215 | the DRA752 DSP table for each OPP has `OPP_DSP_CLK_NUM` (3) rates |
| ClockFixups.Dra722DspRates | arch/arm/cpu/armv7/omap5/fdt.c:190-215 | the DRA722 DSP table for each OPP has `OPP_DSP_CLK_NUM` (3) rates |
| ClockFixups.IvaRates | arch/arm/cpu/armv7/omap5/fdt.c:217-230 | the IVA table for each OPP has `OPP_IVA_CLK_NUM` (2) rates |
| ClockFixups.DspRates | arch/arm/cpu/armv7/omap5/fdt.c:267-268 | the DSP table chosen by SoC variant has 3 rates, one per DSP clock node |
| ClockFixups.ClocksEffect | arch/arm/cpu/armv7/omap5/fdt.c:232-254 | the clock loop adds and removes no nodes |
| ClockFixups.FirstFailure | arch/arm/cpu/armv7/omap5/fdt.c:236-250 | every index before the first failing one resolves and accepts the write; the index itself, when in range, does not |
| ClockFixups.ClockError | arch/arm/cpu/armv7/omap5/fdt.c:237-249 | no contract; the body is the definition of the code a failing index returns: `-FDT_ERR_NOTFOUND` for a missing node (line 241), and otherwise the refused write's error (line 249) |
| ClockFixups.ClocksStatus | arch/arm/cpu/armv7/omap5/fdt.c:236-253 | the loop returns 0 iff no index fails. Otherwise it returns the first failure's code: not-found for a missing node, the refusal's error for a refused write |
| ClockFixups.ClockNodeUntouched | arch/arm/cpu/armv7/omap5/fdt.c:236-251 | a node not among the paths before the first failure is left exactly as it was |
| ClockFixups.ClockNodeOthersKept | arch/arm/cpu/armv7/omap5/fdt.c:244-245 | at every node, every property other than `assigned-clock-rates` is unchanged |
| ClockFixups.ClocksUntouched | arch/arm/cpu/armv7/omap5/fdt.c:236-251 | later indices are untouched: the loop changes nothing outside the paths before the first failure, and nothing but `assigned-clock-rates` anywhere |
| ClockFixups.ClockWrittenAt | arch/arm/cpu/armv7/omap5/fdt.c:244-245 | an index before the first failure whose node is not repeated later holds the single cell of its own rate |
| ClockFixups.ClocksWritten | arch/arm/cpu/armv7/omap5/fdt.c:236-251 | earlier indices are written: every index before the first failure (last occurrence of its node) holds its rate |
| ClockFixups.ClocksAllWritten | arch/arm/cpu/armv7/omap5/fdt.c:232-254 | with every node present, writable and listed once, the loop returns 0 and every node holds its rate |
| ClockFixups.FixupClocks | arch/arm/cpu/armv7/omap5/fdt.c:232-254 | the in-place loop over the first `num` entries leaves exactly the tree and status `ClocksEffect` gives |
| ClockFixups.TwoDomainsEffect | arch/arm/cpu/armv7/omap5/fdt.c:265-284 | the two-domain sequence adds and removes no nodes |
| ClockFixups.TwoDomainsAllWritten | arch/arm/cpu/armv7/omap5/fdt.c:265-284 | with both domains fully writable and disjoint, every node of each domain holds its own rate |
| ClockFixups.FirstDomainFails | arch/arm/cpu/armv7/omap5/fdt.c:269-274 | when the first domain fails, the second domain's nodes are unchanged. The first domain's nodes before the failure hold their rates |
| ClockFixups.SecondDomainKeepsFirst | arch/arm/cpu/armv7/omap5/fdt.c:269-279 | a fully written first domain keeps its rates through a second domain that shares no node with it |
| ClockFixups.SecondDomainPrefixWritten | arch/arm/cpu/armv7/omap5/fdt.c:276-279 | after a fully written first domain, the second domain's nodes before its first failure hold their rates |
| ClockFixups.SecondDomainRestUntouched | arch/arm/cpu/armv7/omap5/fdt.c:276-279 | after a fully written first domain, the second domain's nodes from its first failure on are left as they were |
| ClockFixups.SecondDomainFails | arch/arm/cpu/armv7/omap5/fdt.c:269-284 | when the first domain succeeds and the second fails at index k: the first domain's nodes hold their rates. The second domain's nodes before k hold theirs, and its nodes from k on are unchanged |
| ClockFixups.TwoDomainsFrame | arch/arm/cpu/armv7/omap5/fdt.c:265-284 | only `assigned-clock-rates` changes, and only at the two domains' nodes |
| ClockFixups.OppEffect | arch/arm/cpu/armv7/omap5/fdt.c:256-288 | outside DRA7xx/AM57xx EVM builds, or on a part that is neither DRA72x nor DRA7xx, nothing changes; no node is added or removed |
| ClockFixups.ClockNodesDistinct | arch/arm/cpu/armv7/omap5/fdt.c:179-188 | no clock node is listed twice, and the DSP and IVA tables share none |
| ClockFixups.OppFrame | arch/arm/cpu/armv7/omap5/fdt.c:256-288 | the OPP fixups change only `assigned-clock-rates`, and only at the five clock nodes |
| ClockFixups.OppAllWritten | arch/arm/cpu/armv7/omap5/fdt.c:256-285 | on a DRA7 part with all five nodes writable, the DSP nodes hold the rates of the table picked by variant, and the IVA nodes hold the IVA rates |
| ClockFixups.OppDspFailureSkipsIva | arch/arm/cpu/armv7/omap5/fdt.c:269-274 | a DSP failure leaves every IVA node unchanged. The DSP nodes before the failing one hold their rates |
| ClockFixups.OppIvaFailureKeepsDsp | arch/arm/cpu/armv7/omap5/fdt.c:276-284 | when all DSP nodes take their rates but an IVA node fails: the DSP nodes keep the variant's rates. The IVA nodes before the failure hold theirs, and the rest are unchanged |
| ClockFixups.OppClockFixups | arch/arm/cpu/armv7/omap5/fdt.c:256-288 | the in-place orchestrator leaves exactly the tree `OppEffect` gives, and never halts |
| Omap5Setup.SecureNodesAreNotClockNodes | arch/arm/cpu/armv7/omap5/fdt.c:179-188 | the crossbar, RNG and SRAM nodes are none of the five clock nodes |
| Omap5Setup.SetupEffect | arch/arm/cpu/armv7/omap5/fdt.c:295-299 | the outcome is the secure fixups' outcome, and no node is added or removed. A GP part on a secure build halts with nothing changed. A non-secure build gets only the clock fixups. A halt leaves exactly the secure fixups' tree, so every clock node is unchanged. A boot that goes on leaves exactly `OppEffect` applied to the secure fixups' tree |
| Omap5Setup.SetupKeepsSecure | arch/arm/cpu/armv7/omap5/fdt.c:295-299 | when a secure build boots on, the skip list, the disabled RNG and the SRAM reservation are still in place after the clock fixups, whether or not the clock writes succeeded |
| Omap5Setup.SetupFrame | arch/arm/cpu/armv7/omap5/fdt.c:295-299 | only `ti,irqs-skip` at the crossbar, `status` at the RNG, `reg` at the SRAM node and `assigned-clock-rates` at the five clock nodes can change; every other node and property is unchanged, and with the SRAM stub the SRAM node is untouched |
| Omap5Setup.SetupAllApplied | arch/arm/cpu/armv7/omap5/fdt.c:295-299 | a secure build on an HS/EMU DRA7 part, where everything is writable, boots on with all of these in place: the skip list, the disabled RNG, the SRAM reservation and all five clock rates |
| Omap5Setup.CpuSetup | arch/arm/cpu/armv7/omap5/fdt.c:295-299 | the in-place entry point leaves exactly the tree and outcome `SetupEffect` gives |

## Left out

- libfdt internals are not modelled: node offsets, the blob's byte layout, the string table and real reallocation. A node is its path. `fdt_increase_size` changes no content.
- Library failures are not derived from blob space. They come from the store's `Faults` value: one growth status, and a set of refused writes with their codes.
- Big-endian cell encoding (`cpu_to_fdt32`) is not modelled; cells are unsigned 32-bit values.
- A `ti,irqs-skip` whose length is not a multiple of 4 is not modelled. The C code drops the trailing bytes (`len / sizeof(u32)`); the model treats the property as whole cells.
- A string-valued `ti,irqs-skip` is read as an empty list. The C code would reinterpret its bytes as cells.
- `malloc`/`free` of the temporary list, and the unchecked `NULL` that `malloc` may return, are not modelled. The list is built in a fresh array.
- `printf`, `debug` and `fdt_strerror` output is left out.
- `hang()` is the `Halted` outcome: a halted run makes no further changes.
- Build options and hardware queries are parameters, not computed. This covers `CONFIG_TI_SECURE_DEVICE`, the SRAM sizes, the EVM target, the OPP selectors, `get_device_type`, `is_dra72x` and `is_dra7xx`.
- `dra7_opp_iva_clk_names` is declared with 3 slots but holds 2 paths. Only 2 are ever read (`OPP_IVA_CLK_NUM`), so the model lists the 2 paths.
- ClockFixups.Dra752DspRates, ClockFixups.Dra722DspRates, ClockFixups.IvaRates: their contracts state only the table sizes. The rate values are given by their bodies, which copy the source tables.
- ClockFixups.ClocksEffect: its contract states only that nodes are preserved. The return code, the frame and the written values are stated by `ClocksStatus`, `ClocksUntouched` and `ClocksWritten`.
