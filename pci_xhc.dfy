/**
 * Locating the USB host controller among the scanned PCI devices and
 * handing the Intel EHCI ports over to it (kernel/main.cpp).
 *
 * The scan itself (pci::ScanAllBus) is not part of this model: the devices
 * it found are given as a sequence, in the order of pci::devices. A found
 * device is identified by its index in that sequence, as the source keeps
 * a pointer into the array.
 */
module PciXhc {

  import opened KernelTypes

  const INTEL_VENDOR_ID: U16 := 0x8086

  datatype ClassCode = ClassCode(base: U8, sub: U8, interface: U8) {
    predicate Match(b: U8, s: U8, i: U8) {
      base == b && sub == s && interface == i
    }
  }

  /**
   * One entry of pci::devices. `vendorId` is what pci::ReadVendorId reads
   * from the device's configuration space; it is read-only there.
   */
  datatype Device = Device(bus: U8, device: U8, functionNumber: U8, headerType: U8,
                           classCode: ClassCode, vendorId: U16)

  /** Class 0x0c/0x03/0x30: a USB xHCI host controller. */
  predicate IsXhc(d: Device) {
    d.classCode.Match(0x0c, 0x03, 0x30)
  }

  predicate IsIntelXhc(d: Device) {
    IsXhc(d) && d.vendorId == INTEL_VENDOR_ID
  }

  /** Class 0x0c/0x03/0x20 made by Intel: an Intel EHCI host controller. */
  predicate IsIntelEhci(d: Device) {
    d.classCode.Match(0x0c, 0x03, 0x20) && d.vendorId == INTEL_VENDOR_ID
  }

  // ---------------------------------------------------------------------
  // Host-controller selection (kernel/main.cpp:225-235)
  // ---------------------------------------------------------------------

  /** Index of the first Intel xHC. */
  function FirstIntelXhc(devs: seq<Device>): Option<nat>
    decreases |devs|
  {
    if devs == [] then None
    else
      match FirstIntelXhc(devs[..|devs| - 1])
      case Some(k) => Some(k)
      case None => if IsIntelXhc(devs[|devs| - 1]) then Some(|devs| - 1) else None
  }

  /** Index of the last xHC, whatever its vendor. */
  function LastXhc(devs: seq<Device>): Option<nat>
    decreases |devs|
  {
    if devs == [] then None
    else if IsXhc(devs[|devs| - 1]) then Some(|devs| - 1)
    else LastXhc(devs[..|devs| - 1])
  }

  /** The selection rule: the first Intel xHC, else the last xHC, else none. */
  function SelectXhc(devs: seq<Device>): Option<nat> {
    if FirstIntelXhc(devs).Some? then FirstIntelXhc(devs) else LastXhc(devs)
  }

  lemma {:induction false} FirstIntelXhcIsFirst(devs: seq<Device>)
    ensures FirstIntelXhc(devs).None? <==> forall j :: 0 <= j < |devs| ==> !IsIntelXhc(devs[j])
    ensures FirstIntelXhc(devs).Some? ==>
              var k := FirstIntelXhc(devs).value;
              k < |devs| && IsIntelXhc(devs[k]) && forall j :: 0 <= j < k ==> !IsIntelXhc(devs[j])
    decreases |devs|
  {
    if devs != [] {
      var prefix := devs[..|devs| - 1];
      FirstIntelXhcIsFirst(prefix);
      assert forall j :: 0 <= j < |prefix| ==> prefix[j] == devs[j];
    }
  }

  lemma {:induction false} LastXhcIsLast(devs: seq<Device>)
    ensures LastXhc(devs).None? <==> forall j :: 0 <= j < |devs| ==> !IsXhc(devs[j])
    ensures LastXhc(devs).Some? ==>
              var k := LastXhc(devs).value;
              k < |devs| && IsXhc(devs[k]) && forall j :: k < j < |devs| ==> !IsXhc(devs[j])
    decreases |devs|
  {
    if devs != [] {
      var prefix := devs[..|devs| - 1];
      LastXhcIsLast(prefix);
      assert forall j :: 0 <= j < |prefix| ==> prefix[j] == devs[j];
    }
  }

  /**
   * What the selection promises: no result exactly when no device is an
   * xHC; a result is always an xHC; it is the first Intel xHC when there is
   * one, and otherwise the last xHC.
   */
  lemma SelectXhcSpec(devs: seq<Device>)
    ensures SelectXhc(devs).None? <==> forall j :: 0 <= j < |devs| ==> !IsXhc(devs[j])
    ensures SelectXhc(devs).Some? ==> SelectXhc(devs).value < |devs| && IsXhc(devs[SelectXhc(devs).value])
    ensures (exists j :: 0 <= j < |devs| && IsIntelXhc(devs[j])) ==>
              var k := SelectXhc(devs).value;
              SelectXhc(devs).Some? && k < |devs| && IsIntelXhc(devs[k])
              && forall j :: 0 <= j < k ==> !IsIntelXhc(devs[j])
    ensures (forall j :: 0 <= j < |devs| ==> !IsIntelXhc(devs[j])) && SelectXhc(devs).Some? ==>
              var k := SelectXhc(devs).value;
              k < |devs| && forall j :: k < j < |devs| ==> !IsXhc(devs[j])
  {
    FirstIntelXhcIsFirst(devs);
    LastXhcIsLast(devs);
  }

  /** A first Intel xHC already found in a prefix stays the first in the whole sequence. */
  lemma {:induction false} FirstIntelXhcExtends(devs: seq<Device>, i: nat)
    requires i <= |devs| && FirstIntelXhc(devs[..i]).Some?
    ensures FirstIntelXhc(devs) == FirstIntelXhc(devs[..i])
    decreases |devs|
  {
    if i < |devs| {
      var prefix := devs[..|devs| - 1];
      assert prefix[..i] == devs[..i];
      FirstIntelXhcExtends(prefix, i);
    } else {
      assert devs[..i] == devs;
    }
  }

  /** The search loop of KernelMainNewStack that sets `xhc_dev`. */
  method FindXhc(devices: seq<Device>) returns (xhcDev: Option<nat>)
    ensures xhcDev == SelectXhc(devices)
  {
    xhcDev := None;
    var i := 0;
    while i < |devices|
      invariant 0 <= i <= |devices|
      invariant xhcDev == LastXhc(devices[..i])
      invariant FirstIntelXhc(devices[..i]) == None
    {
      assert devices[..i + 1][..i] == devices[..i];
      if IsXhc(devices[i]) {
        xhcDev := Some(i);
        if devices[i].vendorId == INTEL_VENDOR_ID {
          FirstIntelXhcExtends(devices, i + 1);
          return;
        }
      }
      i := i + 1;
    }
    assert devices[..i] == devices;
  }

  // ---------------------------------------------------------------------
  // EHCI to xHCI hand-over (kernel/main.cpp:74-93, 261-263)
  // ---------------------------------------------------------------------

  const USB3_PSSEN: int := 0xd8   // SuperSpeed enable
  const USB3PRM: int := 0xdc      // SuperSpeed ports that may be switched
  const XUSB2PR: int := 0xd0      // USB 2.0 port routing
  const XUSB2PRM: int := 0xd4     // USB 2.0 ports that may be routed

  ghost predicate IntelEhciExists(devices: seq<Device>) {
    exists j :: 0 <= j < |devices| && IsIntelEhci(devices[j])
  }

  /** The 256-byte configuration space is read and written by 32-bit offset. */
  ghost predicate FullConfigSpace(regs: map<int, U32>) {
    forall off :: 0 <= off < 0x100 && off % 4 == 0 ==> off in regs
  }

  /** Register contents after the two copies SwitchEhci2Xhci makes. */
  function HandOver(regs: map<int, U32>): (r: map<int, U32>)
    requires USB3PRM in regs && XUSB2PRM in regs
    ensures r.Keys == regs.Keys + {USB3_PSSEN, XUSB2PR}
    ensures r[USB3_PSSEN] == regs[USB3PRM] && r[XUSB2PR] == regs[XUSB2PRM]
    ensures forall off :: off in regs && off != USB3_PSSEN && off != XUSB2PR ==> r[off] == regs[off]
  {
    regs[USB3_PSSEN := regs[USB3PRM]][XUSB2PR := regs[XUSB2PRM]]
  }

  /**
   * Stand-in for the configuration space of one PCI device; pci::ReadConfReg
   * and pci::WriteConfReg are not part of this model.
   */
  class ConfigSpace {
    var regs: map<int, U32>

    ghost predicate Valid()
      reads this
    {
      FullConfigSpace(regs)
    }

    method ReadConfReg(off: int) returns (value: U32)
      requires Valid() && off in regs
      ensures value == regs[off]
    {
      value := regs[off];
    }

    method WriteConfReg(off: int, value: U32)
      requires Valid() && off in regs
      modifies this
      ensures Valid()
      ensures regs == old(regs)[off := value]
    {
      regs := regs[off := value];
    }
  }

  /**
   * When an Intel EHCI controller is present, routes the SuperSpeed and the
   * USB 2.0 ports to the xHC by copying the two mask registers into the two
   * enable registers; otherwise leaves the configuration space alone.
   */
  method SwitchEhci2Xhci(devices: seq<Device>, xhcConfig: ConfigSpace)
    requires xhcConfig.Valid()
    modifies xhcConfig
    ensures xhcConfig.Valid()
    ensures xhcConfig.regs == if IntelEhciExists(devices) then HandOver(old(xhcConfig.regs))
                              else old(xhcConfig.regs)
  {
    var intelEhcExist := false;
    var i := 0;
    while i < |devices|
      invariant 0 <= i <= |devices|
      invariant forall j :: 0 <= j < i ==> !IsIntelEhci(devices[j])
    {
      if IsIntelEhci(devices[i]) {
        intelEhcExist := true;
        break;
      }
      i := i + 1;
    }
    if !intelEhcExist {
      return;
    }
    var superspeedPorts := xhcConfig.ReadConfReg(USB3PRM);
    xhcConfig.WriteConfReg(USB3_PSSEN, superspeedPorts);
    var ehci2xhciPorts := xhcConfig.ReadConfReg(XUSB2PRM);
    xhcConfig.WriteConfReg(XUSB2PR, ehci2xhciPorts);
  }

  /** The hand-over is attempted only when the selected xHC is an Intel one. */
  method HandOverIfIntel(devices: seq<Device>, xhcDev: nat, xhcConfig: ConfigSpace)
    requires xhcDev < |devices| && xhcConfig.Valid()
    modifies xhcConfig
    ensures xhcConfig.Valid()
    ensures xhcConfig.regs == if devices[xhcDev].vendorId == INTEL_VENDOR_ID && IntelEhciExists(devices)
                              then HandOver(old(xhcConfig.regs))
                              else old(xhcConfig.regs)
  {
    if devices[xhcDev].vendorId == INTEL_VENDOR_ID {
      SwitchEhci2Xhci(devices, xhcConfig);
    }
  }
}
