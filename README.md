# OrangeOS kernel boot and dispatch path, modelled in Dafny

This project models the deterministic routines of the OrangeOS kernel's
entry point, `KernelMainNewStack` in `kernel/main.cpp`, together with
`SwitchEhci2Xhci` and the box of the desktop logo.

- **Memory-map walk** (`MemoryMapWalk`). The kernel walks the firmware's
  memory descriptors into the bitmap frame allocator:
  - holes below a descriptor are marked allocated;
  - descriptors that are not available are marked allocated;
  - only available descriptors move `available_end`;
  - finally the allocator is bounded to frames `[1, available_end / kBytesPerFrame)`.

  The allocator is a stand-in class that records every `MarkAllocated` call
  and the range it was given. The 64-bit wrap-around of
  `physical_start + number_of_pages * kUEFIPageSize` is written out.
- **Host-controller selection and EHCI hand-over** (`PciXhc`). The kernel
  picks the first Intel xHC (class 0x0c/0x03/0x30), or else the last xHC.
  When the chosen xHC is Intel and an Intel EHCI controller exists, two
  mask registers are copied: the SuperSpeed port mask (0xdc) into the
  SuperSpeed enable register USB3_PSSEN (0xd8), and the USB 2 routing
  mask (0xd4) into the routing register XUSB2PR (0xd0).
- **Port sweep** (`PortSweep`). `ConfigurePort` is called on exactly the
  connected ports 1..MaxPorts, in ascending order. A failure is logged and
  the sweep goes on.
- **Dispatcher iteration** (`Dispatcher`). One turn of the main loop
  reads the queue with interrupts masked, re-enables them, and then
  dispatches. Taken as a sequential step, it does this:
  - an empty queue means no change;
  - otherwise the front message is popped;
  - a controller interrupt drains the primary event ring until it is empty,
    and errors do not stop the drain;
  - any other message type is discarded.
- **Logo box** (`DanboMark`). A 160 x 100 rectangle is painted with a
  one-pixel black border and a cardboard-coloured interior. Nothing outside
  it is written.

The collaborators whose code is not part of this model are small stand-in
classes with one-line contracts. They are `BitmapMemoryManager`,
`ArrayQueue`, the event ring, `ProcessEvent`, `ConfigurePort`, the PCI
configuration space and the pixel writer. Their fields are sequences or
maps that the methods reassign.

## Model

| member | source | states |
|---|---|---|
| MemoryMapWalk.StepCalls | kernel/main.cpp:181-199 | one descriptor makes a hole call exactly when it starts above `available_end`, and a whole-span call exactly when it is not available; the hole call comes first |
| MemoryMapWalk.InitMemoryManager | kernel/main.cpp:172-201 | the loop leaves `available_end` equal to the fold `EndAfter`, and the allocator's call log equal to `CallsAfter`; the allocator range is then [1, available_end / kBytesPerFrame), so frame 0 is never handed out |
| MemoryMapWalk.EndAfterIsLastAvailableEnd | kernel/main.cpp:175-194 | after the walk `available_end` is the end of the last available descriptor, or 0 if none is available |
| MemoryMapWalk.CallsAfterPrefix | kernel/main.cpp:176-200 | descriptors are walked in order: the calls made for a prefix of the map are a prefix of the calls for the whole map |
| MemoryMapWalk.UnavailableFramesMarked | kernel/main.cpp:195-199 | every frame of the run the walk computes for a descriptor that is not available, from `start / kBytesPerFrame` for `span / kBytesPerFrame` frames, lies in a recorded MarkAllocated run |
| MemoryMapWalk.GapFramesMarked | kernel/main.cpp:181-185 | when a descriptor starts above `available_end`, every frame from `available_end / kBytesPerFrame` for `(start - available_end) / kBytesPerFrame` frames is marked |
| MemoryMapWalk.AvailableFramesUnmarked | kernel/main.cpp:181-199 | on a map whose descriptors are sorted, disjoint and free of 64-bit wrap-around, no frame lying wholly inside an available descriptor is in any recorded MarkAllocated run |
| MemoryMapWalk.HoleFramesMarked | kernel/main.cpp:181-185 | on a frame-aligned map without 64-bit wrap-around, every frame lying wholly between the `available_end` reached before a descriptor and that descriptor's start is marked |
| MemoryMapWalk.ReservedFramesMarked | kernel/main.cpp:195-199 | on a frame-aligned map, every frame lying wholly inside a descriptor that is not available is marked; with `HoleFramesMarked` and `AvailableFramesUnmarked`, a sorted, aligned map has exactly its holes and its reserved memory marked |
| MemoryMapWalk.CallCount | kernel/main.cpp:181-199 | the walk makes exactly one call per hole plus one per unavailable descriptor, so an available descriptor never marks its own span |
| PciXhc.FirstIntelXhcIsFirst | kernel/main.cpp:226-235 | the first-Intel-xHC search finds nothing iff no device is an Intel xHC, and otherwise the lowest such index |
| PciXhc.LastXhcIsLast | kernel/main.cpp:226-235 | the last-xHC search finds nothing iff no device is an xHC, and otherwise the highest such index |
| PciXhc.SelectXhcSpec | kernel/main.cpp:226-235 | the selected device is null iff no device has class 0x0c/0x03/0x30; a result has that class; it is the first Intel one when any exists, else the last matching device |
| PciXhc.FindXhc | kernel/main.cpp:226-235 | the loop that overwrites `xhc_dev` and stops at the first Intel xHC returns exactly the selection rule's result |
| PciXhc.HandOver | kernel/main.cpp:87-90 | afterwards reg 0xd8 holds the old reg 0xdc, reg 0xd0 holds the old reg 0xd4, and no other register changes |
| PciXhc.SwitchEhci2Xhci | kernel/main.cpp:74-93 | config space is unchanged unless some device is an Intel EHCI controller (class 0x0c/0x03/0x20, vendor 0x8086), in which case the two copies are made |
| PciXhc.HandOverIfIntel | kernel/main.cpp:261-263 | the hand-over happens only when the selected xHC itself is an Intel device |
| PortSweep.ConnectedPortsExact | kernel/main.cpp:277-288 | the ports visited for configuration are exactly the connected ports in 1..MaxPorts, strictly ascending |
| PortSweep.FailedPortsExact | kernel/main.cpp:281-286 | the ports logged as failed are exactly the connected ports whose configuration fails |
| PortSweep.ConfigureConnectedPorts | kernel/main.cpp:277-288 | ConfigurePort is called on exactly the connected ports, in ascending order, whatever fails; the failures returned are the ones logged |
| Dispatcher.FailCount | kernel/main.cpp:304-309 | the number of errors logged during a drain never exceeds the number of events processed, and is 0 iff no event fails |
| Dispatcher.Step | kernel/main.cpp:292-313 | empty queue: nothing changes; otherwise the queue becomes `q[1..]`; an xHCI interrupt empties the ring and processes every event, and any other tag leaves the ring alone and is discarded |
| Dispatcher.DispatchOnce | kernel/main.cpp:291-313 | one loop iteration, with its inner drain loop, changes the queue and the ring exactly as `Step` says |
| Dispatcher.RunDrains | kernel/main.cpp:291-313 | with no new interrupts, one iteration per queued message empties the queue; one controller interrupt among them empties the event ring, and none leaves it untouched |
| Dispatcher.RunKeepsEmptyRing | kernel/main.cpp:302-310 | iterations without new interrupts never refill an empty event ring |
| DanboMark.DrawDanboBox | kernel/main.cpp:321-331 | every pixel with y == y_first, y == y_last, x == x_first or x == x_last in the 160 x 100 box is {0,0,0}, every other box pixel is {240,210,150}, and no pixel outside the box changes |

## Left out

- The firmware map is given as a sequence of decoded descriptors. Stepping a raw buffer by `descriptor_size` up to `map_size` is not modelled.
- HoleFramesMarked and ReservedFramesMarked: these require a frame-aligned map, because the walk truncates both the start and the length of each run. On an unaligned map a frame lying wholly inside a hole can stay unmarked. `UnalignedHoleFrameUnmarked` gives such a map: with 4 KiB frames and pages, available descriptors at 2048 and 12288 leave frame 2 unmarked. The gap does not arise when descriptors start and end on frame boundaries, as UEFI's 4 KiB-aligned descriptors do when the frame size is 4 KiB.
- `IsAvailable` is not part of this model. Each descriptor carries its verdict as a boolean.
- `kBytesPerFrame` and `kUEFIPageSize` are not part of this model. They are a `Geometry` parameter whose two sizes are positive.
- The internals of `BitmapMemoryManager` are not part of this model: the bitmap, `Allocate` and `Free`. The stand-in only records its calls.
- `pci::ScanAllBus` is not part of this model. The scanned devices are a sequence.
- `pci::ReadVendorId` is not part of this model. It is a field of each device.
- `pci::ReadConfReg` and `pci::WriteConfReg` are a map from offset to 32-bit value over the 256-byte configuration space.
- The selection loop breaks at the first Intel xHC; `FindXhc` returns there instead, because nothing else follows the loop in that method.
- The null dereference of `xhc_dev` when no controller is found (kernel/main.cpp:247, 261) is not modelled. HandOverIfIntel requires a selected device.
- The IDT entry, the MSI set-up with the raw read at 0xfee00020, and the BAR read and mask (kernel/main.cpp:241-256) are left out. They are hardware-register plumbing.
- `xhc.Initialize` and `xhc.Run` are left out. They belong to the controller, whose code is not part of this model.
- `ConfigurePort` and `ProcessEvent` are stubs, because their sources are not part of this model:
  - `ConfigurePort` records the port and fails iff the port is in a given set;
  - `ProcessEvent` consumes exactly one event and fails iff the event is flagged.

  The drain's termination rests on this "consumes one event" contract.
- A port's connect status is taken to be fixed during the sweep.
- The interrupt handler `IntHandlerXHCI` is left out, and so are `ArrayQueue::Push` and its capacity of 32, `cli`/`sti`/`hlt` and `NotifyEndOfInterrupt`. Their point is interrupt-context concurrency. The dispatcher is modelled as a sequential step. The endless `while (true)` appears only as `Run`, a bounded number of steps.
- Dispatcher.Step: only the queue access (kernel/main.cpp:292-300) runs with interrupts masked. The `sti` at kernel/main.cpp:300 re-enables them before the dispatch at kernel/main.cpp:302-313, so `IntHandlerXHCI` may push messages, and the controller may add events, while the ring is being drained. The model assumes that no new message and no new event arrive during one step. `DispatchOnce`, `Run`, `RunDrains` and `RunKeepsEmptyRing` rest on the same assumption.
- The pixel-writer construction and the pixel-format switch are left out. So are the background `FillRectangle`/`DrawRectangle` calls, the glyphs and string drawn into the logo, `Console` and `printk`. These are graphics, font and formatted I/O.
- The pixel writer is a map from point to colour. Whether a point is on screen is not modelled.
- Segment and paging set-up is left out, as are `MouseObserver` and the mouse cursor.
- Logging (`Log`, `SetLogLevel`) is left out, because it only observes. The port sweep returns the failed ports it would log, and the dispatcher returns the number of errors it would log.
