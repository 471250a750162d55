/**
 * The boot arguments handed to the kernel (`bootstruct.c`): one-time
 * initialization, the move of the arguments into kernel memory, and the
 * conversion of the BIOS E820 memory map into EFI memory descriptors.
 */
module BootStruct {

  // E820 range types
  const RANGE_USABLE: nat := 1
  const RANGE_RESERVED: nat := 2
  const RANGE_ACPI: nat := 3
  const RANGE_NVS: nat := 4

  // EFI memory types
  const EFI_RESERVED: nat := 0
  const EFI_CONVENTIONAL: nat := 7
  const EFI_ACPI_RECLAIM: nat := 9
  const EFI_ACPI_NVS: nat := 10

  const MEMORY_MAP_COUNT_MAX: nat := 40
  /** `sizeof(EfiMemoryRange)`. */
  const EFI_RANGE_SIZE: nat := 40
  /** `1 << I386_PGSHIFT`. */
  const PAGE_SIZE: nat := 4096
  const BOOT_ARGS_VERSION: nat := 1
  const BOOT_ARGS_REVISION: nat := 5
  const VGA_TEXT_MODE: nat := 0

  datatype MemoryRange = MemoryRange(base: nat, length: nat, kind: nat)

  datatype EfiMemoryRange = EfiMemoryRange(kind: nat, physicalStart: nat, virtualStart: nat,
                                           numberOfPages: nat, attribute: nat)

  /** The fields of `boot_args` that the boot loader sets here. */
  datatype BootArgs = BootArgs(version: nat, revision: nat, videoDisplay: nat,
                               memoryMap: nat, memoryMapSize: nat,
                               descriptorSize: nat, descriptorVersion: nat,
                               deviceTree: nat, deviceTreeLength: nat)

  /** The arguments after `bzero` and the fields `initKernBootStruct` sets. */
  function InitialArgs(): (a: BootArgs)
    ensures a.version == BOOT_ARGS_VERSION && a.revision == BOOT_ARGS_REVISION
    ensures a.videoDisplay == VGA_TEXT_MODE && a.memoryMapSize == 0 && a.deviceTreeLength == 0
  {
    BootArgs(BOOT_ARGS_VERSION, BOOT_ARGS_REVISION, VGA_TEXT_MODE, 0, 0, 0, 0, 0, 0)
  }

  /** The type switch of `finalizeBootStruct`; unknown types are reserved. */
  function EfiType(t: nat): (r: nat)
    ensures r == EFI_ACPI_RECLAIM <==> t == RANGE_ACPI
    ensures r == EFI_ACPI_NVS <==> t == RANGE_NVS
    ensures r == EFI_CONVENTIONAL <==> t == RANGE_USABLE
    ensures r == EFI_RESERVED <==> t != RANGE_ACPI && t != RANGE_NVS && t != RANGE_USABLE
  {
    if t == RANGE_ACPI then EFI_ACPI_RECLAIM
    else if t == RANGE_NVS then EFI_ACPI_NVS
    else if t == RANGE_USABLE then EFI_CONVENTIONAL
    else EFI_RESERVED
  }

  /** One descriptor: identity-mapped, whole pages only, no attributes. */
  function Convert(r: MemoryRange): (e: EfiMemoryRange)
    ensures e.kind == EfiType(r.kind) && e.attribute == 0
    ensures e.physicalStart == r.base && e.virtualStart == r.base
    ensures e.numberOfPages * PAGE_SIZE <= r.length < (e.numberOfPages + 1) * PAGE_SIZE
  {
    EfiMemoryRange(EfiType(r.kind), r.base, r.base, r.length / PAGE_SIZE, 0)
  }

  /** Usable memory is exactly what becomes conventional memory. */
  lemma UsableIsConventional(m: seq<MemoryRange>, i: nat)
    requires i < |m|
    ensures Convert(m[i]).kind == EFI_CONVENTIONAL <==> m[i].kind == RANGE_USABLE
    ensures Convert(m[i]).numberOfPages == 0 <==> m[i].length < PAGE_SIZE
  {
  }

  /** The boot-loader state of `bootstruct.c`. */
  class BootState {
    var initDone: bool
    var args: BootArgs
    /** Address of the `boot_args` the kernel will be given. */
    var argsAddr: nat
    var memoryMap: seq<MemoryRange>
    var convmem: nat
    var extmem: nat

    predicate Valid()
      reads this
    {
      |memoryMap| <= MEMORY_MAP_COUNT_MAX
    }

    constructor()
      ensures Valid() && !initDone && memoryMap == []
    {
      initDone := false;
      args := BootArgs(0, 0, 0, 0, 0, 0, 0, 0, 0);
      argsAddr := 0;
      memoryMap := [];
      convmem := 0;
      extmem := 0;
    }

    /**
     * `initKernBootStruct`. `e820` with `conv`/`ext` is what the BIOS memory
     * map call reports; `biosConv`/`biosExt` are the legacy size queries,
     * used only when the map is empty. `addr` is where the arguments are
     * allocated. Only the first call has any effect.
     */
    method InitKernBootStruct(e820: seq<MemoryRange>, conv: nat, ext: nat,
                              biosConv: nat, biosExt: nat, addr: nat)
      requires Valid() && |e820| <= MEMORY_MAP_COUNT_MAX
      modifies this
      ensures Valid() && initDone
      ensures old(initDone) ==> args == old(args) && argsAddr == old(argsAddr) && memoryMap == old(memoryMap)
                                && convmem == old(convmem) && extmem == old(extmem)
      ensures !old(initDone) ==> args == InitialArgs() && argsAddr == addr && memoryMap == e820
      ensures !old(initDone) && |e820| > 0 ==> convmem == conv && extmem == ext
      ensures !old(initDone) && |e820| == 0 ==> convmem == biosConv && extmem == biosExt
    {
      if !initDone {
        argsAddr := addr;
        args := BootArgs(0, 0, 0, 0, 0, 0, 0, 0, 0);
        memoryMap := e820;
        convmem, extmem := conv, ext;
        if |memoryMap| == 0 {
          convmem := biosConv;
          extmem := biosExt;
        }
        args := args.(videoDisplay := VGA_TEXT_MODE);
        args := args.(version := BOOT_ARGS_VERSION, revision := BOOT_ARGS_REVISION);
        initDone := true;
      }
    }

    /** `reserveKernBootStruct`: the same arguments, now at `kernelAddr`. */
    method ReserveKernBootStruct(kernelAddr: nat)
      modifies this
      ensures args == old(args) && argsAddr == kernelAddr
      ensures initDone == old(initDone) && memoryMap == old(memoryMap)
      ensures convmem == old(convmem) && extmem == old(extmem)
    {
      var copy := args;
      argsAddr := kernelAddr;
      args := copy;
    }

    /**
     * `finalizeBootStruct`. `mapAddr` is where the descriptors are allocated
     * in kernel memory, `dtAddr`/`dtSize` the flattened device tree. Returns
     * false where the C code stops the machine: an empty memory map, or no
     * memory for the device tree.
     */
    method FinalizeBootStruct(mapAddr: nat, dtAddr: nat, dtSize: nat) returns (ok: bool, efi: array<EfiMemoryRange>)
      requires Valid()
      modifies this
      ensures Valid() && memoryMap == old(memoryMap) && initDone == old(initDone) && argsAddr == old(argsAddr)
      ensures |memoryMap| == 0 ==> !ok && args == old(args)
      ensures |memoryMap| > 0 ==> fresh(efi) && efi.Length == |memoryMap|
      ensures |memoryMap| > 0 ==> forall i :: 0 <= i < efi.Length ==> efi[i] == Convert(memoryMap[i])
      ensures |memoryMap| > 0 ==> args.memoryMap == mapAddr && args.memoryMapSize == EFI_RANGE_SIZE * |memoryMap|
                                  && args.descriptorSize == EFI_RANGE_SIZE && args.descriptorVersion == 0
      ensures |memoryMap| > 0 ==> (ok <==> dtAddr != 0)
      ensures ok ==> args == old(args).(memoryMap := mapAddr, memoryMapSize := EFI_RANGE_SIZE * |memoryMap|,
                                        descriptorSize := EFI_RANGE_SIZE, descriptorVersion := 0,
                                        deviceTree := dtAddr, deviceTreeLength := dtSize)
    {
      var count := |memoryMap|;
      if count == 0 {
        return false, new EfiMemoryRange[0];
      }
      efi := new EfiMemoryRange[count];
      args := args.(memoryMap := mapAddr, memoryMapSize := EFI_RANGE_SIZE * count,
                    descriptorSize := EFI_RANGE_SIZE, descriptorVersion := 0);
      ghost var mapped := args;
      var i := 0;
      while i < count
        invariant 0 <= i <= count && count == |memoryMap|
        invariant memoryMap == old(memoryMap) && args == mapped && initDone == old(initDone) && argsAddr == old(argsAddr)
        invariant forall j :: 0 <= j < i ==> efi[j] == Convert(memoryMap[j])
      {
        var range := memoryMap[i];
        var kind;
        if range.kind == RANGE_ACPI {
          kind := EFI_ACPI_RECLAIM;
        } else if range.kind == RANGE_NVS {
          kind := EFI_ACPI_NVS;
        } else if range.kind == RANGE_USABLE {
          kind := EFI_CONVENTIONAL;
        } else {
          kind := EFI_RESERVED;
        }
        efi[i] := EfiMemoryRange(kind, range.base, range.base, range.length / PAGE_SIZE, 0);
        i := i + 1;
      }
      if dtAddr == 0 {
        return false, efi;
      }
      args := args.(deviceTree := dtAddr, deviceTreeLength := dtSize);
      ok := true;
    }
  }

  /** A second `initKernBootStruct` leaves the first one's state alone. */
  method InitTwice(b: BootState, m1: seq<MemoryRange>, m2: seq<MemoryRange>, addr1: nat, addr2: nat)
    requires b.Valid() && !b.initDone && |m1| <= MEMORY_MAP_COUNT_MAX && |m2| <= MEMORY_MAP_COUNT_MAX
    modifies b
    ensures b.memoryMap == m1 && b.argsAddr == addr1 && b.args == InitialArgs()
  {
    b.InitKernBootStruct(m1, 0, 0, 0, 0, addr1);
    b.InitKernBootStruct(m2, 1, 1, 1, 1, addr2);
  }
}
