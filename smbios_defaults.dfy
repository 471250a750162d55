/**
 * The values the SMBIOS patcher falls back on when the SMBIOS configuration
 * does not give one: the Apple model defaults chosen from the CPU, the
 * processor type code, the bus and CPU clocks, and the memory module details
 * the platform probe found.
 */
module SmbiosDefaults {
  import opened Wrappers

  /** One memory slot as the platform probe describes it. */
  datatype Dimm = Dimm(inUse: bool, memType: nat, vendor: string, serialNo: string, partNo: string)

  /**
   * What the defaults depend on: whether the CPU is a mobile part, its core
   * count, the clocks in Hz, the DMI-slot-to-RAM-slot map and the RAM slots.
   */
  datatype Platform = Platform(mobile: bool, cores: nat, fsbFrequency: nat, cpuFrequency: nat,
                               ramFrequency: nat, dimmMap: seq<nat>, dimms: seq<Dimm>)

  const MAX_RAM_SLOTS: nat := 8
  const SMB_MEM_TYPE_DDR2: nat := 19

  // ---------------------------------------------------------------------
  // sm_get_defstr

  /** The Apple models whose SMBIOS strings serve as defaults. */
  datatype Model = MacBook | MacBookPro | MacMini | IMac | MacPro

  /** The model a platform impersonates: mobile parts by core count, desktops by core count. */
  function ModelFor(p: Platform): Model
  {
    if p.mobile then (if p.cores > 1 then MacBookPro else MacBook)
    else if p.cores == 1 then MacMini
    else if p.cores == 2 then IMac
    else MacPro
  }

  /** The keys of the default tables; all five tables list them in this order. */
  const DEFAULT_KEYS: seq<string> := [
    "SMbiosvendor", "SMbiosversion", "SMbiosdate", "SMmanufacter", "SMproductname",
    "SMsystemversion", "SMserial", "SMfamily", "SMboardmanufacter", "SMboardproduct"]

  /** The value column of each model's default table, in the order of `DEFAULT_KEYS`. */
  function DefaultValues(m: Model): (r: seq<string>)
    ensures |r| == |DEFAULT_KEYS|
  {
    match m
    case MacBook => ["Apple Inc.", "MB41.88Z.0073.B00.0809221748", "04/01/2008", "Apple Inc.", "MacBook4,1",
                     "1.0", "SOMESRLNMBR", "MacBook", "Apple Inc.", "Mac-F42D89C8"]
    case MacBookPro => ["Apple Inc.", "MBP41.88Z.0073.B00.0809221748", "04/01/2008", "Apple Inc.", "MacBookPro4,1",
                        "1.0", "SOMESRLNMBR", "MacBookPro", "Apple Inc.", "Mac-F42D89C8"]
    case MacMini => ["Apple Inc.", "MM21.88Z.009A.B00.0706281359", "04/01/2008", "Apple Inc.", "Macmini2,1",
                     "1.0", "SOMESRLNMBR", "Napa Mac", "Apple Inc.", "Mac-F4208EAA"]
    case IMac => ["Apple Inc.", "IM81.88Z.00C1.B00.0802091538", "04/01/2008", "Apple Inc.", "iMac8,1",
                  "1.0", "SOMESRLNMBR", "Mac", "Apple Inc.", "Mac-F227BEC8"]
    case MacPro => ["Apple Computer, Inc.", "MP31.88Z.006C.B05.0802291410", "04/01/2008", "Apple Computer, Inc.",
                    "MacPro3,1", "1.0", "SOMESRLNMBR", "MacPro", "Apple Computer, Inc.", "Mac-F4208DC8"]
  }

  /** The table search from row `i`: the value of the first row whose key is `name`, else "". */
  function FindDefault(keys: seq<string>, values: seq<string>, name: string, i: nat): (r: string)
    requires |values| == |keys|
    decreases |keys| - i
  {
    if i >= |keys| then ""
    else if keys[i] == name then values[i]
    else FindDefault(keys, values, name, i + 1)
  }

  /** `sm_get_defstr`: the default for `name` in the platform's model table. */
  function DefaultString(p: Platform, name: string): string
  {
    FindDefault(DEFAULT_KEYS, DefaultValues(ModelFor(p)), name, 0)
  }

  /** Each core count and CPU kind selects exactly one table. */
  lemma DefaultTableChoice(p: Platform)
    ensures ModelFor(p) == MacBookPro <==> p.mobile && p.cores > 1
    ensures ModelFor(p) == MacBook <==> p.mobile && p.cores <= 1
    ensures ModelFor(p) == MacMini <==> !p.mobile && p.cores == 1
    ensures ModelFor(p) == IMac <==> !p.mobile && p.cores == 2
    ensures ModelFor(p) == MacPro <==> !p.mobile && p.cores != 1 && p.cores != 2
  {
  }

  /** The search finds the first row with the key, and "" when no row has it. */
  lemma {:induction false} FindDefaultFirst(keys: seq<string>, values: seq<string>, name: string, i: nat)
    requires |values| == |keys| && i <= |keys|
    ensures name !in keys[i..] ==> FindDefault(keys, values, name, i) == ""
    ensures forall k :: i <= k < |keys| && keys[k] == name && (forall l :: i <= l < k ==> keys[l] != name) ==>
              FindDefault(keys, values, name, i) == values[k]
    decreases |keys| - i
  {
    if i < |keys| {
      FindDefaultFirst(keys, values, name, i + 1);
      assert keys[i..] == [keys[i]] + keys[i + 1..];
    }
  }

  /** `sm_get_defstr` answers "" for a name no table lists, and the model's value for a listed one. */
  lemma DefaultStringLookup(p: Platform, name: string)
    ensures name !in DEFAULT_KEYS ==> DefaultString(p, name) == ""
    ensures forall k :: 0 <= k < |DEFAULT_KEYS| && DEFAULT_KEYS[k] == name
                        && (forall l :: 0 <= l < k ==> DEFAULT_KEYS[l] != name) ==>
              DefaultString(p, name) == DefaultValues(ModelFor(p))[k]
  {
    var keys := DEFAULT_KEYS;
    FindDefaultFirst(keys, DefaultValues(ModelFor(p)), name, 0);
    assert keys[0..] == keys;
  }

  // ---------------------------------------------------------------------
  // The numeric automatic values

  /** `sm_get_cputype`: the Apple processor type code for the core count. */
  function CpuType(cores: nat): (r: nat)
    ensures r == 0x0101 <==> cores == 1
    ensures r == 0x0501 <==> cores >= 4
    ensures r == 0x0301 <==> cores != 1 && cores < 4
  {
    if cores == 1 then 0x0101
    else if cores == 2 then 0x0301
    else if cores >= 4 then 0x0501
    else 0x0301
  }

  /** `sm_get_fsb` and `sm_get_cpu`: a clock in MHz. */
  function MegaHertz(hz: nat): nat
  {
    hz / 1000000
  }

  /** The RAM slot behind DMI slot `n`, when `n` is a slot and the map points at one. */
  function Slot(p: Platform, n: nat): Option<Dimm>
  {
    if n < MAX_RAM_SLOTS && n < |p.dimmMap| && p.dimmMap[n] < |p.dimms| then Some(p.dimms[p.dimmMap[n]])
    else None
  }

  /** `sm_get_memtype`: the slot's memory type when it is in use and known, else DDR2. */
  function MemType(p: Platform, n: nat): (r: nat)
    ensures r == SMB_MEM_TYPE_DDR2 || (Slot(p, n).Some? && Slot(p, n).value.inUse && r == Slot(p, n).value.memType && r != 0)
    ensures Slot(p, n).Some? && Slot(p, n).value.inUse && Slot(p, n).value.memType != 0 ==> r == Slot(p, n).value.memType
    ensures !(Slot(p, n).Some? && Slot(p, n).value.inUse && Slot(p, n).value.memType != 0) ==> r == SMB_MEM_TYPE_DDR2
  {
    var s := Slot(p, n);
    if s.Some? && s.value.inUse && s.value.memType != 0 then s.value.memType else SMB_MEM_TYPE_DDR2
  }

  /** `sm_get_memspeed`: the RAM clock in MHz, 667 when the probe found none. */
  function MemSpeed(p: Platform): (r: nat)
    ensures p.ramFrequency == 0 ==> r == 667
    ensures p.ramFrequency != 0 ==> r * 1000000 <= p.ramFrequency < (r + 1) * 1000000
  {
    if p.ramFrequency != 0 then MegaHertz(p.ramFrequency) else 667
  }

  /** Which text field of a slot a memory string comes from. */
  datatype MemField = Vendor | SerialNo | PartNo

  function FieldOf(d: Dimm, f: MemField): string
  {
    match f
    case Vendor => d.vendor
    case SerialNo => d.serialNo
    case PartNo => d.partNo
  }

  /** `sm_get_memvendor`, `sm_get_memserial`, `sm_get_mempartno`: the slot's text, or "N/A". */
  function MemText(p: Platform, n: nat, f: MemField): (r: string)
    ensures r != "N/A" ==> Slot(p, n).Some? && Slot(p, n).value.inUse && r == FieldOf(Slot(p, n).value, f)
    ensures Slot(p, n).Some? && Slot(p, n).value.inUse && |FieldOf(Slot(p, n).value, f)| > 0 ==>
              r == FieldOf(Slot(p, n).value, f)
    ensures |r| > 0
  {
    var s := Slot(p, n);
    if s.Some? && s.value.inUse && |FieldOf(s.value, f)| > 0 then FieldOf(s.value, f) else "N/A"
  }
}
