/**
 * The PCI root `_UID` of `pci_root.c`: a byte scan of the AML of the DSDT
 * for the first `PCI` device and the first `_UID` name within 64 bytes of
 * it, and the memoized `getPciRootUID` that prefers the PCIRootUID key.
 */
module PciRoot {
  import opened Bytes
  import opened Wrappers
  import StringTable

  /** AML `NameOp`. */
  const NAME_OP: byte := 0x08
  /** `findrootuid` looks at most this far from the PCI device. */
  const UID_WINDOW: int := 64
  const NO_UID: nat := 11
  const NO_PCI_ROOT: nat := 10
  /** The value of the static `rootuid` before the first call. */
  const NOT_COMPUTED: int := 10
  const DEFAULT_DSDT: string := "/Extra/DSDT.aml"

  /** Exclusive bound of the `findrootuid` loop: `i < 64 && i < len - 5`. */
  function UidLimit(d: seq<byte>): int
  {
    if |d| - 5 < UID_WINDOW then |d| - 5 else UID_WINDOW
  }

  /** "_UID" at `i`, with a `NameOp` byte after the value byte. */
  predicate UidAt(d: seq<byte>, i: nat)
    requires i + 5 < |d|
  {
    d[i] == 0x5F && d[i + 1] == 0x55 && d[i + 2] == 0x49 && d[i + 3] == 0x44 && d[i + 5] == NAME_OP
  }

  /** Reference definition of `findrootuid` from position `i` on. */
  function UidFrom(d: seq<byte>, i: nat): (r: nat)
    decreases |d| - i
  {
    if i < UidLimit(d) then
      if UidAt(d, i) then d[i + 4] as nat else UidFrom(d, i + 1)
    else NO_UID
  }

  /** `findrootuid`. */
  method FindRootUid(d: seq<byte>) returns (r: nat)
    ensures r == UidFrom(d, 0)
  {
    var i := 0;
    while i < UID_WINDOW && i < |d| - 5
      invariant 0 <= i && (i <= UidLimit(d) || i == 0)
      invariant UidFrom(d, 0) == UidFrom(d, i)
      decreases |d| - i
    {
      if d[i] == 0x5F && d[i + 1] == 0x55 && d[i + 2] == 0x49 && d[i + 3] == 0x44 && d[i + 5] == NAME_OP {
        return d[i + 4] as nat;
      }
      i := i + 1;
    }
    return NO_UID;
  }

  /** The first `_UID` in the window decides the result. */
  lemma {:induction false} UidFirstMatch(d: seq<byte>, i: nat, k: nat)
    requires i <= k < UidLimit(d)
    requires UidAt(d, k)
    requires forall j :: i <= j < k ==> !UidAt(d, j)
    ensures UidFrom(d, i) == d[k + 4] as nat
    decreases k - i
  {
    if i < k {
      UidFirstMatch(d, i + 1, k);
    }
  }

  /** Without a `_UID` in the window the result is 11. */
  lemma {:induction false} UidNoMatch(d: seq<byte>, i: nat)
    requires forall j :: i <= j < UidLimit(d) ==> !UidAt(d, j)
    ensures UidFrom(d, i) == NO_UID
    decreases |d| - i
  {
    if i < UidLimit(d) {
      UidNoMatch(d, i + 1);
    }
  }

  /** "PCI" at `i` followed by a `NameOp` one or two bytes later. */
  predicate PciAt(d: seq<byte>, i: nat)
    requires i + 4 < |d|
  {
    d[i] == 0x50 && d[i + 1] == 0x43 && d[i + 2] == 0x49 && (d[i + 3] == NAME_OP || d[i + 4] == NAME_OP)
  }

  /** Reference definition of `findpciroot` from position `i` on. */
  function PciRootFrom(d: seq<byte>, i: nat): (r: nat)
    decreases |d| - i
  {
    if i + 4 < |d| then
      if PciAt(d, i) then UidFrom(d[i..], 0) else PciRootFrom(d, i + 1)
    else NO_PCI_ROOT
  }

  /** `findpciroot`. */
  method FindPciRoot(d: seq<byte>) returns (r: nat)
    ensures r == PciRootFrom(d, 0)
  {
    var i := 0;
    while i < |d| - 4
      invariant PciRootFrom(d, 0) == PciRootFrom(d, i)
      decreases |d| - i
    {
      if d[i] == 0x50 && d[i + 1] == 0x43 && d[i + 2] == 0x49 && (d[i + 3] == NAME_OP || d[i + 4] == NAME_OP) {
        r := FindRootUid(d[i..]);
        return;
      }
      i := i + 1;
    }
    return NO_PCI_ROOT;
  }

  /** The first PCI device decides the result, scanned from its own position. */
  lemma {:induction false} PciFirstMatch(d: seq<byte>, i: nat, k: nat)
    requires i <= k && k + 4 < |d|
    requires PciAt(d, k)
    requires forall j :: i <= j < k ==> !PciAt(d, j)
    ensures PciRootFrom(d, i) == UidFrom(d[k..], 0)
    decreases k - i
  {
    if i < k {
      PciFirstMatch(d, i + 1, k);
    }
  }

  /** Without a PCI device the result is 10. */
  lemma {:induction false} PciNoMatch(d: seq<byte>, i: nat)
    requires forall j :: i <= j && j + 4 < |d| ==> !PciAt(d, j)
    ensures PciRootFrom(d, i) == NO_PCI_ROOT
    decreases |d| - i
  {
    if i + 4 < |d| {
      PciNoMatch(d, i + 1);
    }
  }

  /**
   * The file `getPciRootUID` loads: the DSDT key's value read as a C string
   * from the value pointer, or the default path.
   */
  function DsdtPath(dsdtKey: Option<StringTable.Value>): (p: string)
    ensures dsdtKey.None? ==> p == DEFAULT_DSDT
    ensures dsdtKey.Some? ==> p == dsdtKey.value.rest
  {
    if dsdtKey.Some? then dsdtKey.value.rest else DEFAULT_DSDT
  }

  /**
   * The value `getPciRootUID` settles on when it runs: the digit at the
   * PCIRootUID value pointer (0 for a non-digit), else the DSDT's `_UID`
   * when it is in 0..9 and the file could be read, else 0.
   */
  function ChooseUid(uidKey: Option<StringTable.Value>, dsdt: Option<seq<byte>>): (r: nat)
    ensures r <= 9
  {
    if uidKey.Some? then
      var c := At(uidKey.value.rest, 0);
      if IsDigit(c) then DigitVal(c) else 0
    else if dsdt.None? then 0
    else
      var u := PciRootFrom(dsdt.value, 0);
      if u <= 9 then u else 0
  }

  /** A PCIRootUID key decides on its own: the DSDT is not looked at. */
  lemma KeyOverridesDsdt(v: StringTable.Value, d1: Option<seq<byte>>, d2: Option<seq<byte>>)
    ensures ChooseUid(Some(v), d1) == ChooseUid(Some(v), d2)
    ensures IsDigit(At(v.rest, 0)) ==> ChooseUid(Some(v), d1) == (At(v.rest, 0) as int) - ('0' as int)
  {
  }

  /** The static `rootuid` of `getPciRootUID`. */
  class RootUid {
    var rootuid: int

    /** The cache holds either the "not yet computed" marker or a digit. */
    predicate Valid()
      reads this
    {
      rootuid == NOT_COMPUTED || 0 <= rootuid <= 9
    }

    constructor()
      ensures Valid() && rootuid == NOT_COMPUTED
    {
      rootuid := NOT_COMPUTED;
    }

    /**
     * `getPciRootUID`. `uidKey` and `dsdtKey` are the boot configuration's
     * PCIRootUID and DSDT values; `files` holds the files that can be opened,
     * allocated and read in full.
     */
    method GetPciRootUid(uidKey: Option<StringTable.Value>, dsdtKey: Option<StringTable.Value>,
                         files: map<string, seq<byte>>) returns (r: int)
      requires Valid()
      modifies this
      ensures Valid() && 0 <= r <= 9
      ensures old(rootuid) < NOT_COMPUTED ==> r == old(rootuid) && rootuid == old(rootuid)
      ensures old(rootuid) >= NOT_COMPUTED ==>
        var path := DsdtPath(dsdtKey);
        r == ChooseUid(uidKey, if path in files then Some(files[path]) else None)
      ensures rootuid == r
    {
      if rootuid < NOT_COMPUTED {
        return rootuid;
      }
      rootuid := 0;
      if uidKey.Some? {
        var c := At(uidKey.value.rest, 0);
        if IsDigit(c) {
          rootuid := DigitVal(c);
        }
        return rootuid;
      }
      var path := DsdtPath(dsdtKey);
      if path !in files {
        return rootuid;
      }
      var uid := FindPciRoot(files[path]);
      if uid <= 9 {
        rootuid := uid;
      }
      return rootuid;
    }
  }

  /** Once computed, the value is cached: a second call returns the first result. */
  method GetTwice(u: RootUid, k1: Option<StringTable.Value>, d1: Option<StringTable.Value>, f1: map<string, seq<byte>>,
                  k2: Option<StringTable.Value>, d2: Option<StringTable.Value>, f2: map<string, seq<byte>>)
      returns (first: int, second: int)
    requires u.Valid()
    modifies u
    ensures first == second && 0 <= first <= 9
  {
    first := u.GetPciRootUid(k1, d1, f1);
    second := u.GetPciRootUid(k2, d2, f2);
  }
}
