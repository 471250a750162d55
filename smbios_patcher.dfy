/**
 * The SMBIOS patcher: a new structure table built from the firmware's one.
 * Each original structure is copied with its string-set, and the properties
 * the SMBIOS configuration (or the automatic defaults) gives for its type are
 * written into it; then structures of the described types are synthesized
 * until each type is present as often as required, each under a fresh handle.
 * A dry run sizes the table first; the real run fills it and seals the entry
 * point with its two checksums.
 */
module SmbiosPatcher {
  import opened Wrappers
  import opened Bytes
  import StringTable
  import DeviceInject
  import opened SmbiosDefaults

  // ---------------------------------------------------------------------
  // The property and table-description tables

  datatype ValueType = SmString | SmWord | SmByte | SmOword

  /** The automatic number a property falls back on (`auto_int`). */
  datatype AutoInt = NoAutoInt | AutoFsb | AutoCpu | AutoMemType | AutoMemSpeed | AutoCpuType

  /** The automatic text a property falls back on (`auto_str`). */
  datatype AutoStr = NoAutoStr | AutoDefault | AutoMemVendor | AutoMemSerial | AutoMemPart

  /** A configurable field: its key, the structure type it belongs to, its kind and its offset. */
  datatype Property = Property(name: string, tableType: byte, valueType: ValueType, offset: nat,
                               autoInt: AutoInt, autoStr: AutoStr)

  const PROPERTIES: seq<Property> := [
    Property("SMbiosvendor", 0, SmString, 0x04, NoAutoInt, AutoDefault),
    Property("SMbiosversion", 0, SmString, 0x05, NoAutoInt, AutoDefault),
    Property("SMbiosdate", 0, SmString, 0x08, NoAutoInt, AutoDefault),
    Property("SMmanufacter", 1, SmString, 0x04, NoAutoInt, AutoDefault),
    Property("SMproductname", 1, SmString, 0x05, NoAutoInt, AutoDefault),
    Property("SMsystemversion", 1, SmString, 0x06, NoAutoInt, AutoDefault),
    Property("SMserial", 1, SmString, 0x07, NoAutoInt, AutoDefault),
    Property("SMUUID", 1, SmOword, 0x08, NoAutoInt, NoAutoStr),
    Property("SMfamily", 1, SmString, 0x1a, NoAutoInt, AutoDefault),
    Property("SMboardmanufacter", 2, SmString, 0x04, NoAutoInt, AutoDefault),
    Property("SMboardproduct", 2, SmString, 0x05, NoAutoInt, AutoDefault),
    Property("SMexternalclock", 4, SmWord, 0x12, AutoFsb, NoAutoStr),
    Property("SMmaximalclock", 4, SmWord, 0x14, AutoCpu, NoAutoStr),
    Property("SMmemdevloc", 17, SmString, 0x10, NoAutoInt, NoAutoStr),
    Property("SMmembankloc", 17, SmString, 0x11, NoAutoInt, NoAutoStr),
    Property("SMmemtype", 17, SmByte, 0x12, AutoMemType, NoAutoStr),
    Property("SMmemspeed", 17, SmWord, 0x15, AutoMemSpeed, NoAutoStr),
    Property("SMmemmanufacter", 17, SmString, 0x17, NoAutoInt, AutoMemVendor),
    Property("SMmemserial", 17, SmString, 0x18, NoAutoInt, AutoMemSerial),
    Property("SMmempart", 17, SmString, 0x1A, NoAutoInt, AutoMemPart),
    Property("SMcputype", 131, SmWord, 0x04, AutoCpuType, NoAutoStr),
    Property("SMbusspeed", 132, SmWord, 0x04, NoAutoInt, NoAutoStr)]

  /** A structure type the patcher can synthesize: its formatted length and whether one is wanted by default. */
  datatype Description = Description(kind: byte, len: nat, numfunc: bool)

  const DESCRIPTIONS: seq<Description> := [
    Description(0, 0x18, true),
    Description(1, 0x1b, true),
    Description(2, 0x0f, true),
    Description(4, 0x2a, true),
    Description(17, 0x1c, false),
    Description(131, 0x06, true),
    Description(132, 0x06, true)]

  /** The width in bytes of the field a property writes. */
  function Width(t: ValueType): nat
  {
    match t
    case SmString => 1
    case SmByte => 1
    case SmWord => 2
    case SmOword => 16
  }

  /** Every property of a described type lies inside that type's formatted area. */
  lemma DescribedFieldsFit(i: nat, j: nat)
    requires i < |DESCRIPTIONS| && j < |PROPERTIES|
    requires PROPERTIES[j].tableType == DESCRIPTIONS[i].kind
    ensures 4 <= PROPERTIES[j].offset && PROPERTIES[j].offset + Width(PROPERTIES[j].valueType) <= DESCRIPTIONS[i].len
  {
  }

  // ---------------------------------------------------------------------
  // Where values come from

  /**
   * The SMBIOS configuration as `getValueForKey` answers it: key to text
   * (the command-line and override layering is `StringTable.GetValueForKey`).
   */
  type Settings = map<string, string>

  /** The inputs every step depends on: the configuration, the platform, and `SMBIOSdefaults`. */
  datatype Env = Env(cfg: Settings, plat: Platform, doAuto: bool)

  function Lookup(cfg: Settings, key: string): Option<string>
  {
    if key in cfg then Some(cfg[key]) else None
  }

  /** `getIntForKey` on the SMBIOS configuration. */
  function LookupInt(cfg: Settings, key: string): Option<int>
  {
    match Lookup(cfg, key)
    case None => None
    case Some(t) => StringTable.IntForValue(Some(StringTable.Value(t, t)))
  }

  /** The per-instance key "<name>_<n+1>" for the structure's instance `n` of its type. */
  function AltName(name: string, n: nat): string
  {
    name + "_" + StringTable.Decimal(n + 1)
  }

  /** Which key is asked first. */
  datatype Order = NameFirst | AltFirst

  /** The configured text of a property: the two keys in the given order. */
  function Configured(cfg: Settings, prop: Property, n: nat, order: Order): Option<string>
  {
    var alt := Lookup(cfg, AltName(prop.name, n));
    var plain := Lookup(cfg, prop.name);
    if order == AltFirst then (if alt.Some? then alt else plain)
    else (if plain.Some? then plain else alt)
  }

  /** The automatic text for instance `n`. */
  function AutoText(p: Platform, a: AutoStr, name: string, n: nat): Option<string>
  {
    match a
    case NoAutoStr => None
    case AutoDefault => Some(DefaultString(p, name))
    case AutoMemVendor => Some(MemText(p, n, Vendor))
    case AutoMemSerial => Some(MemText(p, n, SerialNo))
    case AutoMemPart => Some(MemText(p, n, PartNo))
  }

  /** The automatic number for instance `n`. */
  function AutoNumber(p: Platform, a: AutoInt, n: nat): Option<int>
  {
    match a
    case NoAutoInt => None
    case AutoFsb => Some(MegaHertz(p.fsbFrequency))
    case AutoCpu => Some(MegaHertz(p.cpuFrequency))
    case AutoMemType => Some(MemType(p, n))
    case AutoMemSpeed => Some(MemSpeed(p))
    case AutoCpuType => Some(CpuType(p.cores))
  }

  /** A string property's text: configured, else automatic when defaults are on. */
  function StringFor(env: Env, prop: Property, n: nat, order: Order): Option<string>
  {
    var c := Configured(env.cfg, prop, n, order);
    if c.Some? then c
    else if env.doAuto then AutoText(env.plat, prop.autoStr, prop.name, n)
    else None
  }

  /** A byte or word property's number: the per-instance key, the plain key, else automatic. */
  function NumberFor(env: Env, prop: Property, n: nat): Option<int>
  {
    var alt := LookupInt(env.cfg, AltName(prop.name, n));
    var plain := LookupInt(env.cfg, prop.name);
    if alt.Some? then alt
    else if plain.Some? then plain
    else if env.doAuto then AutoNumber(env.plat, prop.autoInt, n)
    else None
  }

  /** The configuration's text as the bytes `memcpy` copies (one byte per character). */
  function TextBytes(s: string): (r: seq<byte>)
    ensures |r| == |s|
    ensures forall k :: 0 <= k < |s| ==> r[k] == s[k] as int % 256
  {
    seq(|s|, k requires 0 <= k < |s| => s[k] as int % 256)
  }

  predicate NulFree(b: seq<byte>)
  {
    forall k :: 0 <= k < |b| ==> b[k] != 0
  }

  // ---------------------------------------------------------------------
  // Dry-run sizing

  /** What a string property adds to a structure of type `kind`: its text and a NUL. */
  function Contribution(env: Env, kind: byte, n: nat, order: Order, prop: Property): nat
  {
    if prop.tableType == kind && prop.valueType == SmString then
      match StringFor(env, prop, n, order)
      case Some(v) => |v| + 1
      case None => 0
    else 0
  }

  /** The bytes the first `j` properties add to instance `n` of type `kind`. */
  function StringBytes(env: Env, kind: byte, n: nat, order: Order, j: nat): nat
    requires j <= |PROPERTIES|
  {
    if j == 0 then 0 else StringBytes(env, kind, n, order, j - 1) + Contribution(env, kind, n, order, PROPERTIES[j - 1])
  }

  /**
   * A structure's size: formatted area, existing and added strings, and the
   * terminating NUL, where an empty string-set still takes a NUL of its own.
   */
  function StructureSize(len: nat, existing: nat, added: nat): (r: nat)
    ensures r >= len + 2
    ensures r == len + existing + added + 1 || (existing + added == 0 && r == len + 2)
  {
    len + (if existing + added == 0 then 1 else existing + added) + 1
  }

  // ---------------------------------------------------------------------
  // Writing fields

  /**
   * A write at offset `pos` of the structure being built. A position the
   * write cursor has not reached yet is written again before the table is
   * finished, so such a write leaves no trace.
   */
  function Put(b: seq<byte>, pos: nat, x: byte): (r: seq<byte>)
    ensures |r| == |b|
    ensures pos < |b| ==> r[pos] == x
    ensures forall k :: 0 <= k < |b| && k != pos ==> r[k] == b[k]
  {
    if pos < |b| then b[pos := x] else b
  }

  /** Consecutive writes starting at `pos`. */
  function PutAll(b: seq<byte>, pos: nat, xs: seq<byte>): (r: seq<byte>)
    ensures |r| == |b|
    ensures forall k :: 0 <= k < |xs| && pos + k < |b| ==> r[pos + k] == xs[k]
    ensures forall k :: 0 <= k < |b| && !(pos <= k < pos + |xs|) ==> r[k] == b[k]
    decreases |xs|
  {
    if xs == [] then b else PutAll(Put(b, pos, xs[0]), pos + 1, xs[1..])
  }

  // ---------------------------------------------------------------------
  // OWORD values (the UUID)

  predicate IsBlank(c: char)
  {
    c == ' ' || c == '\t' || c == '\n'
  }

  /** The position of the first non-blank character at or after `i`. */
  function SkipBlanks(t: string, i: nat): (r: nat)
    requires i <= |t|
    ensures i <= r <= |t|
    ensures r < |t| ==> !IsBlank(t[r])
    ensures forall k :: i <= k < r ==> IsBlank(t[k])
    decreases |t| - i
  {
    if i < |t| && IsBlank(t[i]) then SkipBlanks(t, i + 1) else i
  }

  /** Where the digits of an OWORD text start: after blanks and an optional "0x" or "0X". */
  function DigitsStart(t: string): (r: nat)
    ensures r <= |t|
  {
    var i := SkipBlanks(t, 0);
    if i + 2 <= |t| && t[i] == '0' && (t[i + 1] == 'x' || t[i + 1] == 'X') then i + 2 else i
  }

  function Take(b: seq<byte>, n: nat): (r: seq<byte>)
    ensures |r| <= n && (|b| <= n ==> r == b) && (|b| > n ==> r == b[..n])
  {
    if |b| <= n then b else b[..n]
  }

  /** The bytes an OWORD text stands for: its hex digits in pairs, at most sixteen. */
  function OwordBytes(s: string): (r: seq<byte>)
    ensures |r| <= 16
  {
    var t := CStr(s, 0);
    Take(DeviceInject.PackPairs(DeviceInject.HexDigitsOf(t[DigitsStart(t)..])), 16)
  }

  /** The sixteen-byte field: zeroed first, then the parsed bytes from its start. */
  function OwordField(s: string): (r: seq<byte>)
    ensures |r| == 16
    ensures r[..|OwordBytes(s)|] == OwordBytes(s)
    ensures forall k :: |OwordBytes(s)| <= k < 16 ==> r[k] == 0
  {
    OwordBytes(s) + Zeros(16 - |OwordBytes(s)|)
  }

  /** The digit filter splits over concatenation. */
  lemma {:induction false} HexDigitsAppend(a: string, b: string)
    ensures DeviceInject.HexDigitsOf(a + b) == DeviceInject.HexDigitsOf(a) + DeviceInject.HexDigitsOf(b)
    decreases |b|
  {
    if b == [] {
      assert a + b == a;
    } else {
      var b' := b[..|b| - 1];
      HexDigitsAppend(a, b');
      assert (a + b)[..|a + b| - 1] == a + b';
    }
  }

  /** Whole pairs are packed independently of the digits after them. */
  lemma {:induction false} PackPairsAppend(d: string, e: string)
    requires forall k :: 0 <= k < |d| ==> IsHexDigit(d[k])
    requires forall k :: 0 <= k < |e| ==> IsHexDigit(e[k])
    requires |d| % 2 == 0
    ensures forall k :: 0 <= k < |d + e| ==> IsHexDigit((d + e)[k])
    ensures DeviceInject.PackPairs(d + e) == DeviceInject.PackPairs(d) + DeviceInject.PackPairs(e)
    decreases |d|
  {
    assert forall k :: 0 <= k < |d + e| ==> IsHexDigit((d + e)[k]) by {
      forall k | 0 <= k < |d + e|
        ensures IsHexDigit((d + e)[k])
      {
        if k < |d| {
          assert (d + e)[k] == d[k];
        } else {
          assert (d + e)[k] == e[k - |d|];
        }
      }
    }
    if |d| == 0 {
      assert d + e == e;
    } else {
      PackPairsAppend(d[2..], e);
      assert (d + e)[2..] == d[2..] + e;
    }
  }

  /** The C string of `s` agrees with `s` up to its end, where `s` has a NUL or ends. */
  lemma CStrAgrees(s: string, p: nat)
    requires p <= |CStr(s, 0)|
    ensures p < |s| && s[p] != '\0' <==> p < |CStr(s, 0)|
    ensures p < |CStr(s, 0)| ==> s[p] == CStr(s, 0)[p]
  {
  }

  /** The blank skipping and the "0x" test: where the digits start. */
  method OwordStart(s: string) returns (p: nat)
    ensures p == DigitsStart(CStr(s, 0))
  {
    ghost var t := CStr(s, 0);
    p := 0;
    while p < |s| && s[p] != '\0' && IsBlank(s[p])
      invariant p <= |t| && SkipBlanks(t, p) == SkipBlanks(t, 0)
    {
      CStrAgrees(s, p);
      p := p + 1;
    }
    CStrAgrees(s, p);
    if p + 2 <= |s| && s[p] == '0' && (s[p + 1] == 'x' || s[p + 1] == 'X') {
      CStrAgrees(s, p + 1);
      p := p + 2;
    } else if p + 1 < |t| {
      CStrAgrees(s, p + 1);
    }
  }

  /** The digit loop's state: `Converted` with the pending digit's value held in `acc`. */
  ghost predicate DigitLoop(u: string, i: nat, paired: string, out: seq<byte>, pending: Option<char>, kk: int, acc: int)
  {
    DeviceInject.Converted(u, i, paired, out, pending) && |out| <= 16 && 0 <= kk <= 1 &&
    (kk == 1) == pending.Some? && (|out| == 16 ==> kk == 0) &&
    (kk == 0 ==> acc == 0) && (kk == 1 ==> IsHexDigit(pending.value) && acc == HexVal(pending.value))
  }

  /** Sixteen bytes stored: the rest of the text cannot change the field. */
  lemma DigitLoopFull(u: string, i: nat, paired: string, out: seq<byte>, pending: Option<char>, kk: int, acc: int)
    requires DigitLoop(u, i, paired, out, pending, kk, acc) && |out| == 16
    ensures Take(DeviceInject.PackPairs(DeviceInject.HexDigitsOf(u)), 16) == out
  {
    assert u == u[..i] + u[i..];
    HexDigitsAppend(u[..i], u[i..]);
    assert paired + [] == paired;
    PackPairsAppend(paired, DeviceInject.HexDigitsOf(u[i..]));
    DeviceInject.PackPairsLength(paired);
  }

  /** The text ended: the field holds every complete pair. */
  lemma DigitLoopEnd(u: string, paired: string, out: seq<byte>, pending: Option<char>, kk: int, acc: int)
    requires DigitLoop(u, |u|, paired, out, pending, kk, acc)
    ensures Take(DeviceInject.PackPairs(DeviceInject.HexDigitsOf(u)), 16) == out
  {
    DeviceInject.ConvertDone(u, paired, out, pending);
  }

  /** One character of the digit loop. */
  lemma DigitLoopStep(u: string, i: nat, paired: string, out: seq<byte>, pending: Option<char>, kk: int, acc: int)
    requires DigitLoop(u, i, paired, out, pending, kk, acc) && i < |u| && |out| < 16
    ensures !IsHexDigit(u[i]) ==> DigitLoop(u, i + 1, paired, out, pending, kk, acc)
    ensures IsHexDigit(u[i]) && kk == 0 ==> DigitLoop(u, i + 1, paired, out, Some(u[i]), 1, HexVal(u[i]))
    ensures IsHexDigit(u[i]) && kk == 1 ==>
              16 * acc + HexVal(u[i]) < 256 &&
              DigitLoop(u, i + 1, paired + [pending.value, u[i]], out + [16 * acc + HexVal(u[i])], None, 0, 0)
  {
    if !IsHexDigit(u[i]) {
      DeviceInject.ConvertSkip(u, i, paired, out, pending);
    } else if kk == 0 {
      DeviceInject.ConvertFirst(u, i, paired, out);
    } else {
      DeviceInject.ConvertSecond(u, i, paired, out, pending.value);
    }
  }

  /** The three digit-range tests of the OWORD loop: the digit's value, or -1 for any other character. */
  function DigitValue(c: char): (d: int)
    ensures d >= 0 <==> IsHexDigit(c)
    ensures d >= 0 ==> d == HexVal(c)
  {
    if '0' <= c <= '9' then (c - '0') as int
    else if 'a' <= c <= 'f' then (c - 'a') as int + 10
    else if 'A' <= c <= 'F' then (c - 'A') as int + 10
    else -1
  }

  /**
   * The OWORD parse as the real run does it: blanks and a "0x" prefix are
   * skipped, then each pair of hexadecimal digits becomes the next byte
   * until sixteen are stored or the text ends; the rest of the zeroed field
   * stays zero.
   */
  method ParseOword(s: string) returns (field: seq<byte>)
    ensures field == OwordField(s)
  {
    var p := OwordStart(s);
    var out := OwordDigits(s, p);
    field := out + Zeros(16 - |out|);
  }

  /** The digit loop of `ParseOword`, from position `p` of the text. */
  method OwordDigits(s: string, p: nat) returns (out: seq<byte>)
    requires p <= |CStr(s, 0)|
    ensures out == Take(DeviceInject.PackPairs(DeviceInject.HexDigitsOf(CStr(s, 0)[p..])), 16)
  {
    ghost var u := CStr(s, 0)[p..];
    out := [];
    var i := p;
    var acc := 0;
    var kk := 0;
    ghost var paired: string := [];
    ghost var pending: Option<char> := None;
    assert u[..0] == [];
    while i < |s| && s[i] != '\0' && |out| < 16
      invariant p <= i <= |CStr(s, 0)|
      invariant DigitLoop(u, i - p, paired, out, pending, kk, acc)
      decreases |s| - i
    {
      CStrAgrees(s, i);
      var c := s[i];
      assert c == u[i - p];
      DigitLoopStep(u, i - p, paired, out, pending, kk, acc);
      var d := DigitValue(c);
      if d < 0 {
      } else if kk == 0 {
        acc, kk := d, 1;
        pending := Some(c);
      } else {
        out := out + [16 * acc + d];
        paired := paired + [pending.value, c];
        pending := None;
        kk, acc := 0, 0;
      }
      i := i + 1;
    }
    CStrAgrees(s, i);
    if |out| == 16 {
      DigitLoopFull(u, i - p, paired, out, pending, kk, acc);
    } else {
      DigitLoopEnd(u, paired, out, pending, kk, acc);
    }
  }

  /** Text of the form "0x" and hexadecimal digits: the digits start after the prefix. */
  lemma PrefixedStart(s: string)
    requires |s| >= 2 && s[0] == '0' && s[1] == 'x'
    ensures DigitsStart(s) == 2
  {
    assert SkipBlanks(s, 0) == 0;
  }

  /** The OWORD of sixteen bytes written as "0x" and 32 hexadecimal digits reads back as those bytes. */
  lemma OwordRoundTrip(b: seq<byte>)
    requires |b| == 16
    ensures OwordField("0x" + DeviceInject.HexText(b)) == b
  {
    var h := DeviceInject.HexText(b);
    var s := "0x" + h;
    assert forall k :: 0 <= k < |s| ==> s[k] != '\0' by {
      forall k | 0 <= k < |s|
        ensures s[k] != '\0'
      {
        if k >= 2 {
          assert s[k] == h[k - 2];
        }
      }
    }
    DeviceInject.CStrWhole(s, 0);
    assert s[0..] == s;
    PrefixedStart(s);
    assert s[2..] == h;
    DeviceInject.AllHexKept(h);
    DeviceInject.PackHexText(b);
    assert OwordBytes(s) == b;
    assert b + Zeros(0) == b;
  }

  // ---------------------------------------------------------------------
  // String-sets

  /** The position of the first NUL at or after `i`, or the end. */
  function NulFrom(b: seq<byte>, i: nat): (r: nat)
    requires i <= |b|
    ensures i <= r <= |b|
    ensures r < |b| ==> b[r] == 0
    ensures forall k :: i <= k < r ==> b[k] != 0
    decreases |b| - i
  {
    if i < |b| && b[i] != 0 then NulFrom(b, i + 1) else i
  }

  /** The NUL-terminated strings of a string-set, in order; string k + 1 is the k-th. */
  function Strings(area: seq<byte>): seq<seq<byte>>
    decreases |area|
  {
    var i := NulFrom(area, 0);
    if i >= |area| then [] else [area[..i]] + Strings(area[i + 1..])
  }

  /** A string-set of whole strings: empty or ending in a NUL. */
  predicate Terminated(b: seq<byte>)
  {
    b == [] || b[|b| - 1] == 0
  }

  /** The number of NUL bytes. */
  function ZeroCount(b: seq<byte>): nat
  {
    if b == [] then 0 else (if b[0] == 0 then 1 else 0) + ZeroCount(b[1..])
  }

  lemma {:induction false} ZeroCountAppend(a: seq<byte>, b: seq<byte>)
    ensures ZeroCount(a + b) == ZeroCount(a) + ZeroCount(b)
    decreases |a|
  {
    if a != [] {
      assert (a + b)[1..] == a[1..] + b;
      ZeroCountAppend(a[1..], b);
    } else {
      assert a + b == b;
    }
  }

  lemma NulFromPrefix(a: seq<byte>, b: seq<byte>)
    requires NulFrom(a, 0) < |a|
    ensures NulFrom(a + b, 0) == NulFrom(a, 0)
  {
    assert forall k :: 0 <= k < |a| ==> (a + b)[k] == a[k];
  }

  /** Whole strings followed by more strings: the lists concatenate. */
  lemma {:induction false} StringsAppend(a: seq<byte>, b: seq<byte>)
    requires Terminated(a)
    ensures Strings(a + b) == Strings(a) + Strings(b)
    decreases |a|
  {
    if a == [] {
      assert a + b == b;
    } else {
      var i := NulFrom(a, 0);
      assert i < |a|;
      NulFromPrefix(a, b);
      assert (a + b)[..i] == a[..i];
      assert (a + b)[i + 1..] == a[i + 1..] + b;
      assert Terminated(a[i + 1..]);
      StringsAppend(a[i + 1..], b);
    }
  }

  /** A NUL-free text with its NUL is one string. */
  lemma StringsOne(v: seq<byte>)
    requires NulFree(v)
    ensures Strings(v + [0]) == [v]
  {
    var w := v + [0];
    assert forall k :: 0 <= k < |v| ==> w[k] == v[k];
    assert w[|v|] == 0;
    var i := NulFrom(w, 0);
    assert i <= |v|;
    assert w[..|v|] == v;
    assert w[|v| + 1..] == [];
  }

  /** In whole strings every NUL ends one string. */
  lemma {:induction false} StringsCount(a: seq<byte>)
    requires Terminated(a)
    ensures |Strings(a)| == ZeroCount(a)
    decreases |a|
  {
    if a != [] {
      var i := NulFrom(a, 0);
      assert i < |a|;
      assert a == a[..i] + [0] + a[i + 1..];
      ZeroCountAppend(a[..i] + [0], a[i + 1..]);
      ZeroCountAppend(a[..i], [0]);
      NoZeros(a[..i]);
      assert [0][1..] == [];
      assert Terminated(a[i + 1..]);
      StringsCount(a[i + 1..]);
    }
  }

  lemma {:induction false} NoZeros(b: seq<byte>)
    requires NulFree(b)
    ensures ZeroCount(b) == 0
    decreases |b|
  {
    if b != [] {
      NoZeros(b[1..]);
    }
  }

  // ---------------------------------------------------------------------
  // Filling one structure

  /** A structure under construction: its bytes so far and how many strings it has. */
  datatype Building = Building(bytes: seq<byte>, nstrings: nat)

  /** An added string: appended with its NUL, then its number stored (as a byte) at the property's offset. */
  function AddString(st: Building, v: string, offset: nat): Building
  {
    var grown := st.bytes + TextBytes(v) + [0];
    Building(Put(grown, offset, (st.nstrings + 1) % 256), st.nstrings + 1)
  }

  /** What one property does to instance `n` of type `kind`; every key is asked per instance first. */
  function Apply(env: Env, kind: byte, n: nat, st: Building, prop: Property): Building
  {
    if prop.tableType != kind then st
    else
      match prop.valueType
      case SmString =>
        (match StringFor(env, prop, n, AltFirst)
         case Some(v) => AddString(st, v, prop.offset)
         case None => st)
      case SmOword =>
        (match Configured(env.cfg, prop, n, AltFirst)
         case Some(v) => st.(bytes := PutAll(st.bytes, prop.offset, OwordField(v)))
         case None => st)
      case SmByte =>
        (match NumberFor(env, prop, n)
         case Some(x) => st.(bytes := Put(st.bytes, prop.offset, x % 256))
         case None => st)
      case SmWord =>
        (match NumberFor(env, prop, n)
         case Some(x) => st.(bytes := PutAll(st.bytes, prop.offset, EncLE16(x % TWO16)))
         case None => st)
  }

  /** The structure after the first `j` properties. */
  function Fill(env: Env, kind: byte, n: nat, st: Building, j: nat): Building
    requires j <= |PROPERTIES|
  {
    if j == 0 then st else Apply(env, kind, n, Fill(env, kind, n, st, j - 1), PROPERTIES[j - 1])
  }

  /** The end of the string-set: a NUL of its own when there are no strings, then the final NUL. */
  function Finish(st: Building): seq<byte>
  {
    st.bytes + (if st.nstrings == 0 then [0] else []) + [0]
  }

  /** An original structure: type, handle, formatted area, and its strings without the set's final NUL. */
  datatype Structure = Structure(kind: byte, handle: nat, formatted: seq<byte>, strings: seq<byte>)

  /** An original structure as the real run rewrites it, as instance `n` of its type. */
  function RebuildOriginal(env: Env, s: Structure, n: nat): seq<byte>
  {
    Finish(Fill(env, s.kind, n, Building(s.formatted + s.strings, ZeroCount(s.strings)), |PROPERTIES|))
  }

  /** A zeroed formatted area with the type, length and handle set. */
  function Header(d: Description, handle: nat): (r: seq<byte>)
    requires 4 <= d.len && handle < TWO16
    ensures |r| == d.len
  {
    [d.kind, d.len % 256] + EncLE16(handle) + Zeros(d.len - 4)
  }

  /** A synthesized structure of description `d`, under `handle`, as instance `n` of its type. */
  function RebuildDescribed(env: Env, d: Description, handle: nat, n: nat): seq<byte>
    requires 4 <= d.len && handle < TWO16
  {
    Finish(Fill(env, d.kind, n, Building(Header(d, handle), 0), |PROPERTIES|))
  }

  /** Properties only ever append strings: the bytes grow by exactly the dry run's string sizes. */
  lemma {:induction false} FillLength(env: Env, kind: byte, n: nat, st: Building, j: nat)
    requires j <= |PROPERTIES|
    ensures |Fill(env, kind, n, st, j).bytes| == |st.bytes| + StringBytes(env, kind, n, AltFirst, j)
    ensures Fill(env, kind, n, st, j).nstrings >= st.nstrings
    ensures Fill(env, kind, n, st, j).nstrings == st.nstrings <==> StringBytes(env, kind, n, AltFirst, j) == 0
  {
    if j > 0 {
      FillLength(env, kind, n, st, j - 1);
    }
  }

  /** A string-set of whole strings has no NUL only when it is empty. */
  lemma TerminatedZeros(b: seq<byte>)
    requires Terminated(b)
    ensures ZeroCount(b) == 0 <==> b == []
  {
    if b != [] {
      assert b == b[..|b| - 1] + [0];
      ZeroCountAppend(b[..|b| - 1], [0]);
      assert [0][1..] == [];
    }
  }

  /** A rewritten original structure has exactly the corrected dry-run size. */
  lemma RebuildOriginalSize(env: Env, s: Structure, n: nat)
    requires Terminated(s.strings)
    ensures |RebuildOriginal(env, s, n)| ==
            StructureSize(|s.formatted|, |s.strings|, StringBytes(env, s.kind, n, AltFirst, |PROPERTIES|))
  {
    FillLength(env, s.kind, n, Building(s.formatted + s.strings, ZeroCount(s.strings)), |PROPERTIES|);
    TerminatedZeros(s.strings);
  }

  /** A synthesized structure has exactly the dry-run size. */
  lemma RebuildDescribedSize(env: Env, d: Description, handle: nat, n: nat)
    requires 4 <= d.len && handle < TWO16
    ensures |RebuildDescribed(env, d, handle, n)| == StructureSize(d.len, 0, StringBytes(env, d.kind, n, AltFirst, |PROPERTIES|))
  {
    FillLength(env, d.kind, n, Building(Header(d, handle), 0), |PROPERTIES|);
  }

  // ---------------------------------------------------------------------
  // String numbering

  /** The formatted area is the first `len` bytes; after it come whole strings, `nstrings` of them. */
  ghost predicate Layout(st: Building, len: nat)
  {
    len <= |st.bytes| && Terminated(st.bytes[len..]) && st.nstrings == |Strings(st.bytes[len..])|
  }

  /**
   * An added string becomes the last string of the set, and the number stored
   * at the property's offset is its 1-based position, counted after the
   * strings already there.
   */
  lemma AddStringNumbered(st: Building, v: string, offset: nat, len: nat)
    requires Layout(st, len) && offset < len && NulFree(TextBytes(v))
    ensures Layout(AddString(st, v, offset), len)
    ensures Strings(AddString(st, v, offset).bytes[len..]) == Strings(st.bytes[len..]) + [TextBytes(v)]
    ensures AddString(st, v, offset).bytes[offset] == AddString(st, v, offset).nstrings % 256
    ensures forall k :: 0 <= k < len && k != offset ==> AddString(st, v, offset).bytes[k] == st.bytes[k]
  {
    var area := st.bytes[len..];
    var r := AddString(st, v, offset);
    assert r.bytes[len..] == area + (TextBytes(v) + [0]);
    StringsAppend(area, TextBytes(v) + [0]);
    StringsOne(TextBytes(v));
  }

  // ---------------------------------------------------------------------
  // Walking the original table

  /** Where a string-set starting at `q` ends: the first position holding two NULs. */
  function StringsEnd(t: seq<byte>, q: nat): (r: Option<nat>)
    ensures r.Some? ==> q <= r.value && r.value + 1 < |t| && t[r.value] == 0 && t[r.value + 1] == 0
    ensures r.Some? ==> forall k :: q <= k < r.value ==> t[k] != 0 || t[k + 1] != 0
    decreases |t| - q
  {
    if q + 1 >= |t| then None
    else if t[q] == 0 && t[q + 1] == 0 then Some(q)
    else StringsEnd(t, q + 1)
  }

  /**
   * The structure at `p` and where the next one starts. A header that does
   * not fit, or a string-set without its double NUL inside the table, is a
   * walk off the end of the table.
   */
  function StructureAt(t: seq<byte>, p: nat): (r: Option<(Structure, nat)>)
    ensures r.Some? ==> Terminated(r.value.0.strings) && |r.value.0.formatted| >= 4 && r.value.0.handle < TWO16
    ensures r.Some? ==> p < r.value.1 <= |t|
  {
    if p + 4 > |t| || t[p + 1] < 4 || p + t[p + 1] > |t| then None
    else
      var q := p + t[p + 1];
      match StringsEnd(t, q)
      case None => None
      case Some(e) =>
        Some((Structure(t[p], LE16(t, p + 2), t[p..q], if e == q then [] else t[q..e + 1]), e + 2))
  }

  /** The first `i` structures of the table and the position after them. */
  function Walk(t: seq<byte>, i: nat): (r: Option<(seq<Structure>, nat)>)
    ensures r.Some? ==> |r.value.0| == i && r.value.1 <= |t|
    ensures r.Some? ==> forall k :: 0 <= k < i ==> Terminated(r.value.0[k].strings) && |r.value.0[k].formatted| >= 4
  {
    if i == 0 then Some(([], 0))
    else
      match Walk(t, i - 1)
      case None => None
      case Some(w) =>
        match StructureAt(t, w.1)
        case None => None
        case Some(x) => Some((w.0 + [x.0], x.1))
  }

  /** The scan for the double NUL from `q`, counting the NULs passed on the way. */
  method ScanStrings(t: seq<byte>, q: nat) returns (e: Option<nat>, zeros: nat)
    requires q <= |t|
    ensures e == StringsEnd(t, q)
    ensures e.Some? ==> zeros == ZeroCount(t[q..e.value])
  {
    var i := q;
    zeros := 0;
    assert t[q..q] == [];
    while i + 1 < |t| && (t[i] != 0 || t[i + 1] != 0)
      invariant q <= i <= |t|
      invariant StringsEnd(t, i) == StringsEnd(t, q)
      invariant zeros == ZeroCount(t[q..i])
    {
      if t[i] == 0 {
        zeros := zeros + 1;
      }
      ZeroCountAppend(t[q..i], [t[i]]);
      assert [t[i]][1..] == [];
      assert t[q..i + 1] == t[q..i] + [t[i]];
      i := i + 1;
    }
    if i + 1 >= |t| {
      return None, zeros;
    }
    e := Some(i);
  }

  /**
   * Reading the structure at `p` as both runs do: past the formatted area,
   * then along the string-set to its double NUL, counting a string at each
   * NUL before it and one more when the set is not empty.
   */
  method ReadStructure(t: seq<byte>, p: nat) returns (r: Option<(Structure, nat)>, nstrings: nat)
    ensures r == StructureAt(t, p)
    ensures r.Some? ==> nstrings == ZeroCount(r.value.0.strings)
  {
    if p + 4 > |t| || t[p + 1] < 4 || p + t[p + 1] > |t| {
      return None, 0;
    }
    var q := p + t[p + 1];
    var e;
    e, nstrings := ScanStrings(t, q);
    if e.None? {
      return None, 0;
    }
    var i := e.value;
    var strings: seq<byte> := [];
    if i != q {
      ZeroCountAppend(t[q..i], [0]);
      assert [0][1..] == [];
      assert t[q..i + 1] == t[q..i] + [0];
      nstrings := nstrings + 1;
      strings := t[q..i + 1];
    }
    r := Some((Structure(t[p], LE16(t, p + 2), t[p..q], strings), i + 2));
  }

  // ---------------------------------------------------------------------
  // The plan: which structures the new table holds, in order

  datatype Source = Original(s: Structure) | Described(d: Description)

  function KindOf(x: Source): byte
  {
    match x
    case Original(s) => s.kind
    case Described(d) => d.kind
  }

  /** How many structures of type `kind` a plan holds (`tablespresent`). */
  function CountKind(plan: seq<Source>, kind: byte): nat
  {
    if plan == [] then 0
    else CountKind(plan[..|plan| - 1], kind) + (if KindOf(plan[|plan| - 1]) == kind then 1 else 0)
  }

  function Originals(ss: seq<Structure>): (r: seq<Source>)
    ensures |r| == |ss| && forall k :: 0 <= k < |ss| ==> r[k] == Original(ss[k])
  {
    seq(|ss|, k requires 0 <= k < |ss| => Original(ss[k]))
  }

  /** How many structures description `i` asks for: `SMtable<i>`, else one when defaults are on and it has a count. */
  function Needed(env: Env, i: nat): int
    requires i < |DESCRIPTIONS|
  {
    var v := LookupInt(env.cfg, "SMtable" + StringTable.Decimal(i));
    var numnec := if v.Some? then v.value else -1;
    if numnec == -1 && env.doAuto && DESCRIPTIONS[i].numfunc then 1 else numnec
  }

  function Copies(x: Source, c: nat): (r: seq<Source>)
    ensures |r| == c && forall k :: 0 <= k < c ==> r[k] == x
  {
    seq(c, k => x)
  }

  /** How many structures of description `i` are synthesized after `plan`. */
  function Missing(env: Env, plan: seq<Source>, i: nat): nat
    requires i < |DESCRIPTIONS|
  {
    var have := CountKind(plan, DESCRIPTIONS[i].kind);
    var need := Needed(env, i);
    if need > have then need - have else 0
  }

  /** Descriptions `i` onwards, each adding structures until its type is present often enough. */
  function Synthesize(env: Env, plan: seq<Source>, i: nat): seq<Source>
    decreases |DESCRIPTIONS| - i
  {
    if i >= |DESCRIPTIONS| then plan
    else Synthesize(env, plan + Copies(Described(DESCRIPTIONS[i]), Missing(env, plan, i)), i + 1)
  }

  /** The whole new table: the originals in order, then the synthesized structures. */
  function Plan(env: Env, ss: seq<Structure>): seq<Source>
  {
    Synthesize(env, Originals(ss), 0)
  }

  // ---------------------------------------------------------------------
  // The dry run

  /** The size the dry run reserves for a structure; `order` is the key order it uses for originals. */
  function ItemSize(env: Env, order: Order, x: Source, n: nat): nat
  {
    match x
    case Original(s) => StructureSize(|s.formatted|, |s.strings|, StringBytes(env, s.kind, n, order, |PROPERTIES|))
    case Described(d) => StructureSize(d.len, 0, StringBytes(env, d.kind, n, AltFirst, |PROPERTIES|))
  }

  /** The sum of the reserved sizes (the unwrapped `tableLength`). */
  function TableLength(env: Env, order: Order, plan: seq<Source>): nat
  {
    if plan == [] then 0
    else
      var init := plan[..|plan| - 1];
      var x := plan[|plan| - 1];
      TableLength(env, order, init) + ItemSize(env, order, x, CountKind(init, KindOf(x)))
  }

  /** `maxStructureSize`: the running maximum, kept in a 16-bit field. */
  function MaxSize(env: Env, order: Order, plan: seq<Source>): (r: nat)
    ensures r < TWO16
  {
    if plan == [] then 0
    else
      var init := plan[..|plan| - 1];
      var x := plan[|plan| - 1];
      var m := MaxSize(env, order, init);
      var size := ItemSize(env, order, x, CountKind(init, KindOf(x)));
      if m < size then size % TWO16 else m
  }

  // ---------------------------------------------------------------------
  // Handles

  /** The smallest handle in `[x, stop)` that is not in use. */
  function FreeFrom(used: set<nat>, x: nat, stop: nat): (r: Option<nat>)
    ensures r.Some? ==> x <= r.value < stop && r.value !in used
    ensures r.Some? ==> forall y :: x <= y < r.value ==> y in used
    ensures r.None? ==> forall y :: x <= y < stop ==> y in used
    decreases stop - x
  {
    if x >= stop then None
    else if x !in used then Some(x)
    else FreeFrom(used, x + 1, stop)
  }

  /**
   * The 16-bit handle search: upwards from the previous allocation, wrapping
   * round to 0; `None` when every handle is in use (the source never stops).
   */
  function NextFree(used: set<nat>, next: nat): Option<nat>
  {
    match FreeFrom(used, next, TWO16)
    case Some(h) => Some(h)
    case None => FreeFrom(used, 0, next)
  }

  /** The new table the real run writes, with the handles in use and the last one allocated. */
  datatype Rebuilt = Rebuilt(bytes: seq<byte>, used: set<nat>, next: nat)

  /**
   * The real run's step for one structure of the plan, instance `n` of its
   * type: an original is rewritten and its handle marked used; a described
   * one gets the next free handle. `None` when no handle is free.
   */
  function RebuildNext(env: Env, prev: Option<Rebuilt>, x: Source, n: nat): (r: Option<Rebuilt>)
    requires prev.Some? ==> prev.value.next < TWO16
    ensures r.Some? ==> r.value.next < TWO16
  {
    match prev
    case None => None
    case Some(st) =>
      match x
      case Original(s) =>
        Some(Rebuilt(st.bytes + RebuildOriginal(env, s, n), st.used + {s.handle}, st.next))
      case Described(d) =>
        if d.len < 4 then None
        else
          match NextFree(st.used, st.next)
          case None => None
          case Some(h) => Some(Rebuilt(st.bytes + RebuildDescribed(env, d, h, n), st.used + {h}, h))
  }

  /** The real run over a plan; `None` when the handle search finds every handle taken. */
  function RebuildPlan(env: Env, plan: seq<Source>): (r: Option<Rebuilt>)
    ensures r.Some? ==> r.value.next < TWO16
  {
    if plan == [] then Some(Rebuilt([], {}, 0))
    else
      var init := plan[..|plan| - 1];
      var x := plan[|plan| - 1];
      RebuildNext(env, RebuildPlan(env, init), x, CountKind(init, KindOf(x)))
  }

  /** The new table's bytes for a plan. */
  function NewBytes(env: Env, plan: seq<Source>): Option<seq<byte>>
  {
    match RebuildPlan(env, plan)
    case None => None
    case Some(b) => Some(b.bytes)
  }

  // ---------------------------------------------------------------------
  // What the plan and the runs guarantee

  /**
   * A new handle is not in use. It is the smallest free one at or above the
   * previous allocation when there is one; otherwise the search has wrapped
   * round to the smallest free one below it. It fails only when all 65536 are taken.
   */
  lemma NextFreeFacts(used: set<nat>, next: nat)
    requires next < TWO16
    ensures NextFree(used, next).Some? ==> NextFree(used, next).value < TWO16 && NextFree(used, next).value !in used
    ensures NextFree(used, next).Some? && NextFree(used, next).value >= next ==>
              forall y: nat :: next <= y < NextFree(used, next).value ==> y in used
    ensures NextFree(used, next).Some? && NextFree(used, next).value < next ==>
              forall y: nat :: (next <= y < TWO16 || y < NextFree(used, next).value) ==> y in used
    ensures NextFree(used, next).None? <==> forall y: nat :: y < TWO16 ==> y in used
  {
    var above := FreeFrom(used, next, TWO16);
    if above.None? {
      var below := FreeFrom(used, 0, next);
      if below.Some? {
        assert NextFree(used, next) == below;
      } else {
        forall y: nat | y < TWO16
          ensures y in used
        {
          if y < next {
            assert 0 <= y < next;
          } else {
            assert next <= y < TWO16;
          }
        }
      }
    }
  }

  /** A free handle with every handle from `x` below it taken is the one `FreeFrom` finds. */
  lemma {:induction false} FreeFromFinds(used: set<nat>, x: nat, stop: nat, h: nat)
    requires x <= h < stop && h !in used
    requires forall y: nat :: x <= y < h ==> y in used
    ensures FreeFrom(used, x, stop) == Some(h)
    decreases h - x
  {
    if x < h {
      FreeFromFinds(used, x + 1, stop, h);
    }
  }

  /** With every handle in `[x, stop)` taken, `FreeFrom` finds none. */
  lemma {:induction false} FreeFromNone(used: set<nat>, x: nat, stop: nat)
    requires forall y: nat :: x <= y < stop ==> y in used
    ensures FreeFrom(used, x, stop) == None
    decreases stop - x
  {
    if x < stop {
      FreeFromNone(used, x + 1, stop);
    }
  }

  /**
   * The real run's handle search: step the 16-bit `nexthandle` past every
   * handle in use. The source loops for ever once all 65536 are taken; here
   * the search gives up after trying each of them once.
   */
  method AllocateHandle(used: set<nat>, next: nat) returns (h: Option<nat>)
    requires next < TWO16
    ensures h == NextFree(used, next)
  {
    var cur: nat := next;
    var tries := 0;
    ghost var wrapped := false;
    while tries < TWO16 && cur in used
      invariant cur < TWO16 && tries <= TWO16
      invariant !wrapped ==> next <= cur && tries == cur - next && forall y: nat :: next <= y < cur ==> y in used
      invariant wrapped ==> cur <= next && tries == TWO16 - next + cur
      invariant wrapped ==> (forall y: nat :: next <= y < TWO16 ==> y in used) && forall y: nat :: y < cur ==> y in used
    {
      if cur == TWO16 - 1 {
        cur := 0;
        wrapped := true;
      } else {
        cur := cur + 1;
      }
      tries := tries + 1;
    }
    if tries == TWO16 {
      assert cur == next;
      NextFreeFacts(used, next);
      assert forall y: nat :: y < TWO16 ==> y in used by {
        forall y: nat | y < TWO16
          ensures y in used
        {
          if y < next {
            assert y < cur;
          }
        }
      }
      return None;
    }
    if !wrapped {
      FreeFromFinds(used, next, TWO16, cur);
    } else {
      FreeFromNone(used, next, TWO16);
      FreeFromFinds(used, 0, next, cur);
    }
    h := Some(cur);
  }

  lemma {:induction false} CountKindAppend(a: seq<Source>, b: seq<Source>, kind: byte)
    ensures CountKind(a + b, kind) == CountKind(a, kind) + CountKind(b, kind)
    decreases |b|
  {
    if b == [] {
      assert a + b == a;
    } else {
      assert (a + b)[..|a + b| - 1] == a + b[..|b| - 1];
      CountKindAppend(a, b[..|b| - 1], kind);
    }
  }

  lemma {:induction false} CountCopies(x: Source, c: nat, kind: byte)
    ensures CountKind(Copies(x, c), kind) == if KindOf(x) == kind then c else 0
    decreases c
  {
    if c > 0 {
      assert Copies(x, c)[..c - 1] == Copies(x, c - 1);
      CountCopies(x, c - 1, kind);
    }
  }

  /** No two descriptions share a type. */
  lemma DescriptionKindsDistinct()
    ensures forall a, b :: 0 <= a < b < |DESCRIPTIONS| ==> DESCRIPTIONS[a].kind != DESCRIPTIONS[b].kind
  {
  }

  /** Description `i` brings its own type up to what is needed and leaves every other type alone. */
  lemma SynthesizeStep(env: Env, plan: seq<Source>, i: nat, kind: byte)
    requires i < |DESCRIPTIONS|
    ensures CountKind(plan + Copies(Described(DESCRIPTIONS[i]), Missing(env, plan, i)), kind) ==
            if kind != DESCRIPTIONS[i].kind then CountKind(plan, kind)
            else if Needed(env, i) > CountKind(plan, kind) then Needed(env, i)
            else CountKind(plan, kind)
  {
    CountKindAppend(plan, Copies(Described(DESCRIPTIONS[i]), Missing(env, plan, i)), kind);
    CountCopies(Described(DESCRIPTIONS[i]), Missing(env, plan, i), kind);
  }

  /** Synthesis keeps the plan so far as a prefix and only appends described structures. */
  lemma {:induction false} SynthesizeAppends(env: Env, plan: seq<Source>, i: nat)
    ensures |plan| <= |Synthesize(env, plan, i)| && Synthesize(env, plan, i)[..|plan|] == plan
    ensures forall k :: |plan| <= k < |Synthesize(env, plan, i)| ==> Synthesize(env, plan, i)[k].Described?
    decreases |DESCRIPTIONS| - i
  {
    if i < |DESCRIPTIONS| {
      var next := plan + Copies(Described(DESCRIPTIONS[i]), Missing(env, plan, i));
      SynthesizeAppends(env, next, i + 1);
      assert next[..|plan|] == plan;
    }
  }

  /**
   * Synthesis leaves each described type present exactly as often as
   * required, or as often as it already was when that is more; types it does
   * not describe keep their count.
   */
  lemma {:induction false} SynthesizeCounts(env: Env, plan: seq<Source>, i: nat)
    requires i <= |DESCRIPTIONS|
    ensures forall kind: byte :: (forall k :: i <= k < |DESCRIPTIONS| ==> DESCRIPTIONS[k].kind != kind) ==>
              CountKind(Synthesize(env, plan, i), kind) == CountKind(plan, kind)
    ensures forall k :: i <= k < |DESCRIPTIONS| ==>
              CountKind(Synthesize(env, plan, i), DESCRIPTIONS[k].kind) ==
              if Needed(env, k) > CountKind(plan, DESCRIPTIONS[k].kind) then Needed(env, k)
              else CountKind(plan, DESCRIPTIONS[k].kind)
    decreases |DESCRIPTIONS| - i
  {
    if i < |DESCRIPTIONS| {
      var next := plan + Copies(Described(DESCRIPTIONS[i]), Missing(env, plan, i));
      var r := Synthesize(env, plan, i);
      assert r == Synthesize(env, next, i + 1);
      SynthesizeCounts(env, next, i + 1);
      DescriptionKindsDistinct();
      forall kind: byte | forall k :: i <= k < |DESCRIPTIONS| ==> DESCRIPTIONS[k].kind != kind
        ensures CountKind(r, kind) == CountKind(plan, kind)
      {
        SynthesizeStep(env, plan, i, kind);
      }
      forall k | i <= k < |DESCRIPTIONS|
        ensures CountKind(r, DESCRIPTIONS[k].kind) ==
                if Needed(env, k) > CountKind(plan, DESCRIPTIONS[k].kind) then Needed(env, k)
                else CountKind(plan, DESCRIPTIONS[k].kind)
      {
        SynthesizeStep(env, plan, i, DESCRIPTIONS[k].kind);
      }
    }
  }

  /** With the per-instance key asked first everywhere, the real run writes exactly the dry run's total. */
  lemma {:induction false} RebuiltSize(env: Env, plan: seq<Source>)
    requires forall k :: 0 <= k < |plan| && plan[k].Original? ==> Terminated(plan[k].s.strings)
    ensures RebuildPlan(env, plan).Some? ==> |RebuildPlan(env, plan).value.bytes| == TableLength(env, AltFirst, plan)
    decreases |plan|
  {
    if plan != [] && RebuildPlan(env, plan).Some? {
      var init := plan[..|plan| - 1];
      var x := plan[|plan| - 1];
      var n := CountKind(init, KindOf(x));
      RebuiltSize(env, init);
      var st := RebuildPlan(env, init).value;
      assert RebuildPlan(env, plan) == RebuildNext(env, Some(st), x, n);
      match x
      case Original(s) =>
        RebuildOriginalSize(env, s, n);
      case Described(d) =>
        RebuildDescribedSize(env, d, NextFree(st.used, st.next).value, n);
    }
  }

  /** No property before `b` and from `a` on belongs to `kind`: those add no string bytes. */
  lemma {:induction false} StringBytesSkip(env: Env, kind: byte, n: nat, order: Order, a: nat, b: nat)
    requires a <= b <= |PROPERTIES|
    requires forall j :: a <= j < b ==> PROPERTIES[j].tableType != kind
    ensures StringBytes(env, kind, n, order, b) == StringBytes(env, kind, n, order, a)
    decreases b - a
  {
    if a < b {
      StringBytesSkip(env, kind, n, order, a, b - 1);
    }
  }

  /** The configuration of the counterexample: an empty plain board-product key and a per-instance one. */
  const BOARD_CFG: Settings := map["SMboardproduct" := "", "SMboardproduct_1" := "X"]

  /** A bare baseboard structure (type 2, 15 formatted bytes, no strings) as the BIOS may provide it. */
  const BARE_BOARD: Structure := Structure(2, 0, [2, 15, 0, 0, 0, 0, 0, 0, 0, 0, 0, 0, 0, 0, 0], [])

  /**
   * The dry run as written asks the plain key first for the original
   * structures, while the real run asks the per-instance key first: with
   * `BOARD_CFG` the dry run reserves 17 bytes for the baseboard and the real
   * run writes 18, one past the space allocated for the new table.
   */
  lemma DryRunUndersizesAsWritten(plat: Platform)
    ensures var env := Env(BOARD_CFG, plat, false);
            var plan := [Original(BARE_BOARD)];
            RebuildPlan(env, plan).Some? &&
            TableLength(env, NameFirst, plan) == 17 &&
            |RebuildPlan(env, plan).value.bytes| == TableLength(env, AltFirst, plan) == 18
  {
    var env := Env(BOARD_CFG, plat, false);
    var plan := [Original(BARE_BOARD)];
    assert plan[..0] == [];
    assert StringTable.Decimal(1) == "1";
    assert AltName("SMboardmanufacter", 0) == "SMboardmanufacter_1";
    assert AltName("SMboardproduct", 0) == "SMboardproduct_1";
    assert Contribution(env, 2, 0, NameFirst, PROPERTIES[9]) == 0;
    assert Contribution(env, 2, 0, NameFirst, PROPERTIES[10]) == 1;
    assert Contribution(env, 2, 0, AltFirst, PROPERTIES[9]) == 0;
    assert Contribution(env, 2, 0, AltFirst, PROPERTIES[10]) == 2;
    StringBytesSkip(env, 2, 0, NameFirst, 0, 9);
    StringBytesSkip(env, 2, 0, NameFirst, 11, 22);
    StringBytesSkip(env, 2, 0, AltFirst, 0, 9);
    StringBytesSkip(env, 2, 0, AltFirst, 11, 22);
    RebuiltSize(env, plan);
  }

  // ---------------------------------------------------------------------
  // The two runs

  /** A walk that fails stays failed for every longer structure count. */
  lemma {:induction false} WalkStops(t: seq<byte>, i: nat, count: nat)
    requires i <= count && Walk(t, i).None?
    ensures Walk(t, count).None?
    decreases count - i
  {
    if i < count {
      WalkStops(t, i + 1, count);
    }
  }

  /** The dry run's inner loop over the properties: the string bytes added to instance `n` of type `kind`. */
  method StringsSize(env: Env, kind: byte, n: nat) returns (size: nat)
    ensures size == StringBytes(env, kind, n, AltFirst, |PROPERTIES|)
  {
    size := 0;
    var j := 0;
    while j < |PROPERTIES|
      invariant j <= |PROPERTIES| && size == StringBytes(env, kind, n, AltFirst, j)
    {
      var prop := PROPERTIES[j];
      if prop.tableType == kind && prop.valueType == SmString {
        var v := StringFor(env, prop, n, AltFirst);
        if v.Some? {
          size := size + |v.value| + 1;
        }
      }
      j := j + 1;
    }
  }

  /** The dry run's size for one structure, as it adds it up. */
  method SizeOf(env: Env, x: Source, n: nat) returns (size: nat)
    ensures size == ItemSize(env, AltFirst, x, n)
  {
    var kind := KindOf(x);
    var added := StringsSize(env, kind, n);
    var len, stringlen;
    match x {
      case Original(st) =>
        len, stringlen := |st.formatted|, |st.strings| + added;
      case Described(d) =>
        len, stringlen := d.len, added;
    }
    if stringlen == 0 {
      stringlen := 1;
    }
    stringlen := stringlen + 1;
    size := len + stringlen;
  }

  /** The entry-point fields the dry run fills in: all three are 16-bit. */
  datatype Totals = Totals(tableLength: nat, maxStructureSize: nat, structureCount: nat)

  /** The fields for a plan: the table length and count wrap at 2^16, as their fields do. */
  function PlanTotals(env: Env, plan: seq<Source>): (r: Totals)
    ensures r.tableLength < TWO16 && r.maxStructureSize < TWO16 && r.structureCount < TWO16
  {
    Totals(TableLength(env, AltFirst, plan) % TWO16, MaxSize(env, AltFirst, plan), |plan| % TWO16)
  }

  /** `tablespresent` counts each type in the plan so far. */
  ghost predicate Counted(plan: seq<Source>, present: seq<nat>)
  {
    |present| == 256 && forall k: byte :: present[k] == CountKind(plan, k)
  }

  /** Appending to the plan extends each fold by one step. */
  lemma PlanStep(env: Env, plan: seq<Source>, x: Source)
    ensures TableLength(env, AltFirst, plan + [x]) ==
            TableLength(env, AltFirst, plan) + ItemSize(env, AltFirst, x, CountKind(plan, KindOf(x)))
    ensures MaxSize(env, AltFirst, plan + [x]) ==
            var size := ItemSize(env, AltFirst, x, CountKind(plan, KindOf(x)));
            if MaxSize(env, AltFirst, plan) < size then size % TWO16 else MaxSize(env, AltFirst, plan)
  {
    assert (plan + [x])[..|plan|] == plan;
  }

  /** Appending to the plan adds one to the count of its type. */
  lemma CountStep(plan: seq<Source>, x: Source, k: byte)
    ensures CountKind(plan + [x], k) == CountKind(plan, k) + if KindOf(x) == k then 1 else 0
  {
    assert (plan + [x])[..|plan|] == plan;
  }

  /** What the dry run keeps while it walks the plan: the type counters and the fields so far. */
  ghost predicate DryInv(env: Env, plan: seq<Source>, present: seq<nat>, tot: Totals)
  {
    Counted(plan, present) && tot == PlanTotals(env, plan)
  }

  lemma CountedStep(plan: seq<Source>, present: seq<nat>, x: Source)
    requires Counted(plan, present)
    ensures Counted(plan + [x], present[KindOf(x) := present[KindOf(x)] + 1])
  {
    forall k: byte
      ensures present[KindOf(x) := present[KindOf(x)] + 1][k] == CountKind(plan + [x], k)
    {
      CountStep(plan, x, k);
    }
  }

  lemma ModAddStep(a: nat, b: nat)
    ensures (a % TWO16 + b) % TWO16 == (a + b) % TWO16
  {
  }

  lemma TotalsStep(env: Env, plan: seq<Source>, tot: Totals, x: Source, size: nat)
    requires tot == PlanTotals(env, plan)
    requires size == ItemSize(env, AltFirst, x, CountKind(plan, KindOf(x)))
    ensures PlanTotals(env, plan + [x]) ==
            Totals((tot.tableLength + size) % TWO16,
                   if tot.maxStructureSize < size then size % TWO16 else tot.maxStructureSize,
                   (tot.structureCount + 1) % TWO16)
  {
    PlanStep(env, plan, x);
    ModAddStep(TableLength(env, AltFirst, plan), size);
    ModAddStep(|plan|, 1);
  }

  /** The dry run's step for one structure: its size added to the fields, its type counted. */
  method Account(env: Env, x: Source, present: seq<nat>, tot: Totals, ghost plan: seq<Source>)
    returns (present': seq<nat>, tot': Totals)
    requires DryInv(env, plan, present, tot)
    ensures DryInv(env, plan + [x], present', tot')
  {
    var kind := KindOf(x);
    var size := SizeOf(env, x, present[kind]);
    TotalsStep(env, plan, tot, x, size);
    CountedStep(plan, present, x);
    var maxStructureSize := tot.maxStructureSize;
    if maxStructureSize < size {
      maxStructureSize := size % TWO16;
    }
    tot' := Totals((tot.tableLength + size) % TWO16, maxStructureSize, (tot.structureCount + 1) % TWO16);
    present' := present[kind := present[kind] + 1];
  }

  /** Adding one more copy of a described structure. */
  lemma CopiesStep(base: seq<Source>, x: Source, c: nat)
    ensures base + Copies(x, c) + [x] == base + Copies(x, c + 1)
  {
  }

  /** A walk one structure longer. */
  lemma WalkStep(t: seq<byte>, i: nat, ss: seq<Structure>, pos: nat, r: Option<(Structure, nat)>)
    requires Walk(t, i) == Some((ss, pos)) && r == StructureAt(t, pos)
    ensures r.None? ==> Walk(t, i + 1).None?
    ensures r.Some? ==> Walk(t, i + 1) == Some((ss + [r.value.0], r.value.1))
    ensures r.Some? ==> Originals(ss + [r.value.0]) == Originals(ss) + [Original(r.value.0)]
  {
  }

  /**
   * `smbios_dry_run`: the entry-point fields for the new table, walking
   * `count` original structures from the start of `t` and then adding the
   * described structures still missing. The walk fails when a structure
   * runs past the end of `t`.
   */
  method DryRun(env: Env, t: seq<byte>, count: nat) returns (r: Option<Totals>)
    ensures r.Some? <==> Walk(t, count).Some?
    ensures r.Some? ==> r.value == PlanTotals(env, Plan(env, Walk(t, count).value.0))
  {
    var ok, present, tot, ss := DryOriginals(env, t, count);
    if !ok {
      return None;
    }
    tot := DrySynthesize(env, present, tot, Originals(ss));
    return Some(tot);
  }

  /** The dry run's first loop: each original structure sized and counted. */
  method DryOriginals(env: Env, t: seq<byte>, count: nat)
    returns (ok: bool, present: seq<nat>, tot: Totals, ghost ss: seq<Structure>)
    ensures ok <==> Walk(t, count).Some?
    ensures ok ==> Walk(t, count).value.0 == ss && DryInv(env, Originals(ss), present, tot)
  {
    present := seq(256, _ => 0);
    tot := Totals(0, 0, 0);
    ghost var plan: seq<Source> := [];
    ss := [];
    var pos := 0;
    var i := 0;
    while i < count
      invariant i <= count && Walk(t, i) == Some((ss, pos)) && plan == Originals(ss)
      invariant DryInv(env, plan, present, tot)
    {
      var cur, _ := ReadStructure(t, pos);
      WalkStep(t, i, ss, pos, cur);
      if cur.None? {
        WalkStops(t, i + 1, count);
        return false, present, tot, ss;
      }
      present, tot := Account(env, Original(cur.value.0), present, tot, plan);
      plan := plan + [Original(cur.value.0)];
      ss := ss + [cur.value.0];
      pos := cur.value.1;
      i := i + 1;
    }
    ok := true;
  }

  /** The dry run's second loop: each description's missing structures sized and counted. */
  method DrySynthesize(env: Env, present0: seq<nat>, tot0: Totals, ghost plan0: seq<Source>) returns (tot: Totals)
    requires DryInv(env, plan0, present0, tot0)
    ensures tot == PlanTotals(env, Synthesize(env, plan0, 0))
  {
    var present: seq<nat> := present0;
    tot := tot0;
    ghost var plan := plan0;
    var d := 0;
    while d < |DESCRIPTIONS|
      invariant d <= |DESCRIPTIONS| && Synthesize(env, plan, d) == Synthesize(env, plan0, 0)
      invariant DryInv(env, plan, present, tot)
    {
      present, tot, plan := DryDescription(env, d, present, tot, plan);
      d := d + 1;
    }
  }

  /** One description in the dry run: structures of its type sized and counted until enough are present. */
  method DryDescription(env: Env, d: nat, present0: seq<nat>, tot0: Totals, ghost base: seq<Source>)
    returns (present: seq<nat>, tot: Totals, ghost plan: seq<Source>)
    requires d < |DESCRIPTIONS| && DryInv(env, base, present0, tot0)
    ensures DryInv(env, base + Copies(Described(DESCRIPTIONS[d]), Missing(env, base, d)), present, tot)
    ensures plan == base + Copies(Described(DESCRIPTIONS[d]), Missing(env, base, d))
    ensures Synthesize(env, plan, d + 1) == Synthesize(env, base, d)
  {
    present, tot, plan := present0, tot0, base;
    var desc := DESCRIPTIONS[d];
    var numnec := NumNeeded(env, d);
    ghost var c := 0;
    while present[desc.kind] < numnec
      invariant DryInv(env, plan, present, tot)
      invariant plan == base + Copies(Described(desc), c)
      invariant present[desc.kind] == CountKind(base, desc.kind) + c
      invariant c <= Missing(env, base, d)
      decreases numnec - present[desc.kind]
    {
      present, tot := Account(env, Described(desc), present, tot, plan);
      CopiesStep(base, Described(desc), c);
      plan := plan + [Described(desc)];
      c := c + 1;
    }
    SynthesizeDone(env, base, d, c);
    assert c == Missing(env, base, d);
  }

  /** Once its type is present often enough, description `d` has added all it adds. */
  lemma SynthesizeDone(env: Env, base: seq<Source>, d: nat, c: nat)
    requires d < |DESCRIPTIONS| && c <= Missing(env, base, d)
    requires CountKind(base, DESCRIPTIONS[d].kind) + c >= Needed(env, d)
    ensures Synthesize(env, base + Copies(Described(DESCRIPTIONS[d]), c), d + 1) == Synthesize(env, base, d)
  {
    assert c == Missing(env, base, d);
  }

  /** The count asked of description `d`: `SMtable<d>`, else one when defaults are on and it has a count. */
  method NumNeeded(env: Env, d: nat) returns (numnec: int)
    requires d < |DESCRIPTIONS|
    ensures numnec == Needed(env, d)
  {
    var v := LookupInt(env.cfg, "SMtable" + StringTable.Decimal(d));
    numnec := if v.Some? then v.value else -1;
    if numnec == -1 && env.doAuto && DESCRIPTIONS[d].numfunc {
      numnec := 1;
    }
  }

  /**
   * The real run's property loop for one structure: each property of its
   * type written as the configuration or the defaults give it.
   */
  method FillStructure(env: Env, kind: byte, n: nat, st0: Building) returns (st: Building)
    ensures st == Fill(env, kind, n, st0, |PROPERTIES|)
  {
    st := st0;
    var j := 0;
    while j < |PROPERTIES|
      invariant j <= |PROPERTIES| && st == Fill(env, kind, n, st0, j)
    {
      if PROPERTIES[j].tableType == kind {
        st := ApplyProperty(env, n, st, PROPERTIES[j]);
      }
      j := j + 1;
    }
  }

  /** One property of the structure's type, by the kind of value it writes. */
  method ApplyProperty(env: Env, n: nat, st0: Building, prop: Property) returns (st: Building)
    ensures st == Apply(env, prop.tableType, n, st0, prop)
  {
    st := st0;
    match prop.valueType {
      case SmString =>
        var v := StringFor(env, prop, n, AltFirst);
        if v.Some? {
          var bytes := st.bytes + TextBytes(v.value) + [0];
          var nstrings := st.nstrings + 1;
          st := Building(Put(bytes, prop.offset, nstrings % 256), nstrings);
        }
      case SmOword =>
        var v := Configured(env.cfg, prop, n, AltFirst);
        if v.Some? {
          var field := ParseOword(v.value);
          st := st.(bytes := PutAll(st.bytes, prop.offset, field));
        }
      case SmByte =>
        var x := NumberFor(env, prop, n);
        if x.Some? {
          st := st.(bytes := Put(st.bytes, prop.offset, x.value % 256));
        }
      case SmWord =>
        var x := NumberFor(env, prop, n);
        if x.Some? {
          st := st.(bytes := PutAll(st.bytes, prop.offset, EncLE16(x.value % TWO16)));
        }
    }
  }

  /** The end of a structure: a NUL of its own for an empty string-set, then the final NUL. */
  method Terminate(st: Building) returns (bytes: seq<byte>)
    ensures bytes == Finish(st)
  {
    bytes := st.bytes;
    if st.nstrings == 0 {
      bytes := bytes + [0];
    }
    bytes := bytes + [0];
  }

  /** What the real run keeps while it walks the plan: the type counters and the output so far. */
  ghost predicate RealInv(env: Env, plan: seq<Source>, present: seq<nat>, out: seq<byte>, used: set<nat>, next: nat)
  {
    Counted(plan, present) && RebuildPlan(env, plan) == Some(Rebuilt(out, used, next))
  }

  lemma RebuildStep(env: Env, plan: seq<Source>, x: Source)
    ensures RebuildPlan(env, plan + [x]) == RebuildNext(env, RebuildPlan(env, plan), x, CountKind(plan, KindOf(x)))
  {
    assert (plan + [x])[..|plan|] == plan;
  }

  /** An original structure copied, rewritten and appended, its handle marked used. */
  method EmitOriginal(env: Env, st: Structure, nstrings: nat, present: seq<nat>, out: seq<byte>, used: set<nat>,
                      next: nat, ghost plan: seq<Source>)
    returns (present': seq<nat>, out': seq<byte>, used': set<nat>)
    requires RealInv(env, plan, present, out, used, next) && nstrings == ZeroCount(st.strings)
    ensures RealInv(env, plan + [Original(st)], present', out', used', next)
  {
    used' := used + {st.handle};
    var b := FillStructure(env, st.kind, present[st.kind], Building(st.formatted + st.strings, nstrings));
    var bytes := Terminate(b);
    out' := out + bytes;
    present' := present[st.kind := present[st.kind] + 1];
    CountedStep(plan, present, Original(st));
    RebuildStep(env, plan, Original(st));
  }

  /** A described structure under a new handle, filled and appended; `false` when no handle is free. */
  method EmitDescribed(env: Env, desc: Description, present: seq<nat>, out: seq<byte>, used: set<nat>,
                       next: nat, ghost plan: seq<Source>)
    returns (ok: bool, present': seq<nat>, out': seq<byte>, used': set<nat>, next': nat)
    requires RealInv(env, plan, present, out, used, next) && 4 <= desc.len
    ensures ok ==> RealInv(env, plan + [Described(desc)], present', out', used', next')
    ensures !ok ==> RebuildPlan(env, plan + [Described(desc)]).None?
  {
    RebuildStep(env, plan, Described(desc));
    var h := AllocateHandle(used, next);
    if h.None? {
      return false, present, out, used, next;
    }
    NextFreeFacts(used, next);
    used', next' := used + {h.value}, h.value;
    var b := FillStructure(env, desc.kind, present[desc.kind], Building(Header(desc, h.value), 0));
    var bytes := Terminate(b);
    out' := out + bytes;
    present' := present[desc.kind := present[desc.kind] + 1];
    CountedStep(plan, present, Described(desc));
    ok := true;
  }

  /** A plan that fails to rebuild makes every longer plan fail. */
  lemma {:induction false} RebuildPrefixNone(env: Env, p: seq<Source>, q: seq<Source>)
    requires RebuildPlan(env, p).None?
    ensures RebuildPlan(env, p + q).None?
    decreases |q|
  {
    if q == [] {
      assert p + q == p;
    } else {
      var q' := q[..|q| - 1];
      RebuildPrefixNone(env, p, q');
      assert (p + q)[..|p + q| - 1] == p + q';
    }
  }

  /** The new table for the original structures `ss`. */
  function NewTable(env: Env, ss: seq<Structure>): Option<seq<byte>>
  {
    NewBytes(env, Plan(env, ss))
  }

  /**
   * `smbios_real_run`: the new table, walking `count` original structures
   * from the start of `t` and then adding the described structures still
   * missing. `None` when the walk leaves `t` or no handle is free.
   */
  method RealRun(env: Env, t: seq<byte>, count: nat) returns (r: Option<seq<byte>>)
    ensures Walk(t, count).None? ==> r.None?
    ensures Walk(t, count).Some? ==> r == NewTable(env, Walk(t, count).value.0)
  {
    var ok, present, out, used, ss := RealOriginals(env, t, count);
    if !ok {
      return None;
    }
    r := RealSynthesize(env, present, out, used, Originals(ss));
  }

  /** The real run's first loop: each original structure rewritten. */
  method RealOriginals(env: Env, t: seq<byte>, count: nat)
    returns (ok: bool, present: seq<nat>, out: seq<byte>, used: set<nat>, ghost ss: seq<Structure>)
    ensures ok <==> Walk(t, count).Some?
    ensures ok ==> Walk(t, count).value.0 == ss && RealInv(env, Originals(ss), present, out, used, 0)
  {
    present := seq(256, _ => 0);
    out, used := [], {};
    ghost var plan: seq<Source> := [];
    ss := [];
    var pos := 0;
    var i := 0;
    while i < count
      invariant i <= count && Walk(t, i) == Some((ss, pos)) && plan == Originals(ss)
      invariant RealInv(env, plan, present, out, used, 0)
    {
      var cur, nstrings := ReadStructure(t, pos);
      WalkStep(t, i, ss, pos, cur);
      if cur.None? {
        WalkStops(t, i + 1, count);
        return false, present, out, used, ss;
      }
      present, out, used := EmitOriginal(env, cur.value.0, nstrings, present, out, used, 0, plan);
      plan := plan + [Original(cur.value.0)];
      ss := ss + [cur.value.0];
      pos := cur.value.1;
      i := i + 1;
    }
    ok := true;
  }

  /** Every described structure has room for its header. */
  lemma DescriptionsHoldHeader(d: nat)
    requires d < |DESCRIPTIONS|
    ensures 4 <= DESCRIPTIONS[d].len
  {
  }

  /** The real run's second loop: each description's missing structures added. */
  method RealSynthesize(env: Env, present0: seq<nat>, out0: seq<byte>, used0: set<nat>, ghost plan0: seq<Source>)
    returns (r: Option<seq<byte>>)
    requires RealInv(env, plan0, present0, out0, used0, 0)
    ensures r == NewBytes(env, Synthesize(env, plan0, 0))
  {
    var present: seq<nat>, out, used, next := present0, out0, used0, 0;
    ghost var plan := plan0;
    var d := 0;
    while d < |DESCRIPTIONS|
      invariant d <= |DESCRIPTIONS| && Synthesize(env, plan, d) == Synthesize(env, plan0, 0)
      invariant RealInv(env, plan, present, out, used, next)
    {
      var ok;
      ok, present, out, used, next, plan := RealDescription(env, d, present, out, used, next, plan);
      if !ok {
        return None;
      }
      d := d + 1;
    }
    return Some(out);
  }

  lemma CopiesSplit(x: Source, c: nat, m: nat)
    requires c < m
    ensures Copies(x, m) == Copies(x, c) + [x] + Copies(x, m - c - 1)
  {
  }

  /** The plan so far, with one more copy, is a prefix of what the synthesis ends with. */
  lemma SynthesizeExtends(env: Env, base: seq<Source>, d: nat, c: nat)
    requires d < |DESCRIPTIONS| && c < Missing(env, base, d)
    ensures var p := base + Copies(Described(DESCRIPTIONS[d]), c) + [Described(DESCRIPTIONS[d])];
            |p| <= |Synthesize(env, base, d)| && Synthesize(env, base, d)[..|p|] == p
  {
    var x := Described(DESCRIPTIONS[d]);
    var m := Missing(env, base, d);
    var full := base + Copies(x, m);
    var whole := Synthesize(env, full, d + 1);
    assert whole == Synthesize(env, base, d);
    var p := base + Copies(x, c) + [x];
    assert |full| <= |whole| && whole[..|full|] == full by {
      SynthesizeAppends(env, full, d + 1);
    }
    assert full == p + Copies(x, m - c - 1) by {
      CopiesSplit(x, c, m);
    }
    PrefixOfPrefix(whole, full, p);
  }

  /** A prefix of a prefix is a prefix. */
  lemma PrefixOfPrefix<T>(whole: seq<T>, full: seq<T>, p: seq<T>)
    requires |full| <= |whole| && whole[..|full|] == full
    requires |p| <= |full| && full[..|p|] == p
    ensures |p| <= |whole| && whole[..|p|] == p
  {
    assert whole[..|p|] == whole[..|full|][..|p|];
  }

  /** One description in the real run; `false` when the handle search fails. */
  method RealDescription(env: Env, d: nat, present0: seq<nat>, out0: seq<byte>, used0: set<nat>, next0: nat,
                         ghost base: seq<Source>)
    returns (ok: bool, present: seq<nat>, out: seq<byte>, used: set<nat>, next: nat, ghost plan: seq<Source>)
    requires d < |DESCRIPTIONS| && RealInv(env, base, present0, out0, used0, next0)
    ensures ok ==> RealInv(env, plan, present, out, used, next)
    ensures ok ==> Synthesize(env, plan, d + 1) == Synthesize(env, base, d)
    ensures !ok ==> RebuildPlan(env, Synthesize(env, base, d)).None?
  {
    present, out, used, next, plan := present0, out0, used0, next0, base;
    var desc := DESCRIPTIONS[d];
    DescriptionsHoldHeader(d);
    var numnec := NumNeeded(env, d);
    ghost var c := 0;
    while present[desc.kind] < numnec
      invariant RealInv(env, plan, present, out, used, next)
      invariant plan == base + Copies(Described(desc), c)
      invariant present[desc.kind] == CountKind(base, desc.kind) + c
      invariant c <= Missing(env, base, d)
      decreases numnec - present[desc.kind]
    {
      var done;
      done, present, out, used, next := EmitDescribed(env, desc, present, out, used, next, plan);
      if !done {
        SynthesizeExtends(env, base, d, c);
        ghost var whole := Synthesize(env, base, d);
        ghost var p := plan + [Described(desc)];
        assert whole == p + whole[|p|..];
        RebuildPrefixNone(env, p, whole[|p|..]);
        return false, present, out, used, next, plan;
      }
      CopiesStep(base, Described(desc), c);
      plan := plan + [Described(desc)];
      c := c + 1;
    }
    SynthesizeDone(env, base, d, c);
    ok := true;
  }

  // ---------------------------------------------------------------------
  // The entry point

  const SM_ANCHOR: seq<byte> := [0x5f, 0x53, 0x4d, 0x5f]
  const DMI_ANCHOR: seq<byte> := [0x5f, 0x44, 0x4d, 0x49, 0x5f]

  /** The size of the entry point structure. */
  const ENTRY_LENGTH: nat := 0x1f

  /**
   * The new entry point before its checksums: "_SM_", checksum, length 0x1f,
   * version 2.1, the largest structure, revision 0, a zero formatted area,
   * "_DMI_", checksum, table length, table address, structure count and BCD
   * revision 0x21.
   */
  function EntryBytes(tot: Totals, tableAddress: nat): (r: seq<byte>)
    requires tot.tableLength < TWO16 && tot.maxStructureSize < TWO16 && tot.structureCount < TWO16
    requires tableAddress < TWO32
    ensures |r| == ENTRY_LENGTH
  {
    SM_ANCHOR + [0, ENTRY_LENGTH, 2, 1] + EncLE16(tot.maxStructureSize) + [0] + Zeros(5) +
    DMI_ANCHOR + [0] + EncLE16(tot.tableLength) + EncLE32(tableAddress) + EncLE16(tot.structureCount) + [0x21]
  }

  /** The checksums: the DMI part's byte 21 first, over bytes 16 to 30, then byte 4 over all 31. */
  function Seal(b: seq<byte>): (r: seq<byte>)
    requires |b| == ENTRY_LENGTH
    ensures |r| == ENTRY_LENGTH
    ensures Checksum8(r[16..]) == 0 && Checksum8(r) == 0
    ensures forall k :: 0 <= k < ENTRY_LENGTH && k != 4 && k != 21 ==> r[k] == b[k]
  {
    var dmi := FixChecksum(b[16..], 5);
    var b1 := b[..16] + dmi;
    var r := FixChecksum(b1, 4);
    assert r[16..] == dmi by {
      assert forall k :: 16 <= k < ENTRY_LENGTH ==> r[k] == b1[k];
    }
    r
  }

  /** What the scan accepts: both anchors in place and a zero checksum over the 31 bytes. */
  predicate IsEntry(e: seq<byte>)
  {
    |e| == ENTRY_LENGTH && e[..4] == SM_ANCHOR && e[16..21] == DMI_ANCHOR && Checksum8(e) == 0
  }

  lemma EntryLayout(tot: Totals, tableAddress: nat)
    requires tot.tableLength < TWO16 && tot.maxStructureSize < TWO16 && tot.structureCount < TWO16
    requires tableAddress < TWO32
    ensures var e := EntryBytes(tot, tableAddress);
            e[..4] == SM_ANCHOR && e[16..21] == DMI_ANCHOR && e[5] == ENTRY_LENGTH && e[6] == 2 && e[7] == 1 &&
            e[8..10] == EncLE16(tot.maxStructureSize) && e[22..24] == EncLE16(tot.tableLength) &&
            e[24..28] == EncLE32(tableAddress) && e[28..30] == EncLE16(tot.structureCount) && e[30] == 0x21
  {
  }

  /**
   * The sealed entry point is one the scan accepts, its DMI part sums to zero
   * as well, and its fields read back as written.
   */
  lemma SealedEntry(tot: Totals, tableAddress: nat)
    requires tot.tableLength < TWO16 && tot.maxStructureSize < TWO16 && tot.structureCount < TWO16
    requires tableAddress < TWO32
    ensures var e := Seal(EntryBytes(tot, tableAddress));
            IsEntry(e) && Checksum8(e[16..]) == 0 &&
            LE16(e, 8) == tot.maxStructureSize && LE16(e, 22) == tot.tableLength &&
            LE32(e, 24) == tableAddress && LE16(e, 28) == tot.structureCount
  {
    var b := EntryBytes(tot, tableAddress);
    var e := Seal(b);
    EntryLayout(tot, tableAddress);
    assert e[..4] == b[..4];
    assert e[16..21] == b[16..21];
    assert e[8..10] == b[8..10];
    assert e[22..24] == b[22..24];
    assert e[24..28] == b[24..28];
    assert e[28..30] == b[28..30];
    LE16Slice(e, 8);
    LE16Slice(e, 22);
    LE32Slice(e, 24);
    LE16Slice(e, 28);
  }

  // ---------------------------------------------------------------------
  // Finding the original entry point

  /** The BIOS area the scan covers, on 16-byte boundaries. */
  const SMBIOS_RANGE_START: nat := 0xF0000
  const SMBIOS_RANGE_END: nat := 0xFFFFF

  predicate IsEntryAt(mem: seq<byte>, a: nat)
  {
    a + ENTRY_LENGTH <= |mem| && IsEntry(mem[a..a + ENTRY_LENGTH])
  }

  /** The scan's three tests, on the memory itself, are `IsEntryAt`. */
  lemma EntryAtParts(mem: seq<byte>, a: nat)
    ensures IsEntryAt(mem, a) <==>
            a + ENTRY_LENGTH <= |mem| && mem[a..a + 4] == SM_ANCHOR && mem[a + 16..a + 21] == DMI_ANCHOR &&
            Checksum8(mem[a..a + ENTRY_LENGTH]) == 0
  {
    if a + ENTRY_LENGTH <= |mem| {
      var e := mem[a..a + ENTRY_LENGTH];
      assert e[..4] == mem[a..a + 4];
      assert forall k :: 16 <= k < 21 ==> e[k] == mem[a + k];
      assert e[16..21] == mem[a + 16..a + 21];
    }
  }

  /** The first accepted entry point at or after `a`, on the scan's 16-byte steps. */
  function FirstEntry(mem: seq<byte>, a: nat): (r: Option<nat>)
    ensures r.Some? ==> a <= r.value <= SMBIOS_RANGE_END && (r.value - a) % 16 == 0 && IsEntryAt(mem, r.value)
    ensures r.Some? ==> forall b :: a <= b < r.value && (b - a) % 16 == 0 ==> !IsEntryAt(mem, b)
    ensures r.None? ==> forall b :: a <= b <= SMBIOS_RANGE_END && (b - a) % 16 == 0 ==> !IsEntryAt(mem, b)
    decreases SMBIOS_RANGE_END + 1 - a
  {
    if a > SMBIOS_RANGE_END then None
    else if IsEntryAt(mem, a) then Some(a)
    else FirstEntry(mem, a + 16)
  }

  /**
   * `getAddressOfSmbiosTable`: the 16-byte steps from 0xF0000 to 0xFFFFF,
   * stopping at the first place with both anchors and a zero checksum.
   */
  method FindEntryPoint(mem: seq<byte>) returns (r: Option<nat>)
    ensures r == FirstEntry(mem, SMBIOS_RANGE_START)
  {
    var a := SMBIOS_RANGE_START;
    while a <= SMBIOS_RANGE_END
      invariant SMBIOS_RANGE_START <= a && FirstEntry(mem, a) == FirstEntry(mem, SMBIOS_RANGE_START)
      decreases SMBIOS_RANGE_END + 1 - a
    {
      EntryAtParts(mem, a);
      if a + ENTRY_LENGTH <= |mem| && mem[a..a + 4] == SM_ANCHOR && mem[a + 16..a + 21] == DMI_ANCHOR &&
         Checksum8(mem[a..a + ENTRY_LENGTH]) == 0 {
        return Some(a);
      }
      a := a + 16;
    }
    return None;
  }

  // ---------------------------------------------------------------------
  // The patched SMBIOS and `getSMBIOS`

  /** The original table and its structure count, as the entry point at `orig` gives them; none without one. */
  function OriginalTable(mem: seq<byte>, orig: Option<nat>): (seq<byte>, nat)
    requires orig.Some? ==> IsEntryAt(mem, orig.value)
  {
    match orig
    case None => ([], 0)
    case Some(a) =>
      var addr := LE32(mem, a + 24);
      (if addr <= |mem| then mem[addr..] else [], LE16(mem, a + 28))
  }

  /** The patched entry point and the new table it points at. */
  datatype Patched = Patched(entry: seq<byte>, table: seq<byte>)

  /** The dry run's fields in a sealed entry point, beside the real run's table placed at `tableAddress`. */
  function PatchOf(env: Env, t: seq<byte>, count: nat, tableAddress: nat): Option<Patched>
    requires tableAddress < TWO32
  {
    match Walk(t, count)
    case None => None
    case Some(w) =>
      match NewTable(env, w.0)
      case None => None
      case Some(table) => Some(Patched(Seal(EntryBytes(PlanTotals(env, Plan(env, w.0)), tableAddress)), table))
  }

  /** The synthesized structures follow the originals, so every original in the plan is whole. */
  lemma PlanOriginalsTerminated(env: Env, ss: seq<Structure>)
    requires forall k :: 0 <= k < |ss| ==> Terminated(ss[k].strings)
    ensures var plan := Plan(env, ss);
            forall k :: 0 <= k < |plan| && plan[k].Original? ==> Terminated(plan[k].s.strings)
  {
    var plan := Plan(env, ss);
    SynthesizeAppends(env, Originals(ss), 0);
    forall k | 0 <= k < |plan| && plan[k].Original?
      ensures Terminated(plan[k].s.strings)
    {
      if k < |ss| {
        assert plan[k] == plan[..|ss|][k];
      }
    }
  }

  /**
   * The patched entry point is one the scan accepts, both its checksums
   * hold, it points at the new table, and the table length it declares is
   * the length of the table written, kept to 16 bits.
   */
  lemma PatchConsistent(env: Env, t: seq<byte>, count: nat, tableAddress: nat)
    requires tableAddress < TWO32
    ensures var r := PatchOf(env, t, count, tableAddress);
            r.Some? ==> IsEntry(r.value.entry) && Checksum8(r.value.entry[16..]) == 0 &&
                        LE32(r.value.entry, 24) == tableAddress &&
                        LE16(r.value.entry, 22) == |r.value.table| % TWO16
  {
    var w := Walk(t, count);
    if w.Some? && NewTable(env, w.value.0).Some? {
      var ss := w.value.0;
      var tot := PlanTotals(env, Plan(env, ss));
      SealedEntry(tot, tableAddress);
      PlanOriginalsTerminated(env, ss);
      RebuiltSize(env, Plan(env, ss));
    }
  }

  /** `smbios_dry_run` then `smbios_real_run`, and the checksums the real run ends with. */
  method Patch(env: Env, t: seq<byte>, count: nat, tableAddress: nat) returns (r: Option<Patched>)
    requires tableAddress < TWO32
    ensures r == PatchOf(env, t, count, tableAddress)
  {
    var tot := DryRun(env, t, count);
    if tot.None? {
      return None;
    }
    var table := RealRun(env, t, count);
    if table.None? {
      return None;
    }
    var entry := Seal(EntryBytes(tot.value, tableAddress));
    return Some(Patched(entry, table.value));
  }

  const SMBIOS_ORIGINAL: int := 0
  const SMBIOS_PATCHED: int := 1

  /** What `getSMBIOS` hands out: the BIOS's own entry point, or the patched one. */
  datatype SmbiosRef = OriginalEntry(address: nat) | PatchedEntry(patch: Patched)

  /**
   * `getSMBIOS` and its two static pointers: the original entry point,
   * looked for again on every call until it is found, and the patched
   * one, made on the first request for it.
   */
  class SmbiosCache {
    const env: Env
    const mem: seq<byte>
    var orig: Option<nat>
    var patched: Option<Patched>

    ghost predicate Valid()
      reads this
    {
      orig.Some? ==> orig == FirstEntry(mem, SMBIOS_RANGE_START)
    }

    constructor(env: Env, mem: seq<byte>)
      ensures this.env == env && this.mem == mem && orig.None? && patched.None? && Valid()
    {
      this.env := env;
      this.mem := mem;
      orig := None;
      patched := None;
    }

    /** `tableAddress` is where the kernel memory allocator places the new table. */
    method GetSMBIOS(which: int, tableAddress: nat) returns (ret: Option<SmbiosRef>)
      requires Valid() && tableAddress < TWO32
      modifies this
      ensures Valid()
      ensures orig == if old(orig).Some? then old(orig) else FirstEntry(mem, SMBIOS_RANGE_START)
      ensures which == SMBIOS_ORIGINAL ==>
                patched == old(patched) && ret == if orig.Some? then Some(OriginalEntry(orig.value)) else None
      ensures which == SMBIOS_PATCHED && old(patched).Some? ==>
                patched == old(patched) && ret == Some(PatchedEntry(patched.value))
      ensures which == SMBIOS_PATCHED && old(patched).None? ==>
                patched == PatchOf(env, OriginalTable(mem, orig).0, OriginalTable(mem, orig).1, tableAddress) &&
                ret == if patched.Some? then Some(PatchedEntry(patched.value)) else None
      ensures which != SMBIOS_ORIGINAL && which != SMBIOS_PATCHED ==> patched == old(patched) && ret.None?
    {
      if orig.None? {
        orig := FindEntryPoint(mem);
      }
      if which == SMBIOS_ORIGINAL {
        ret := if orig.Some? then Some(OriginalEntry(orig.value)) else None;
      } else if which == SMBIOS_PATCHED {
        if patched.None? {
          var table := OriginalTable(mem, orig);
          patched := Patch(env, table.0, table.1, tableAddress);
        }
        ret := if patched.Some? then Some(PatchedEntry(patched.value)) else None;
      } else {
        ret := None;
      }
    }
  }
}
