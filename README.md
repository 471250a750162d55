# Chameleon boot2/libsaio core in Dafny

This project models the core of Chameleon, a second-stage x86 boot loader, and proves properties of the model. The loader reads the BIOS drives, finds the boot volumes, lets the user pick one and type kernel arguments, and builds the kernel command line. It also patches the firmware tables (SMBIOS, ACPI, the NVIDIA ROM, EFI device properties) that the kernel will see. The model covers these parts, one Dafny module per C file:

- **Disk** (`disk.dfy`): the sector layer of `libsaio/disk.c`. `Biosread` retries up to five times and accepts a corrected-ECC status. The one-track cache sits in front of the EBIOS and CHS paths. `readBytes` and the ramdisk hook are built on top of it. `SectorCache` is a class whose fields are the C globals.
- **DiskScan** (`disk_scan.dfy`): the rest of `disk.c`:
  - the MBR/extended-partition walker;
  - the FDisk, GPT and APM scanners and the boot-volume records they create;
  - `probeFileSystem`;
  - the per-drive map list;
  - the filtered chains the menu shows;
  - the raw sector transfers.
- **Options** (`options.dfy`): `boot2/options.c`:
  - the typed-argument buffer (an `array`);
  - the text-mode menu window;
  - the key loop of `getBootOptions`;
  - `extractKernelName`, `copyArgument` and `processBootArgument`;
  - the command-line assembly of `processBootOptions` with its byte budget.
- **StringTable** (`stringtable.dfy`): key/value lookup in the boot command line and the configuration tables. This covers `getValueForBootKey`, the bool, int, dimension and colour readers, the layered `getValueForKey`, and `getNextArg`.
- **Boot** (`boot.dfy`): Adler-32 (section 2.2 of RFC 1950), the kernel-cache predicate, the staleness rule, the cache-file name, the kernel path fallback and the architecture choice.
- **DeviceInject**, **FakeEfi**, **Msdos**, **Ext2Fs**, **Nvidia**, **SmbiosPatcher**, **DsdtPatcher**, **Mboot**, **Graphics**, **PciRoot**, **BootStruct**, **Cpu**: the encoders, decoders, validators and table patchers of the files of the same names.
- **SmbiosDefaults** and **CLib**: the per-model default strings of SMBIOS, and the C library routines (`strtol`, `strtoul`) these files call.

The C's globals and the objects it updates in place are classes with `modifies` clauses: the sector cache, the partition walker, the map list, the boot-argument buffer, the menu, the prompt loop, the kernel command line, the device-property string, the FAT volume and its directory walker, the multiboot arena, the SMBIOS cache, the cached PCI root UID and the boot structures. Pure computations are functions. Each operation is tied to a specification function, and lemmas prove its properties: round trips, precedence, bounds, and "nothing else changes".

The firmware, the keyboard and the clock are inputs. A drive is a disk image plus the status codes its BIOS calls return. Keys are a sequence, and the time is a number handed in. Code the core calls but does not contain becomes a parameter: the HFS+ and NTFS probes, `crc32`, the XML configuration loader, the device tree.

## Model

| member | source | states |
|---|---|---|
| `Ext2Fs.Probe` | Booter/i386/libsaio/ext2fs.c:16-19 | A buffer is an ext2 superblock exactly when the little-endian word at offset 0x438 is 0xEF53. |
| `Ext2Fs.NonZeroRun` | Booter/i386/libsaio/ext2fs.c:40 | The length of the leading run of non-zero bytes among the first `n`: every byte before it is non-zero and the byte at it, when inside, is zero. |
| `Ext2Fs.StrNCpyShape` | Booter/i386/libsaio/ext2fs.c:40 | `strncpy` yields exactly `n` bytes, each a source byte or NUL, with only NULs after the first NUL; a source with no NUL is copied verbatim. |
| `Ext2Fs.StrNCopy` | Booter/i386/libsaio/ext2fs.c:40 | The in-place copy writes `StrNCpy(src, n)` into the first `n` bytes of the destination and leaves the rest untouched. |
| `Ext2Fs.RunIsFirstNul` | Booter/i386/libsaio/ext2fs.c:40 | The copy loop's stopping index is the first NUL, i.e. the non-zero run length. |
| `Ext2Fs.GetDescription` | Booter/i386/libsaio/ext2fs.c:21-42 | Without a buffer, without the magic, or with a revision level (the 32-bit word at 0x44C) below 1, the description is the empty string; otherwise `str[strMaxLen]` is NUL and the first min(strMaxLen, 16) bytes are `strncpy` of the volume name at 0x478, everything else untouched. |
| `Ext2Fs.FullNameCopied` | Booter/i386/libsaio/ext2fs.c:40 | A volume name without NUL in the copied window is reported in full. |
| `PciRoot.FindRootUid` | Booter/i386/libsaio/pci_root.c:21-32 | The scan loop returns the byte after the first `_UID` tag followed by 0x08 within 64 bytes (and before `len - 5`), else 11, as `UidFrom` defines. |
| `PciRoot.UidFirstMatch` | Booter/i386/libsaio/pci_root.c:24-29 | The first `_UID` match in the window decides the answer. |
| `PciRoot.UidNoMatch` | Booter/i386/libsaio/pci_root.c:31 | With no `_UID` match in the window the answer is 11. |
| `PciRoot.FindPciRoot` | Booter/i386/libsaio/pci_root.c:34-44 | The scan loop returns `findrootuid` started at the first `PCI` tag followed by 0x08 at either of the next two bytes, else 10, as `PciRootFrom` defines. |
| `PciRoot.PciFirstMatch` | Booter/i386/libsaio/pci_root.c:38-41 | The first `PCI` match decides, and the `_UID` search starts at that match. |
| `PciRoot.PciNoMatch` | Booter/i386/libsaio/pci_root.c:43 | With no `PCI` match the answer is 10. |
| `PciRoot.DsdtPath` | Booter/i386/libsaio/pci_root.c:85-87 | The DSDT key's value when set, else `/Extra/DSDT.aml`. |
| `PciRoot.ChooseUid` | Booter/i386/libsaio/pci_root.c:58-114 | The result is always a single digit 0..9. |
| `PciRoot.KeyOverridesDsdt` | Booter/i386/libsaio/pci_root.c:60-65 | When `PCIRootUID` is set, the DSDT contents are irrelevant, and a leading digit is the answer. |
| `PciRoot.RootUid.constructor` | Booter/i386/libsaio/pci_root.c:19 | The cached value starts at 10, meaning not yet computed. |
| `PciRoot.RootUid.GetPciRootUid` | Booter/i386/libsaio/pci_root.c:46-118 | A cached value below 10 is returned unchanged; otherwise the result is `ChooseUid` of the key and the DSDT file (when it can be read), it is 0..9 and it is cached. |
| `PciRoot.GetTwice` | Booter/i386/libsaio/pci_root.c:55-57 | Two calls return the same value whatever the configuration in between. |
| `BootStruct.InitialArgs` | Booter/i386/libsaio/bootstruct.c:56-94 | The zeroed arguments carry version 1, revision 5, VGA text mode, an empty memory map and no device tree. |
| `BootStruct.EfiType` | Booter/i386/libsaio/bootstruct.c:136-150 | ACPI ranges become reclaimable memory, NVS ranges NVS, usable ranges conventional memory, and every other type reserved; each in both directions. |
| `BootStruct.Convert` | Booter/i386/libsaio/bootstruct.c:151-154 | One descriptor is identity mapped at the range base, has no attributes, and covers the whole pages of the range (length shifted right by 12). |
| `BootStruct.UsableIsConventional` | Booter/i386/libsaio/bootstruct.c:143-153 | A converted range is conventional memory exactly when it was usable, and has no pages exactly when shorter than one page. |
| `BootStruct.BootState.constructor` | Booter/i386/libsaio/bootstruct.c:47 | Nothing is initialised yet and the memory map is empty. |
| `BootStruct.BootState.InitKernBootStruct` | Booter/i386/libsaio/bootstruct.c:43-99 | The first call stores the initial arguments, the BIOS memory map and its memory sizes (the legacy size queries when the map is empty); later calls change nothing. |
| `BootStruct.BootState.ReserveKernBootStruct` | Booter/i386/libsaio/bootstruct.c:104-110 | The arguments are copied unchanged to the kernel address. |
| `BootStruct.BootState.FinalizeBootStruct` | Booter/i386/libsaio/bootstruct.c:112-173 | An empty map stops the boot; otherwise every range is converted in order, the map address, size and descriptor size are recorded, and the device tree address and length are stored when it could be allocated (else the boot stops). |
| `BootStruct.InitTwice` | Booter/i386/libsaio/bootstruct.c:49-96 | A second initialisation leaves the first one's memory map, address and arguments in place. |
| `Cpu.Field` | Booter/i386/libsaio/cpu.c:221-226 | A `bitfield` extraction is smaller than two to the power of its width. |
| `Cpu.DecodeCpuId` | Booter/i386/libsaio/cpu.c:220-228 | The vendor is leaf 0's EBX; the model is the 4-bit model with the extended model in its high nibble; family, extended family and thread count are their field widths; the core count is the 6-bit field plus one (1..64). |
| `Cpu.Leaf81` | Booter/i386/libsaio/cpu.c:205-208 | Leaf 0x80000001 is used only when the low nibble of leaf 0x80000000's EAX is at least 1; otherwise its registers stay zero. |
| `Cpu.CpuidFeatures` | Booter/i386/libsaio/cpu.c:231-255 | A feature is set exactly when its CPUID bit (MMX, SSE, SSE2, SSE3, SSE4.1, SSE4.2, EM64T) or, for HTT, the thread/core comparison says so; the mobile flag never comes from CPUID. |
| `Cpu.HttFromCounts` | Booter/i386/libsaio/cpu.c:252-255 | Hyper-threading is reported exactly when there are more threads than cores. |
| `Cpu.Delta` | Booter/i386/libsaio/cpu.c:153-157 | The TSC difference is taken modulo 2^64, as unsigned 64-bit subtraction does. |
| `Cpu.MinDelta` | Booter/i386/libsaio/cpu.c:125-158 | The running minimum starts at all ones and never exceeds it. |
| `Cpu.MeasureTscFrequency` | Booter/i386/libsaio/cpu.c:121-180 | The ten-run loop yields the frequency of the least usable delta (a run with more than one poll and a delta above 30), 0 above 2^32 ticks, bounded by the 2^32*1000/30 ceiling. |
| `Cpu.TscFrequency` | Booter/i386/libsaio/cpu.c:172-177 | The frequency for a delta over 30 ms, 0 above 2^32 ticks; `MeasureTscFrequency` and `NoUsableRun` state the loop against it. |
| `Cpu.MinDeltaIsLeast` | Booter/i386/libsaio/cpu.c:147-157 | The minimum is at most the delta of every usable run. |
| `Cpu.MinDeltaAttained` | Booter/i386/libsaio/cpu.c:156-157 | The minimum is the delta of some usable run, unless no run is usable. |
| `Cpu.NoUsableRun` | Booter/i386/libsaio/cpu.c:172-173 | With no usable run the delta stays at all ones and the frequency is 0. |
| `Cpu.NehalemFreq` | Booter/i386/libsaio/cpu.c:264-280 | On Nehalem the current ratio is PLATFORM_INFO's, lowered to FLEX_RATIO's when bit 16 enables it; the CPU clock is the TSC and the FSB is 0 when the ratio is 0. |
| `Cpu.PerfStatusFreq` | Booter/i386/libsaio/cpu.c:281-313 | From IA32_PERF_STATUS: 5-bit ratios and 1-bit half steps; no maximum ratio means no FSB and no CPU clock. |
| `Cpu.FsbFor` | Booter/i386/libsaio/cpu.c:301-305 | The FSB (TSC over the maximum ratio, with the half step) never exceeds the TSC. |
| `Cpu.CpuFor` | Booter/i386/libsaio/cpu.c:306-310 | The CPU clock (FSB times the current ratio, with the half step) is at most 32 times the FSB. |
| `Cpu.Frequencies` | Booter/i386/libsaio/cpu.c:258-314 | Anything but an Intel family 6 or 15 processor gets no frequencies. |
| `Cpu.OldIntelNoFreq` | Booter/i386/libsaio/cpu.c:262 | Intel processors below the ratio-MSR models get no frequencies either. |
| `Cpu.NehalemFsbTimesRatio` | Booter/i386/libsaio/cpu.c:277-280 | On Nehalem the CPU clock is the TSC and FSB times ratio equals the TSC up to rounding. |
| `Cpu.CpuMatchesTsc` | Booter/i386/libsaio/cpu.c:300-310 | With whole ratios at the maximum, the computed CPU clock recovers the TSC frequency up to less than one ratio. |
| `Cpu.FrequenciesFit64` | Booter/i386/libsaio/cpu.c:302-309 | With the measured TSC bound, every product the code forms stays below 2^64, so the unbounded model agrees with the 64-bit code. |
| `Cpu.Platform.constructor` | Booter/i386/libsaio/cpu.c:197 | The platform starts with no features and no frequencies. |
| `Cpu.Platform.ScanCpu` | Booter/i386/libsaio/cpu.c:191-375 | The identity is the decoded CPUID, the TSC frequency the measured one, the frequencies those of `Frequencies`, and the features grow by the CPUID features plus the mobile flag when MSR 0x17 bit 28 is set on an Intel core. |
| `SmbiosDefaults.DefaultValues` | Booter/i386/libsaio/smbios_patcher.c:27-99 | Each model's table has one value per default key. |
| `SmbiosDefaults.DefaultTableChoice` | Booter/i386/libsaio/smbios_patcher.c:106-118 | Mobile multi-core picks MacBookPro, mobile single-core MacBook, desktop one core MacMini, two cores iMac, anything else MacPro; each in both directions. |
| `SmbiosDefaults.ModelFor` | Booter/i386/libsaio/smbios_patcher.c:106-118 | The model a platform impersonates, by mobility and core count; `DefaultTableChoice` states each case. |
| `SmbiosDefaults.FindDefaultFirst` | Booter/i386/libsaio/smbios_patcher.c:120-129 | The table search returns the value of the first row with the name, and "" when no row has it. |
| `SmbiosDefaults.DefaultStringLookup` | Booter/i386/libsaio/smbios_patcher.c:101-130 | `sm_get_defstr` answers "" for an unknown name and the chosen model's value for a known one. |
| `SmbiosDefaults.DefaultString` | Booter/i386/libsaio/smbios_patcher.c:101-130 | `sm_get_defstr`: the default for a name in the table of the model the platform impersonates; `DefaultStringLookup` states both cases. |
| `SmbiosDefaults.CpuType` | Booter/i386/libsaio/smbios_patcher.c:142-153 | 0x0101 for one core, 0x0501 for four or more, 0x0301 otherwise; each in both directions. |
| `SmbiosDefaults.MemType` | Booter/i386/libsaio/smbios_patcher.c:155-166 | The slot's non-zero type when the slot is in use, else DDR2. |
| `SmbiosDefaults.MemSpeed` | Booter/i386/libsaio/smbios_patcher.c:168-174 | The RAM frequency in whole MHz, or 667 when it is unknown. |
| `SmbiosDefaults.MemText` | Booter/i386/libsaio/smbios_patcher.c:176-216 | The slot's vendor, serial or part number when the slot is in use and the text is non-empty, else "N/A"; never empty. |
| `Boot.AdlerSums` | Booter/i386/boot2/boot.c:628-649 | The reference sums, reduced after every byte, both stay below 65521. |
| `Boot.AdlerValue` | Booter/i386/boot2/boot.c:650 | The packed checksum `s2 << 16 \| s1` fits in 32 bits. |
| `Boot.AdlerMatchesRfc` | Booter/i386/boot2/boot.c:618-652 | The reference sums equal RFC 1950's definition: s1 is 1 plus the byte sum and s2 the sum of the successive s1 values, both modulo 65521. |
| `Boot.ByteOf` | Booter/i386/boot2/boot.c:651 | A byte of a 32-bit value is below 256. |
| `Boot.PackBytes` | Booter/i386/boot2/boot.c:651 | Packing four bytes gives a 32-bit value whose bytes read back as the four bytes. |
| `Boot.Swap32` | Booter/i386/boot2/boot.c:651 | The host-to-big-endian swap on x86 reverses the four bytes of the value. |
| `Boot.Swap32Involutive` | Booter/i386/boot2/boot.c:651 | Swapping twice gives the value back. |
| `Boot.ChunkFits` | Booter/i386/boot2/boot.c:619-620 | With at most 5000 bytes per chunk the unreduced sums cannot reach 2^32, which is why the 32-bit accumulators never wrap. |
| `Boot.ChunkStep` | Booter/i386/boot2/boot.c:622-646 | One more byte of a chunk keeps both unreduced sums inside their bounds and below 2^32. |
| `Boot.AdlerUnfold` | Booter/i386/boot2/boot.c:644-645 | One more byte updates the reference sums by `s1 += b; s2 += s1`. |
| `Boot.AdlerStep` | Booter/i386/boot2/boot.c:644-648 | Adding a byte to unreduced sums keeps them congruent modulo 65521 to the reference sums. |
| `Boot.AddChunk` | Booter/i386/boot2/boot.c:636-646 | The inner loops add `k` bytes without reducing, neither accumulator reaches 2^32, and the reduced results are the reference sums of the longer prefix. |
| `Boot.Adler32` | Booter/i386/boot2/boot.c:628-652 | The chunked loop returns the byte-swapped reference checksum of the whole buffer. |
| `Boot.CacheNameBuffer` | Booter/i386/boot2/boot.c:467-470 | The 320-byte name buffer keeps the 64-byte platform area, then holds the root device, a comma and the boot file, zero-padded. |
| `Boot.Hex8` | Booter/i386/boot2/boot.c:477 | `%08lX` yields eight characters. |
| `Boot.Hex8RoundTrip` | Booter/i386/boot2/boot.c:477 | Eight hex digits of a 32-bit value read back as the value. |
| `Boot.CacheFile` | Booter/i386/boot2/boot.c:474-478 | The Kernel Cache value when configured, else the default cache path, a dot and eight hex digits. |
| `Boot.NameCacheFile` | Booter/i386/boot2/boot.c:467-478 | The checksum is the byte-swapped Adler-32 of the reset name buffer, the file is `CacheFile` of it, and without a Kernel Cache key the suffix after the dot reads back as that checksum. |
| `Boot.CacheFreshExact` | Booter/i386/boot2/boot.c:489-516 | With an Extensions directory the cache is used exactly when kernel and cache are flat files and the cache is one second newer than the newer of kernel and Extensions. |
| `Boot.ExttimeUninitMatters` | Booter/i386/boot2/boot.c:503-515 | When the Extensions lookup fails the decision depends on the unset `exttime`: two values of it give opposite answers for the same files. |
| `Boot.TryCache` | Booter/i386/boot2/boot.c:481-485 | The cache is a candidate only with safe mode off, no kernel override, a block-device boot, no mkext name and a cache name; `CacheTried` states what a cache that is used then satisfies. |
| `Boot.CacheFresh` | Booter/i386/boot2/boot.c:489-516 | The staleness check: kernel and cache are flat files, the cache is not older than the kernel nor than an Extensions directory, and it is one second newer than the newer of the kernel and `exttime`; `CacheFreshExact` and `ExttimeUninitMatters` state its cases. |
| `Boot.CacheTried` | Booter/i386/boot2/boot.c:481-516 | A cache is used only in a normal boot of the default kernel from a block device with a cache name, and only when it is strictly newer than the kernel and than an Extensions directory. |
| `Boot.BootFileSpec` | Booter/i386/boot2/boot.c:530-547 | The first of the P, R, S helper locations that exists, else the boot file itself, and no earlier location exists. |
| `Boot.ArchCpuType` | Booter/i386/boot2/boot.c:409-422 | 64-bit exactly when the CPU has EM64T, `arch` does not start with i386 and `-x32` is absent. |
| `Boot.LoadKernel` | Booter/i386/boot2/boot.c:518-557 | The cache is used exactly when tried and its load succeeds; otherwise the kernel is loaded, and a failed 64-bit load is retried once as i386. |
| `Boot.PassesUsed` | Booter/i386/boot2/boot.c:338-583 | The loop uses no more passes than there are attempts. |
| `Boot.LoopExit` | Booter/i386/boot2/boot.c:338-583 | How the loop ends over its passes: status 1 chain-loads, -1 goes round again, a positive load result runs the kernel, a failed load on the network returns to PXE, any other failure goes round again; `CommonBootLoop` and `ChainBootFirst` state the loop against it. |
| `Boot.CommonBootLoop` | Booter/i386/boot2/boot.c:338-583 | The loop's exit is `LoopExit` of the attempts, and it rebuilds the volume chain once per restart with no volume selected. It rescans before a rebuild exactly while rescanning is enabled, as `Rescans` counts: a '?norescan' typed in a pass turns it off from that pass on, so there are never more rescans than rebuilds, none when it starts off, and one per rebuild when it is never turned off. |
| `Boot.RebuildsStep` | Booter/i386/boot2/boot.c:365-378 | One pass adds one rebuild exactly when it restarts with no volume. |
| `Boot.RescanOn` | Booter/i386/boot2/options.c:950-954 | Whether rescanning is still enabled after some passes: it starts at its configured value and only a '?norescan' changes it, to off; `NorescanSticks` states that it never comes back. |
| `Boot.NorescanSticks` | Booter/i386/boot2/options.c:950-954 | After a pass in which '?norescan' turned rescanning off, it stays off. |
| `Boot.Rescans` | Booter/i386/boot2/boot.c:365-378 | The rebuilding passes that find `gEnableCDROMRescan` still set and rescan first; `CommonBootLoop` is proved against it. |
| `Boot.ChainBootFirst` | Booter/i386/boot2/boot.c:361-363 | A chain-load request ends the loop before any later kernel is loaded. |
| `StringTable.Slice` | Booter/i386/libsaio/stringTable.c:323-326 | The `n` characters from a position, NUL past the end of the buffer; a plain slice inside it. |
| `StringTable.QuoteEnd` | Booter/i386/libsaio/stringTable.c:290-294 | The first position from `j` holding NUL or a double quote. |
| `StringTable.QuoteEndClean` | Booter/i386/libsaio/stringTable.c:292-293 | Every character before the quote end is neither NUL nor a quote. |
| `StringTable.StringLengthPlain` | Booter/i386/libsaio/stringTable.c:172-191 | Without backslashes `stringLength` is the distance to the closing quote or NUL. |
| `StringTable.StringLengthCompress` | Booter/i386/libsaio/stringTable.c:178-182 | Counting escapes as one character can only shorten the length, at most by half. |
| `StringTable.WordEnd` | Booter/i386/libsaio/stringTable.c:296-299 | The first position from `j` holding NUL, white space or '='. |
| `StringTable.GetToken` | Booter/i386/libsaio/stringTable.c:288-302 | A quoted token runs to the closing quote, which is consumed (as is the NUL ending an unterminated quote, as written); any other token runs to white space, '=' or NUL; a token that starts with a word character advances the cursor. |
| `StringTable.ReadItem` | Booter/i386/libsaio/stringTable.c:310-322 | One pass of the scan: skip white space, read a key, then a value after a non-space separator, or an empty value at the separator; the cursor strictly advances. |
| `StringTable.BootKeyStopsAtNul` | Booter/i386/libsaio/stringTable.c:304-332 | The lookup reads nothing past the first NUL of the command line. |
| `StringTable.BootKeyAsWrittenReadsPastNul` | Booter/i386/libsaio/stringTable.c:290-294 | As written, after the unterminated quote in `k="v` the scan resumes beyond the NUL and finds `x=1`, which the C string does not hold. |
| `StringTable.GetValueForBootKeyAsWritten` | Booter/i386/libsaio/stringTable.c:290-332 | `getValueForBootKey` as written: the same scan as `GetValueForBootKey`, but an unterminated quote steps over the NUL and the scan goes on. `BootKeyAsWrittenReadsPastNul` shows a line where the two differ. |
| `StringTable.PastNulItems` | Booter/i386/libsaio/stringTable.c:310-322 | The two items the as-written scan reads from `k="v`, NUL, `x=1`, the second one past the NUL. |
| `StringTable.TruncatedLine` | Booter/i386/libsaio/stringTable.c:310 | The C string `k="v` alone holds no `x`. |
| `StringTable.ReadPair` | Booter/i386/libsaio/stringTable.c:315-318 | A plain `key=value` item is read as that key and value, ending at white space or NUL. |
| `StringTable.ReadKey` | Booter/i386/libsaio/stringTable.c:319-322 | A plain key without '=' records an empty value at the separator. |
| `StringTable.KeyValueFound` | Booter/i386/libsaio/stringTable.c:304-332 | `key=value` alone on the line gives exactly that value. |
| `StringTable.GetValueForBootKey` | Booter/i386/libsaio/stringTable.c:304-332 | The command-line lookup: the value of the last item whose key matches, read no further than the line's NUL; `KeyValueFound`, `KeyWithoutValue`, `QuotedValue`, `OtherKeyNotFound`, `ScanKeepsLast` and `BootKeyStopsAtNul` state its cases. |
| `StringTable.OtherKeyNotFound` | Booter/i386/libsaio/stringTable.c:323-324 | A key matches only as the whole key token: `k=v` is not found under another name. |
| `StringTable.ScanStep` | Booter/i386/libsaio/stringTable.c:310-330 | One iteration of the loop moves past the item and records it when its key matches. |
| `StringTable.ScanSpace` | Booter/i386/libsaio/stringTable.c:312 | White space before a token is skipped. |
| `StringTable.ScanKeepsLast` | Booter/i386/libsaio/stringTable.c:328 | The last occurrence wins: what is found later replaces what was found earlier, and the earlier value shows only when nothing later matches. |
| `StringTable.LaterMatchHides` | Booter/i386/libsaio/stringTable.c:328 | Once a later item matches, nothing recorded before it shows through. |
| `StringTable.KeyWithoutValue` | Booter/i386/libsaio/stringTable.c:319-322 | A key given without '=' is found with an empty value. |
| `StringTable.QuotedValue` | Booter/i386/libsaio/stringTable.c:290-294 | A quoted value is the text between the quotes. |
| `StringTable.ConfigTableValue` | Booter/i386/libsaio/stringTable.c:194-212 | A value exists exactly when the dictionary holds the key as a string property, and it is that string. |
| `StringTable.ValueForKeyPrecedence` | Booter/i386/libsaio/stringTable.c:472-509 | The command line wins; then the configuration file, replaced by the override file when the file allows overriding and the override holds the key (outside the two exceptions). |
| `StringTable.GetValueForKey` | Booter/i386/libsaio/stringTable.c:472-509 | The layered lookup: the command line, then the override configuration where the configuration allows it (outside the "Kernel" and "Kernel Flags" exceptions), then the configuration; `ValueForKeyPrecedence` and `KernelOverrideException` state it. |
| `StringTable.KernelOverrideException` | Booter/i386/libsaio/stringTable.c:493-494 | A configured kernel name is never replaced by `mach_kernel` from the override file. |
| `StringTable.BoolForValue` | Booter/i386/libsaio/stringTable.c:338-352 | Found exactly when the key is found, and true exactly when the value starts with 'Y' or 'y'. |
| `StringTable.Decimal` | Booter/i386/libsaio/stringTable.c:371-377 | The decimal text of a number is a non-empty run of digits. |
| `StringTable.DecimalRoundTrip` | Booter/i386/libsaio/stringTable.c:371-377 | The digit loop reads a number's decimal text back as the number. |
| `StringTable.IntRoundTrip` | Booter/i386/libsaio/stringTable.c:354-387 | `getIntForKey` returns N for the text of N and -N for '-' followed by it. |
| `StringTable.IntRejectsNonDigit` | Booter/i386/libsaio/stringTable.c:373-374 | Any non-digit after the optional sign makes the lookup fail. |
| `StringTable.IntForValue` | Booter/i386/libsaio/stringTable.c:354-387 | `getIntForKey` on a found value: an optional '-' then decimal digits only, and an empty value is no number; `IntRoundTrip` and `IntRejectsNonDigit` state both directions. |
| `StringTable.U32` | Booter/i386/libsaio/stringTable.c:429-434 | `unsigned int` arithmetic wraps below 2^32. |
| `StringTable.Percent` | Booter/i386/libsaio/stringTable.c:429-430 | The percentage product is computed in `unsigned int`. |
| `StringTable.DimensionForValue` | Booter/i386/libsaio/stringTable.c:393-449 | A missing key gives no value, and a found one is truncated to 16 bits. |
| `StringTable.DimensionCentred` | Booter/i386/libsaio/stringTable.c:436-440 | An empty value centres the object. |
| `StringTable.DimensionPlain` | Booter/i386/libsaio/stringTable.c:420-427 | A plain number is taken as it is. |
| `StringTable.DimensionPercent` | Booter/i386/libsaio/stringTable.c:414-430 | "N%" is N percent of the maximum. |
| `StringTable.PercentNoWrap` | Booter/i386/libsaio/stringTable.c:429-430 | A percentage of a 16-bit maximum neither wraps nor is truncated. |
| `StringTable.DimensionFromEnd` | Booter/i386/libsaio/stringTable.c:407-434 | "-N" measures N back from the far edge. |
| `StringTable.FromEndNoWrap` | Booter/i386/libsaio/stringTable.c:433-434 | Measuring back from the far edge does not wrap for 16-bit sizes. |
| `StringTable.DimensionRejects` | Booter/i386/libsaio/stringTable.c:423-424 | For every value `pre + [c] + post`: a non-digit `c` that is not a leading '-' or a trailing '%' makes the lookup fail. |
| `StringTable.ColorForValue` | Booter/i386/libsaio/stringTable.c:455-470 | A colour is found exactly when the value starts with '#', and it fits in 32 bits. |
| `StringTable.ColorHex` | Booter/i386/libsaio/stringTable.c:462-466 | "#RRGGBB" reads as the hexadecimal value of its digits. |
| `StringTable.SkipSeparators` | Booter/i386/libsaio/stringTable.c:721-725 | The cursor moves over spaces and '=' only, and stops at something else. |
| `StringTable.ArgEnd` | Booter/i386/libsaio/stringTable.c:741-746 | An unquoted argument runs up to NUL, space or '='. |
| `StringTable.GetNextArg` | Booter/i386/libsaio/stringTable.c:712-762 | The scanning loops return the argument and new cursor that `NextArg` defines. |
| `StringTable.NextArgShape` | Booter/i386/libsaio/stringTable.c:712-762 | The cursor moves forward within the line and the argument holds no NUL and is no longer than what was consumed. |
| `StringTable.NextArgPlain` | Booter/i386/libsaio/stringTable.c:721-759 | A plain word after separators comes back unchanged and the cursor stops right after it. |
| `StringTable.NextArgQuoted` | Booter/i386/libsaio/stringTable.c:729-753 | A quoted argument comes back without its quotes and the closing quote is consumed. |
| `StringTable.NextArg` | Booter/i386/libsaio/stringTable.c:712-762 | `getNextArg`: separators are skipped; a quoted argument runs to its closing quote, which is consumed, any other to a space, '=' or NUL; `GetNextArg` computes it, and `NextArgShape`, `NextArgPlain` and `NextArgQuoted` state its cases. |
| `CLib.StrToL` | Booter/i386/boot2/mboot.c:392-421 | `strtol` with a 32-bit `long`: the value saturates to [-2^31, 2^31 - 1], and when no digit is read the value is 0 and the end is the start. |
| `CLib.StrToUL` | Booter/i386/libsaio/device_inject.c:178-193 | `strtoul` with a 32-bit `unsigned long`: the value lies in [0, 2^32 - 1], and when no digit is read the value is 0 and the end is the start. |
| `CLib.StrToLDecimal` | Booter/i386/boot2/mboot.c:409-421 | A run of decimal digits ended by a non-digit parses to its decimal value and stops right after it. |
| `CLib.StrToLHex` | Booter/i386/boot2/mboot.c:395 | Up to seven hexadecimal digits ended by a non-digit other than 'x' parse in base 16 to their value and stop right after them. |
| `FakeEfi.Ptov64` | Booter/i386/libsaio/fake_efi.c:67-70 | ORing with 0xFFFFFF8000000000 keeps the 32-bit address as the low half and puts the kernel alias base in the high half. |
| `FakeEfi.ConfigTables.constructor` | Booter/i386/libsaio/fake_efi.c:105-106 | The system table starts with no entries and no configuration-table nodes. |
| `FakeEfi.ConfigTables.AddConfigurationTable` | Booter/i386/libsaio/fake_efi.c:108-142 | The boot stops when the table is full; a NULL GUID is an invalid parameter, a NULL table unsupported, anything else succeeds and adds exactly one node with the GUID, table and alias; the entry count never changes. |
| `FakeEfi.AddMany` | Booter/i386/libsaio/fake_efi.c:122-126 | Since the entry count is never incremented, any number of registrations succeed. |
| `FakeEfi.FixupCrc` | Booter/i386/libsaio/fake_efi.c:144-148 | The CRC field receives the CRC-32 of the header with that field zeroed, and nothing else changes. |
| `FakeEfi.FixupMakesValid` | Booter/i386/libsaio/fake_efi.c:144-148 | After the fix-up the header size is unchanged and the stored CRC matches the header, so a second fix-up stores the same value. |
| `FakeEfi.PairValue` | Booter/i386/libsaio/fake_efi.c:472-474 | Two hex digits stand for 16 times the first plus the second. |
| `FakeEfi.NextPos` | Booter/i386/libsaio/fake_efi.c:472-477 | The cursor moves past two digits, and past a '-' only after an odd byte other than the last. |
| `FakeEfi.ParsePairs` | Booter/i386/libsaio/fake_efi.c:467-478 | After `n` rounds at most `n` bytes are stored, exactly `n` while every pair was present. |
| `FakeEfi.ParseUuid` | Booter/i386/libsaio/fake_efi.c:460-486 | The status is 0, -1 (missing or non-hex digit) or -2 (text after the sixteenth byte), and all sixteen bytes are stored unless the status is -1. |
| `FakeEfi.ParsePairsStuck` | Booter/i386/libsaio/fake_efi.c:468-471 | Once a pair is missing the loop has returned: later rounds change nothing. |
| `FakeEfi.ParsePairsStep` | Booter/i386/libsaio/fake_efi.c:468-477 | One round stores the pair's byte and moves on, or stops at a missing pair. |
| `FakeEfi.ParseUuidFirstDigit` | Booter/i386/libsaio/fake_efi.c:468 | Text that passes the digit check starts with a hex digit. |
| `FakeEfi.StringToUuid` | Booter/i386/libsaio/fake_efi.c:460-486 | The loop returns `ParseUuid`'s status, writes the parsed bytes into the front of the buffer and leaves the rest untouched. |
| `FakeEfi.HexByte` | Booter/i386/libsaio/fake_efi.c:572-574 | Two hex digits that read back as the byte. |
| `FakeEfi.Group` | Booter/i386/libsaio/fake_efi.c:572 | The text of one byte: its two digits, and a dash when the layout puts one there. |
| `FakeEfi.Groups` | Booter/i386/libsaio/fake_efi.c:572 | One group per byte of the UUID. |
| `FakeEfi.PairAtGroup` | Booter/i386/libsaio/fake_efi.c:468-474 | In formatted text, group `i` starts with the two digits of byte `i`. |
| `FakeEfi.NextAtGroup` | Booter/i386/libsaio/fake_efi.c:475-477 | The parse steps from group `i` to group `i + 1`, over the dash when there is one. |
| `FakeEfi.FormatParsesPairs` | Booter/i386/libsaio/fake_efi.c:467-478 | After `n` rounds over formatted text the parse sits at group `n` holding the first `n` bytes. |
| `FakeEfi.UuidRoundTrip` | Booter/i386/libsaio/fake_efi.c:460-486 | Formatted UUID text, with any accepted dash layout, parses back to the bytes with status 0. |
| `FakeEfi.Rfc4122Parses` | Booter/i386/libsaio/fake_efi.c:460-486 | The RFC 4122 text of a UUID parses back to it. |
| `FakeEfi.EvenDashRejected` | Booter/i386/libsaio/fake_efi.c:475 | A dash after byte 0 is a syntax error. |
| `FakeEfi.StringsEnd` | Booter/i386/libsaio/fake_efi.c:522-526 | The skip over a structure's strings never moves backwards. |
| `FakeEfi.Type1From` | Booter/i386/libsaio/fake_efi.c:504-532 | The walk settles only on a type 1 structure of length at least 0x19 whose 4-byte header lies inside the table (the C's `p + 4` bound). |
| `FakeEfi.UuidBytes` | Booter/i386/libsaio/fake_efi.c:535-548 | Sixteen bytes: each one inside the table is the table's byte at offset 8 + k of the structure, so a structure whose UUID lies in the table gives exactly those bytes; a byte past the table is 0. |
| `FakeEfi.SmbiosUuid` | Booter/i386/libsaio/fake_efi.c:488-549 | A UUID is found only with the `_DMI_` anchor and a usable System Information structure, it is that structure's 16 bytes, and it is neither all 0x00 nor all 0xFF. |
| `FakeEfi.GetSmbiosUuid` | Booter/i386/libsaio/fake_efi.c:488-549 | The loops find a UUID exactly when `SmbiosUuid` does, and return it. |
| `FakeEfi.FindType1` | Booter/i386/libsaio/fake_efi.c:504-528 | The structure walk finds a position exactly when `Type1From` does, and returns it. |
| `FakeEfi.IsUnset` | Booter/i386/libsaio/fake_efi.c:537-541 | The loop reports a UUID unset exactly when it is all 0x00 or all 0xFF. |
| `FakeEfi.FirstStructureType1` | Booter/i386/libsaio/fake_efi.c:516-548 | A table starting with a usable System Information structure yields its UUID. |
| `FakeEfi.SystemType` | Booter/i386/libsaio/fake_efi.c:362-369 | The system type is 1 or 2, and 2 exactly when the configured value read as a byte is 2. |
| `FakeEfi.ChooseSystemId` | Booter/i386/libsaio/fake_efi.c:565-578 | SMUUID when it parses; else SystemId when it does not start with N/n and parses; else the SMBIOS UUID; else the value already held. |
| `FakeEfi.SmuuidWins` | Booter/i386/libsaio/fake_efi.c:565-567 | An RFC 4122 SMUUID overrides everything else. |
| `FakeEfi.SystemIdNoKeepsSmbios` | Booter/i386/libsaio/fake_efi.c:568 | A SystemId starting with 'N' never replaces the SMBIOS UUID. |
| `FakeEfi.Char16` | Booter/i386/libsaio/fake_efi.c:582 | A character becomes a 16-bit code unit, unchanged below 0x80. |
| `FakeEfi.Utf16Field` | Booter/i386/libsaio/fake_efi.c:579-596 | The buffer holds the characters, then a NUL, and keeps its old contents after that. |
| `FakeEfi.ExportSystemIdAsWritten` | Booter/i386/libsaio/fake_efi.c:420-425 | As written, the system-id is exported exactly when SystemId is unset or starts with Y/y. |
| `FakeEfi.UuidSystemIdNotExported` | Booter/i386/libsaio/fake_efi.c:420-425 | A SystemId holding a UUID is adopted as the System-ID, yet the same key turns its export off. |
| `FakeEfi.Rfc4122SystemIdNotExported` | Booter/i386/libsaio/fake_efi.c:420-425 | Every UUID written in the RFC 4122 layout shows it. |
| `FakeEfi.ExportSystemId` | Booter/i386/libsaio/fake_efi.c:420 | As the comment intends, only a value starting with N/n turns the export off. |
| `FakeEfi.AdoptedSystemIdExported` | Booter/i386/libsaio/fake_efi.c:420-425 | With that rule an adopted SystemId UUID is also exported. |
| `FakeEfi.SelectSystemId` | Booter/i386/libsaio/fake_efi.c:565-578 | The branch computes `ChooseSystemId` with the UUID the SMBIOS walk finds. |
| `FakeEfi.EfiPlatform.constructor` | Booter/i386/libsaio/fake_efi.c:551-556 | The System-ID starts at the built-in default and neither serial nor model is present. |
| `FakeEfi.EfiPlatform.SetupOverrideConfig` | Booter/i386/libsaio/fake_efi.c:551-597 | The System-ID becomes `ChooseSystemId`; serial and model are replaced by their UTF-16 text with byte length (len+1)*2 only when shorter than 32 characters, else left alone. |
| `Mboot.StrLenAtFacts` | Booter/i386/boot2/mboot.c:163-164 | The string scan covers only non-NUL bytes inside memory and stops at a NUL. |
| `Mboot.StrEnd` | Booter/i386/boot2/mboot.c:163-165 | The end of a string lies past its start. |
| `Mboot.TextAt` | Booter/i386/boot2/mboot.c:160-165 | The string read from memory has the scanned length and the same characters, none of them NUL. |
| `Mboot.StringEnd` | Booter/i386/boot2/mboot.c:163-165 | The scan loop stops one past the NUL. |
| `Mboot.Max` | Booter/i386/boot2/mboot.c:166-167 | Raising the bound keeps it at or above both the old bound and the new end. |
| `Mboot.ModsBoundCovers` | Booter/i386/boot2/mboot.c:171-194 | After `n` modules the running bound covers every descriptor, module end and name seen so far. |
| `Mboot.ModsBoundLeast` | Booter/i386/boot2/mboot.c:171-194 | Any bound covering the same modules is at least the running bound. |
| `Mboot.RawBoundLeast` | Booter/i386/boot2/mboot.c:151-195 | Before rounding, the bound is the least one covering PREBOOT_DATA, the command line and every module. |
| `Mboot.CoversMono` | Booter/i386/boot2/mboot.c:151-195 | A larger bound still covers everything. |
| `Mboot.RoundUpPageLeast` | Booter/i386/boot2/mboot.c:198 | Without 32-bit overflow, rounding gives the least multiple of 4096 at or above the bound. |
| `Mboot.RoundUpPageWraps` | Booter/i386/boot2/mboot.c:198 | A bound in the last page of the 32-bit space rounds to 0, which the caller reads as NULL. |
| `Mboot.SafeHiAddrLeast` | Booter/i386/boot2/mboot.c:149-200 | With the right magic and no overflow, the safe address is the least page multiple covering all the data that must not be overwritten. |
| `Mboot.DetermineSafeHiAddr` | Booter/i386/boot2/mboot.c:149-200 | The loops return NULL for a wrong magic, otherwise the rounded bound. |
| `Mboot.CopyOf` | Booter/i386/boot2/mboot.c:274 | A copy of `n` bytes occupies exactly the addresses from `dst` to `dst + n`. |
| `Mboot.HoldsCopyKept` | Booter/i386/boot2/mboot.c:238-284 | A copy made earlier survives later allocations, which only add memory. |
| `Mboot.HeldStringReadsBack` | Booter/i386/boot2/mboot.c:219-228 | A duplicated string reads back the same, with its NUL in the same place. |
| `Mboot.HiArena.constructor` | Booter/i386/boot2/mboot.c:240 | The arena starts at the safe address with nothing stored. |
| `Mboot.HiArena.Malloc` | Booter/i386/boot2/mboot.c:207-212 | `_hi_malloc` returns the old cursor and moves it forward by `size`, storing nothing. |
| `Mboot.HiArena.Store` | Booter/i386/boot2/mboot.c:245 | `memcpy` into a block already handed out adds the copied bytes and leaves the cursor alone. |
| `Mboot.HiArena.StrDup` | Booter/i386/boot2/mboot.c:219-228 | `_hi_strdup` copies the string and its NUL to the cursor and moves the cursor just past them. |
| `Mboot.StringStored` | Booter/i386/boot2/mboot.c:219-228 | A string copied at the cursor is held there, and everything stored before is unchanged. |
| `Mboot.CopyBelow` | Booter/i386/boot2/mboot.c:207-228 | Every byte stored so far lies below the advanced cursor. |
| `Mboot.CopyOfStep` | Booter/i386/boot2/mboot.c:223-224 | Copying one more byte adds that byte at the next address. |
| `Mboot.KeepFlags` | Booter/i386/boot2/mboot.c:281 | The copy keeps exactly the memory, boot-device, command-line, loader-name and module flags, and clears every other bit. |
| `Mboot.ModLength` | Booter/i386/boot2/mboot.c:270 | The module length is the 32-bit unsigned difference, which equals end minus start when there is no wrap. |
| `Mboot.ModuleCopiedKept` | Booter/i386/boot2/mboot.c:266-278 | A module's deep copy stays intact through later allocations. |
| `Mboot.StoredCopyHeld` | Booter/i386/boot2/mboot.c:274 | What was just copied is held. |
| `Mboot.FreshExtends` | Booter/i386/boot2/mboot.c:207-228 | Storing at or above the cursor never overwrites earlier copies. |
| `Mboot.CopyModule` | Booter/i386/boot2/mboot.c:270-277 | One loop round allocates the contents and name, copies them, and leaves the earlier copies intact. |
| `Mboot.DupString` | Booter/i386/boot2/mboot.c:219-228 | `hi_strdup` leaves a held copy of the string and keeps earlier copies. |
| `Mboot.CopyModules` | Booter/i386/boot2/mboot.c:257-279 | The module table has one entry per source module, each a deep copy of its contents and name. |
| `Mboot.CopyStrings` | Booter/i386/boot2/mboot.c:247-256 | The command line and loader name are duplicated exactly when their flags are set; no other field changes. |
| `Mboot.CopyMultibootInfo` | Booter/i386/boot2/mboot.c:238-284 | The result is NULL exactly when the safe address is NULL. Otherwise the copy sits at that address, keeps the five deep-copied flags and the scalar fields, and holds its own command line, loader name and modules. |
| `Mboot.ParseValueAsWritten` | Booter/i386/boot2/mboot.c:392-403 | As written, a found value is accepted when it is non-empty and `strtol` stops at NUL, space or tab. |
| `Mboot.BlankValueAcceptedAsWritten` | Booter/i386/boot2/mboot.c:392-399 | As written, a value of only white space is accepted as device 0. |
| `Mboot.ParseValue` | Booter/i386/boot2/mboot.c:392-403 | As intended, a value is accepted only when digits were read, and then it lies within `long`. |
| `Mboot.BlankValueRejected` | Booter/i386/boot2/mboot.c:392-403 | The intended test never accepts a value without digits. |
| `Mboot.HexValueAccepted` | Booter/i386/boot2/mboot.c:392-399 | One to seven hex digits ending at a separator are accepted with their value. |
| `Mboot.HexPrefix` | Booter/i386/boot2/mboot.c:395 | `strtol` in base 16 reads exactly the leading hex digits. |
| `Mboot.Base0Decimal` | Booter/i386/boot2/mboot.c:409-421 | With base 0, digits that do not start with 0 are read in base 10. |
| `Mboot.DecimalValueAccepted` | Booter/i386/boot2/mboot.c:406-428 | A decimal number without a leading zero, ending at a separator, is accepted with its value. |
| `Mboot.ParseArg` | Booter/i386/boot2/mboot.c:392-404 | The result is absent exactly when the key is not on the command line. |
| `Mboot.ToU32` | Booter/i386/boot2/mboot.c:436 | The `int` device returned as `uint32_t`: a 32-bit value, unchanged when already in range. |
| `Mboot.MultibootOutcome` | Booter/i386/boot2/mboot.c:360-437 | A wrong magic returns BAD_BOOT_DEVICE with the settings unchanged; without a command line the settings are unchanged; the device is a 32-bit value. |
| `Mboot.ReportedDriveKept` | Booter/i386/boot2/mboot.c:374-436 | Without an accepted `biosdev=` override, the reported boot drive is returned. |
| `Mboot.BiosdevOverrides` | Booter/i386/boot2/mboot.c:392-400 | A `biosdev=` of one to seven hex digits overrides the device without a selection. |
| `Mboot.RejectedBiosdevSelects` | Booter/i386/boot2/mboot.c:402-433 | A `biosdev=` that is present but rejected hands the choice to `selectAlternateBootDevice`. |
| `Mboot.TimeoutDecimal` | Booter/i386/boot2/mboot.c:406-416 | `timeout=` with a plain decimal number sets the timeout and its flag. |
| `Mboot.SettingsNeedAcceptance` | Booter/i386/boot2/mboot.c:406-428 | Timeout and partition change only through an accepted argument. |
| `Mboot.BootGlobals.constructor` | Booter/i386/boot2/mboot.c:11-14 | The multiboot globals start at zero and unset. |
| `Mboot.BootGlobals.Multiboot` | Booter/i386/boot2/mboot.c:360-437 | `multiboot()` returns the device and updates the globals exactly as `MultibootOutcome` says. |
| `Mboot.BootGlobals.ApplyArguments` | Booter/i386/boot2/mboot.c:406-428 | The `timeout=` and `partno=` handling updates the globals as `ApplySettings` says. |
| `Mboot.ChooseBootDevice` | Booter/i386/boot2/mboot.c:374-404 | The boot device and the selection flag are computed as `ChooseDevice` says. |
| `Mboot.ChooseDevice` | Booter/i386/boot2/mboot.c:374-404 | The boot device from the multiboot information and the `biosdev=` argument, and whether `selectAlternateBootDevice` is called; `ChooseBootDevice` computes it. |
| `Mboot.ReadMem` | Booter/i386/boot2/mboot.c:455 | The `n` bytes of memory starting at `a`. |
| `Mboot.RamdiskModule` | Booter/i386/boot2/mboot.c:446-452 | A BIOS device is served by a module exactly when it lies from 0x100 to 0x100 + count - 1, and then by module `biosdev - 0x100`. |
| `Mboot.RamdiskInfo` | Booter/i386/boot2/mboot.c:459-473 | It fails (-1) exactly when no module serves the device; otherwise it reports the device as valid. |
| `Mboot.RamdiskSectorsCeil` | Booter/i386/boot2/mboot.c:470 | The reported sector count is the module length rounded up to whole 512-byte sectors. |
| `Mboot.RamdiskReadBytes` | Booter/i386/boot2/mboot.c:442-457 | A read fails exactly when no module serves the device; otherwise it returns `count` bytes. |
| `Mboot.RamdiskReadsModule` | Booter/i386/boot2/mboot.c:454-456 | Without overflow, a read returns the module's bytes from `start + blkno*512 + byteoff`. |
| `Mboot.ChainLoad` | Booter/i386/boot2/mboot.c:87-112 | The loader jumps to the chain booter exactly when bytes 0x1FE and 0x1FF are 0x55 and 0xAA. |
| `Mboot.ChainLoadSignature` | Booter/i386/boot2/mboot.c:103 | That test is the standard boot-sector signature: the little-endian word 0xAA55. |
| `Msdos.ClearLowestBitPow2` | Booter/i386/libsaio/msdos.c:119-124 | `x & (x - 1)` is zero exactly when `x` is a power of two. |
| `Msdos.Pow2Window` | Booter/i386/libsaio/msdos.c:119 | The only power of two between 2^k and 2^(k+1) is 2^k. |
| `Msdos.Probe` | Booter/i386/libsaio/msdos.c:103-139 | The probe answers 0, 12, 16 or 32. |
| `Msdos.SectorSizeOkIff` | Booter/i386/libsaio/msdos.c:117-120 | The sector-size test accepts exactly 512, 1024 and 2048. |
| `Msdos.ClusterFactorOkIff` | Booter/i386/libsaio/msdos.c:122-125 | The sectors-per-cluster test accepts exactly the powers of two that fit a byte. |
| `Msdos.ProbeIff` | Booter/i386/libsaio/msdos.c:103-139 | FAT32 means good sizes, no root entries and the FAT32 type string. FAT16 and FAT12 mean good sizes, root entries, the extended boot signature and their type string. Both directions hold. |
| `Msdos.RootDirSectors` | Booter/i386/libsaio/msdos.c:215-216 | The root directory's entries times 32 bytes, rounded up to whole sectors. |
| `Msdos.CeilDiv` | Booter/i386/libsaio/msdos.c:215-216 | Division rounded up. |
| `Msdos.DecodeBootSector` | Booter/i386/libsaio/msdos.c:143-228 | A geometry exists exactly when the probe accepts. It records the FAT width, sector size, cluster size, reserved sectors and FAT count. FAT32 adds the root cluster and the big FAT size; FAT12/16 add the FAT size and the root-directory sectors. |
| `Msdos.ClusterBytes` | Booter/i386/libsaio/msdos.c:222 | The cluster size is bytes per sector times sectors per cluster, at least 512. |
| `Msdos.FatVolume.constructor` | Booter/i386/libsaio/msdos.c:74 | No partition is current at first. |
| `Msdos.FatVolume.InitPartition` | Booter/i386/libsaio/msdos.c:143-228 | The current handle returns 0 and keeps the geometry. An accepted sector sets the geometry and handle. A rejected one returns -1 and keeps the handle, but has already overwritten the bytes-per-sector field. |
| `Msdos.FatVolume.ReadFile` | Booter/i386/libsaio/msdos.c:713-764 | -1 when the partition is rejected or the entry is missing or a directory; otherwise the status and bytes of `ReadExtent` over the volume's clusters. |
| `Msdos.FatVolume.LoadFile` | Booter/i386/libsaio/msdos.c:817-820 | The whole file read from offset 0. |
| `Msdos.FatVolume.GetFileBlock` | Booter/i386/libsaio/msdos.c:767-814 | -1 when the partition is rejected or the entry is missing or a directory; otherwise the status and block of the entry's first cluster, as the corrected `FileBlock` computes them. |
| `Msdos.FatVolume.GetUuid` | Booter/i386/libsaio/msdos.c:907-927 | -1 when the partition is rejected, else 0 and `VolumeUuid` of the boot sector. |
| `Msdos.FatVolume.GetDescription` | Booter/i386/libsaio/msdos.c:851-904 | No text when the partition is rejected, otherwise `Description`. |
| `Msdos.DescribeVolume` | Booter/i386/libsaio/msdos.c:865-901 | The label is chosen as `Description` says: the long label, the fixed short label, or the boot-sector label. |
| `Msdos.CopyLabel` | Booter/i386/libsaio/msdos.c:871-897 | `strncpy` of 11 bytes into the label buffer leaves its 12th byte alone. |
| `Msdos.FallbackText` | Booter/i386/libsaio/msdos.c:888-901 | The boot-block fallback produces the text of `FallbackLabel`. |
| `Msdos.NextCluster` | Booter/i386/libsaio/msdos.c:279-293 | FAT32 keeps the low 28 bits of the entry, FAT16 takes the 16-bit entry, and FAT12 gives a 12-bit value. |
| `Msdos.Fat12Entry` | Booter/i386/libsaio/msdos.c:287-290 | FAT12 entries sit at byte c + c/2 of the FAT; even clusters own the low 12 bits, odd ones the high 12. |
| `Msdos.ReadAt` | Booter/i386/libsaio/msdos.c:264-277 | `Seek` and `Read` return the volume bytes from the offset. |
| `Msdos.ReadCluster` | Booter/i386/libsaio/msdos.c:231-294 | A cluster is read, with its successor, exactly when it lies from 2 to below the reserved values. Otherwise the call returns 0 and the cluster is untouched. |
| `Msdos.EndOfChainStops` | Booter/i386/libsaio/msdos.c:237-255 | An end-of-chain entry makes the next read fail. |
| `Msdos.ClustersTile` | Booter/i386/libsaio/msdos.c:258-261 | Consecutive clusters follow one another in the data region, which starts after the reserved sectors, the FATs and the root directory. |
| `Msdos.DataOffset` | Booter/i386/libsaio/msdos.c:258-261 | The byte offset of a data cluster, after the reserved sectors, the FATs and the root directory; `ClustersTile` and `FileBlockHoldsData` state its layout. |
| `Msdos.ChecksumStep` | Booter/i386/libsaio/msdos.c:357-358 | The C step `(cs>>1)+(cs<<7)+b` truncated to 8 bits is rotate-right-and-add. |
| `Msdos.LabelChecksum` | Booter/i386/libsaio/msdos.c:356-360 | The loop computes `ShortNameChecksum` over the 11 name bytes. |
| `Msdos.LongNameChars` | Booter/i386/libsaio/msdos.c:348-350 | A long-name entry holds 13 characters. |
| `Msdos.TakeLongPart` | Booter/i386/libsaio/msdos.c:332-350 | A long-name part fills the cells from 13*(ordinal-1) on and changes nothing outside the name state. |
| `Msdos.CloseShortEntry` | Booter/i386/libsaio/msdos.c:351-369 | A short entry terminates the long name, or empties it unless a part was seen and the checksum matches. |
| `Msdos.MaxLengthNameStalls` | Booter/i386/libsaio/msdos.c:336-340 | As written, a part with count byte 0x54 (the first part of a 248 to 255-character name) leaves the state unchanged, so the loop reads the same slot for ever. |
| `Msdos.VisitAsWritten` | Booter/i386/libsaio/msdos.c:326-373 | One slot of the directory walk as written, where a skipped long-name part stays on the same slot; `MaxLengthNameStalls` exhibits the stall. |
| `Msdos.Visit` | Booter/i386/libsaio/msdos.c:326-373 | Intended: an empty slot ends the walk; every other slot moves on. A short entry is returned, keeping its long name only when a part was seen and the checksum matches. |
| `Msdos.NextEntry` | Booter/i386/libsaio/msdos.c:307-375 | The walk returns only short entries from the buffer it holds. |
| `Msdos.Load` | Booter/i386/libsaio/msdos.c:312-324 | At slot 0 the next block is loaded. |
| `Msdos.DirWalker.constructor` | Booter/i386/libsaio/msdos.c:377-393 | `initRoot`: a walk starts with nothing read. |
| `Msdos.DirWalker.TakePart` | Booter/i386/libsaio/msdos.c:332-350 | The long-name branch updates the state as `TakeLongPart` says. |
| `Msdos.DirWalker.CloseEntry` | Booter/i386/libsaio/msdos.c:351-369 | The short-entry branch updates the state as `CloseShortEntry` says. |
| `Msdos.DirWalker.VisitSlot` | Booter/i386/libsaio/msdos.c:326-373 | One round does what `Visit` says. |
| `Msdos.DirWalker.Next` | Booter/i386/libsaio/msdos.c:307-375 | `getnextdirent` does what `NextEntry` says. |
| `Msdos.TrimmedLen` | Booter/i386/libsaio/msdos.c:541-550 | The length without trailing spaces: the last byte kept is not a space and everything after it is. |
| `Msdos.LastNonSpace` | Booter/i386/libsaio/msdos.c:541-550 | The backward scans find the last non-space byte, -1 when all are blank. |
| `Msdos.MapName` | Booter/i386/libsaio/msdos.c:546-547 | Each name byte is mapped by `NameChar`. |
| `Msdos.ShortName` | Booter/i386/libsaio/msdos.c:540-560 | The lookup name is the trimmed base, then a dot and the trimmed extension when the extension is not blank, with every byte mapped. |
| `Msdos.MapBackward` | Booter/i386/libsaio/msdos.c:546-557 | The back-to-front fill produces `MapName`. |
| `Msdos.ShortNameOf` | Booter/i386/libsaio/msdos.c:540-559 | `checkname` builds `ShortName`. |
| `Msdos.AbcParts` | Booter/i386/libsaio/msdos.c:670-697 | The base "ABC" with extension byte 0x81 trims to 3 and 1 bytes. |
| `Msdos.AbcListing` | Booter/i386/libsaio/msdos.c:692 | As written, the listing keeps the raw byte 0x81. |
| `Msdos.AbcLookup` | Booter/i386/libsaio/msdos.c:557 | The lookup maps it to U+00FC. |
| `Msdos.ListingNameDiffers` | Booter/i386/libsaio/msdos.c:692 | As written, a listed name does not match the name the path lookup compares. |
| `Msdos.DirEntryNameAsWritten` | Booter/i386/libsaio/msdos.c:670-697 | The name the listing builds as written, which tests a base byte to map an extension byte; `AbcListing`, `ListingNameDiffers` and `AsciiNamesAgree` state where it differs from the lookup name. |
| `Msdos.AsciiNamesAgree` | Booter/i386/libsaio/msdos.c:670-697 | With ASCII names the listing and the lookup agree. |
| `Msdos.Lead` | Booter/i386/libsaio/msdos.c:830-832 | A leading 0x05 becomes 0xE5; no other byte changes. |
| `Msdos.FixedLabel` | Booter/i386/libsaio/msdos.c:830-840 | `fixLabel` applies the lead fix and turns the trailing spaces into NULs; the 12th byte is kept. |
| `Msdos.FixedLabelIdempotent` | Booter/i386/libsaio/msdos.c:830-840 | Fixing twice gives the same label. |
| `Msdos.LabelText` | Booter/i386/libsaio/msdos.c:841-846 | The text is the trimmed label with bytes above 127 taken as upper-case code page 850. |
| `Msdos.StripTrailingSpaces` | Booter/i386/libsaio/msdos.c:834-840 | The loop zeroes exactly the trailing spaces and returns the last byte kept. |
| `Msdos.UpperLabel` | Booter/i386/libsaio/msdos.c:841-844 | The encoding loop maps each kept byte by `Upper850`. |
| `Msdos.FixLabel` | Booter/i386/libsaio/msdos.c:824-847 | The buffer becomes `FixedLabel` and the text `LabelText`. |
| `Msdos.VolumeUuid` | Booter/i386/libsaio/msdos.c:916-924 | The 16 bytes are zero, except that bytes 12-15 hold the volume ID on FAT32 and FAT16. |
| `Msdos.StartCluster` | Booter/i386/libsaio/msdos.c:783-785 | The first cluster takes the low 16 bits, plus the high 16 bits on FAT32. |
| `Msdos.SplitHalves` | Booter/i386/libsaio/msdos.c:783-785 | The two 16-bit halves can be recovered. |
| `Msdos.FakeTimeAsWritten` | Booter/i386/libsaio/msdos.c:704 | As written, `+` binds before `<<`, so the stamp is the date shifted by 16 plus the time, kept to 32 bits. |
| `Msdos.FakeTimeCollides` | Booter/i386/libsaio/msdos.c:704 | As written, 1980-01-01 00:00:02 and 1980-02-02 00:00:00 get the same stamp. |
| `Msdos.FakeTime` | Booter/i386/libsaio/msdos.c:703-704 | Intended: the masked date in the high half and the time in the low half. |
| `Msdos.FakeTimeOrdered` | Booter/i386/libsaio/msdos.c:703-704 | The intended stamp orders entries by date, then time. |
| `Msdos.UntilNul` | Booter/i386/libsaio/msdos.c:665-666 | The long name up to its first 0. |
| `Msdos.Describe` | Booter/i386/libsaio/msdos.c:663-704 | Intended listing: the long name when there is one, else `ShortName`. It gives the directory flag and `FakeTime`'s stamp. |
| `Msdos.NextEntryProgress` | Booter/i386/libsaio/msdos.c:307-375 | A returned entry moves the walk forward. |
| `Msdos.NextListed` | Booter/i386/libsaio/msdos.c:656 | The skip loop returns only short entries that are not volume labels. |
| `Msdos.FileBlockAsWritten` | Booter/i386/libsaio/msdos.c:783-811 | As written, a block exists exactly for in-range clusters. Out of range gives -1 on FAT32 and 0 on FAT12/16. |
| `Msdos.FileBlockMissesRootDir` | Booter/i386/libsaio/msdos.c:810-811 | On FAT16 with a 32-sector root directory, the stored block is 21 where the data start at 53. |
| `Msdos.FileBlock` | Booter/i386/libsaio/msdos.c:783-811 | Intended: the same statuses, with the block counted after the root directory too. |
| `Msdos.FileBlockHoldsData` | Booter/i386/libsaio/msdos.c:810-811 | The intended block is where `msdosreadcluster` reads the cluster's data. |
| `Msdos.Want` | Booter/i386/libsaio/msdos.c:745-747 | The read aims at the rest of the file, or `length` when that is smaller and not 0. |
| `Msdos.VolumeReaderOk` | Booter/i386/libsaio/msdos.c:231-294 | Reading a cluster of the volume yields cluster-sized data. |
| `Msdos.ChainLength` | Booter/i386/libsaio/msdos.c:752-756 | The read loop never reads more than asked and falls short by exactly the count left. |
| `Msdos.ReadFromCounts` | Booter/i386/libsaio/msdos.c:745-763 | The status counts the bytes delivered and never exceeds what was wanted. |
| `Msdos.ReadExtentCounts` | Booter/i386/libsaio/msdos.c:735-763 | -1 exactly when the offset is at or past the file size; otherwise the count delivered, at most `Want`. |
| `Msdos.ChainClusters` | Booter/i386/libsaio/msdos.c:752-756 | `n` whole clusters of the chain. |
| `Msdos.SkipSplits` | Booter/i386/libsaio/msdos.c:741-743 | Skipping `s` clusters lands on the start of the rest of the chain. |
| `Msdos.ChainReadsPrefix` | Booter/i386/libsaio/msdos.c:752-756 | Over an intact chain the loop reads its first bytes. |
| `Msdos.ChainHead` | Booter/i386/libsaio/msdos.c:752-756 | A chain is its first cluster followed by the rest. |
| `Msdos.ReadsWithinCluster` | Booter/i386/libsaio/msdos.c:749 | A read inside one cluster copies those bytes. |
| `Msdos.ReadsAcrossClusters` | Booter/i386/libsaio/msdos.c:749-756 | A read across clusters copies the first cluster's tail, then the chain. |
| `Msdos.ReadsFromCluster` | Booter/i386/libsaio/msdos.c:749-756 | Over an intact chain the copy gets all it wanted. |
| `Msdos.OffsetSplits` | Booter/i386/libsaio/msdos.c:741-749 | The offset splits into a cluster index and an in-cluster position. |
| `Msdos.ReadExtentDeliversFile` | Booter/i386/libsaio/msdos.c:713-764 | Over an intact chain covering the request, the read delivers `Want` bytes of the file from the offset. |
| `Msdos.SkipLandsInChain` | Booter/i386/libsaio/msdos.c:741-744 | After skipping, the chain continues intact with the bytes from that cluster on. |
| `Msdos.ReadFromParts` | Booter/i386/libsaio/msdos.c:744-756 | The copy is the first cluster's part followed by what the loop reads. |
| `Msdos.SkipClusters` | Booter/i386/libsaio/msdos.c:741-743 | The skip loop advances `nskip` clusters. |
| `Msdos.ReadChain` | Booter/i386/libsaio/msdos.c:752-756 | The read loop computes `Chain`. |
| `Msdos.CopyFrom` | Booter/i386/libsaio/msdos.c:744-763 | The copy computes `ReadFrom`. |
| `Msdos.ReadExtentFile` | Booter/i386/libsaio/msdos.c:735-763 | `MSDOSReadFile` after the lookup computes `ReadExtent`. |
| `Msdos.ReadExtent` | Booter/i386/libsaio/msdos.c:735-763 | `MSDOSReadFile` once the entry is found: -1 when the offset is not inside the file, else a copy from the cluster holding it; `ReadExtentCounts` and `ReadExtentDeliversFile` state the count and the bytes delivered. |
| `Msdos.InitGeometry` | Booter/i386/libsaio/msdos.c:143-228 | An accepted partition leaves a valid geometry. |
| `Msdos.NonNulPrefix` | Booter/i386/libsaio/msdos.c:871 | The bytes before the first NUL. |
| `Msdos.StrNCopy` | Booter/i386/libsaio/msdos.c:871-897 | `strncpy` produces exactly `n` bytes. |
| `Msdos.BootLabel` | Booter/i386/libsaio/msdos.c:891-898 | The boot-sector label has 11 bytes. |
| `Msdos.FallbackLabel` | Booter/i386/libsaio/msdos.c:888-901 | The boot-sector label on FAT32 and FAT16; on FAT12 the buffer is unchanged. |
| `Msdos.UpperTableHasNoSpace` | Booter/i386/libsaio/msdos.c:844 | No upper-case code page 850 character is a space. |
| `Msdos.LabelTextTrimmed` | Booter/i386/libsaio/msdos.c:824-847 | A label text has at most 11 characters and no trailing space. |
| `Msdos.DescriptionTrimmed` | Booter/i386/libsaio/msdos.c:851-904 | Without a long label, the description is a trimmed label text. |
| `Msdos.LongLabel` | Booter/i386/libsaio/msdos.c:881 | The length scan takes the long label up to its first 0. |
| `Msdos.UntilNulIsPrefix` | Booter/i386/libsaio/msdos.c:665-666 | `UntilNul` is the prefix before the first 0. |
| `Graphics.Run` | Booter/i386/boot2/graphics.c:352 | `memset` writes `count` copies of `value`. |
| `Graphics.Expand` | Booter/i386/boot2/graphics.c:350-355 | The decoded image is as long as the blocks' counts add up to. |
| `Graphics.TotalPrefix` | Booter/i386/boot2/graphics.c:350-355 | The first blocks expand to no more than all of them. |
| `Graphics.ExpandBlock` | Booter/i386/boot2/graphics.c:350-355 | Block `j` fills `count` bytes with its value, starting where the blocks before it end. |
| `Graphics.DecodeRLE` | Booter/i386/boot2/graphics.c:338-358 | `decodeRLE` returns a fresh buffer of `outBytes` bytes whose first bytes are the expansion of the blocks in order. |
| `Graphics.Pack555Fields` | Booter/i386/boot2/graphics.c:725-727 | At 16 bits each component keeps its top five bits in its 5-bit field, and the top bit is clear. |
| `Graphics.BothHalvesFields` | Booter/i386/boot2/graphics.c:728 | The 16-bit colour is repeated in both halves. |
| `Graphics.Pixel32` | Booter/i386/boot2/graphics.c:732 | At 32 bits the components are the bytes 2, 1 and 0. |
| `Graphics.BothBytes` | Booter/i386/boot2/graphics.c:736-737 | The index is repeated in both bytes of a 16-bit half. |
| `Graphics.LookUpCLUT16` | Booter/i386/boot2/graphics.c:719-729 | At depth 16 the result is the 5:5:5 colour of the CLUT entry in both halves. |
| `Graphics.LookUpCLUT32` | Booter/i386/boot2/graphics.c:719-733 | At depth 32 the result is the 8:8:8 colour of the CLUT entry with a zero top byte. |
| `Graphics.LookUpCLUTOther` | Booter/i386/boot2/graphics.c:735-738 | At any other depth the result is the index in all four bytes. |
| `Graphics.LookUpCLUTIndex` | Booter/i386/boot2/graphics.c:714-741 | `lookUpCLUTIndex` at each depth; `LookUpCLUT16`, `LookUpCLUT32` and `LookUpCLUTOther` state the fields of each form. |
| `Graphics.PaletteEntry` | Booter/i386/boot2/graphics.c:328-331 | A palette entry holds the entry's three components shifted right by 2, in bytes 2, 1 and 0. |
| `Graphics.SetupPalette` | Booter/i386/boot2/graphics.c:321-333 | `setupPalette` sets all 256 entries to `PaletteEntry`. |
| `Graphics.SupportedFormat` | Booter/i386/boot2/graphics.c:245-275 | Only 4, 8, 15/16 and 32-bit modes in the right memory model pass. A 15-bit 5:5:5 mode is reported as 16, and nothing else changes. |
| `Graphics.Candidate` | Booter/i386/boot2/graphics.c:219-283 | A mode passes when its information is available, its attribute bits are right, its format is supported and it fits the requested size. |
| `Graphics.Consider` | Booter/i386/boot2/graphics.c:285-312 | An exact match ends the search. Otherwise the kept mode is replaced only by one at least as wide, tall and deep that is not the same resolution at the same or lower depth. |
| `Graphics.ListLength` | Booter/i386/boot2/graphics.c:216-217 | The list runs up to its terminator. |
| `Graphics.SearchEmpty` | Booter/i386/boot2/graphics.c:193-315 | The result stays modeEndOfList exactly when no entry passed the filters. |
| `Graphics.SearchKeepsListed` | Booter/i386/boot2/graphics.c:216-315 | A kept mode is a listed entry that passed the filters, kept with its filtered information. |
| `Graphics.SearchStopsAtExact` | Booter/i386/boot2/graphics.c:287-294 | The search stops exactly when an entry matches exactly, and then holds the first such entry. |
| `Graphics.StoppedSearchStays` | Booter/i386/boot2/graphics.c:293 | After the `break` nothing more changes. |
| `Graphics.KeptModeGrows` | Booter/i386/boot2/graphics.c:296-312 | Until an exact match, the kept mode only grows in width, height and depth. |
| `Graphics.GetVESAModeWithProperties` | Booter/i386/boot2/graphics.c:181-316 | The loop returns the mode, information and version `SelectMode` describes. Without controller information it returns modeEndOfList and zeroed information. |
| `Graphics.SelectMode` | Booter/i386/boot2/graphics.c:180-316 | The mode, mode information and VBE version `getVESAModeWithProperties` returns; `GetVESAModeWithProperties` computes it and states its cases. |
| `Graphics.SkipNonDigits` | Booter/i386/boot2/graphics.c:1052-1053 | The skip loop moves forward and stays inside the text. |
| `Graphics.SkipNonDigitsFacts` | Booter/i386/boot2/graphics.c:1052-1053 | It stops at a digit or the terminator, passing only non-digits. |
| `Graphics.Strtoul10ReadsForward` | Booter/i386/boot2/graphics.c:1046 | `strtoul` never moves backwards. |
| `Graphics.Strtoul10At` | Booter/i386/boot2/graphics.c:1046-1047 | `strtoul` stays put or moves forward within the text, and moves at a digit. |
| `Graphics.NumbersFrom` | Booter/i386/boot2/graphics.c:1044-1054 | At most `maxCount` numbers are stored. |
| `Graphics.NumberArray` | Booter/i386/boot2/graphics.c:1031-1060 | No numbers without the key, and never more than `maxCount`. |
| `Graphics.ReadNumbers` | Booter/i386/boot2/graphics.c:1044-1054 | The loop stores `NumbersFrom`. |
| `Graphics.GetNumberArrayFromProperty` | Booter/i386/boot2/graphics.c:1031-1060 | `getNumberArrayFromProperty` stores `NumberArray` of the setting. |
| `Graphics.Saturated` | Booter/i386/boot2/graphics.c:1046 | `strtoul` clamps at ULONG_MAX. |
| `Graphics.SkipKeepsRuns` | Booter/i386/boot2/graphics.c:1052-1053 | Skipping non-digits leaves the runs of digits unchanged. |
| `Graphics.DecimalRun` | Booter/i386/boot2/graphics.c:1046 | In base 10, `strtoul` reads exactly the run of decimal digits. |
| `Graphics.Strtoul10ReadsRuns` | Booter/i386/boot2/graphics.c:1046 | `strtoul` in base 10 reads the runs of digits. |
| `Graphics.ReadFirstRun` | Booter/i386/boot2/graphics.c:1046-1050 | Without a minus sign, a successful read gives the first run of digits. |
| `Graphics.DecimalParse` | Booter/i386/boot2/graphics.c:1046 | After white space and a plus sign, `strtoul` reads the digits and saturates at ULONG_MAX. |
| `Graphics.DigitRunsAtDigit` | Booter/i386/boot2/graphics.c:1046-1053 | From a digit, the runs are this run's value followed by the runs after it. |
| `Graphics.NumbersAreDigitRuns` | Booter/i386/boot2/graphics.c:1044-1054 | Without a leading minus sign, the numbers read are the values of the first `maxCount` maximal runs of digits. |
| `Graphics.NumberCase` | Booter/i386/boot2/graphics.c:1046-1050 | This is the inductive step when a number is read. |
| `Graphics.NumberStep` | Booter/i386/boot2/graphics.c:1046-1053 | A number is read as the first run, and reading resumes at the next digit. |
| `Graphics.BlankStep` | Booter/i386/boot2/graphics.c:1052-1053 | Nothing is read; reading resumes at the next digit. |
| `Graphics.NumberArrayIsDigitRuns` | Booter/i386/boot2/graphics.c:1031-1060 | The numbers of a setting without a leading minus are its first `maxCount` runs of digits. |
| `Graphics.WhiteThenDigits` | Booter/i386/boot2/graphics.c:1046 | Before its first digit, `strtoul` reads only white space and a sign. |
| `Graphics.WhiteSpan` | Booter/i386/boot2/graphics.c:1046 | The leading skip passes only white space. |
| `Graphics.PixelDepth` | Booter/i386/boot2/graphics.c:1087-1089 | 256, 555 and 888 become 8, 16 and 32; any other depth is kept. |
| `Graphics.InitGraphicsMode` | Booter/i386/boot2/graphics.c:1062-1092 | With fewer than three numbers, the screen size (1024x768 when unset) at 32 bpp and refresh 0. Otherwise the first numbers as width, height, depth and refresh, each cut to its C width. |
| `Graphics.GraphicsModeFromRuns` | Booter/i386/boot2/graphics.c:1062-1092 | A setting with at least three runs of digits asks for the mode those runs name. |
| `Graphics.NoSettingUsesScreen` | Booter/i386/boot2/graphics.c:1071-1083 | Without the setting, the default screen is asked for at 32 bpp. |
| `DeviceInject.HexDigitsOf` | Booter/i386/libsaio/device_inject.c:62-65 | The filter keeps only the hex digits, in order. |
| `DeviceInject.CombineIsPairByte` | Booter/i386/libsaio/device_inject.c:70-81 | On two hex digits, the C nibble arithmetic gives the pair's value, high nibble first. |
| `DeviceInject.HexDigitsStep` | Booter/i386/libsaio/device_inject.c:58-67 | One more character adds itself to the digits exactly when it is a hex digit. |
| `DeviceInject.PackStep` | Booter/i386/libsaio/device_inject.c:67-85 | One more digit either waits for its partner or completes a byte. |
| `DeviceInject.ConvertSkip` | Booter/i386/libsaio/device_inject.c:62-65 | A character that is not a hex digit changes nothing. |
| `DeviceInject.ConvertFirst` | Booter/i386/libsaio/device_inject.c:67 | A first digit is held. |
| `DeviceInject.ConvertSecond` | Booter/i386/libsaio/device_inject.c:70-85 | A second digit writes the pair's byte. |
| `DeviceInject.ConvertDone` | Booter/i386/libsaio/device_inject.c:88-89 | At the end the bytes written are the packed pairs; an unpaired digit is dropped. |
| `DeviceInject.ConvertHexStr2Binary` | Booter/i386/libsaio/device_inject.c:42-96 | Text of at most one character gives NULL and count 0. Otherwise the buffer holds half the length, and its first `outLength` bytes are the packed hex pairs. |
| `DeviceInject.HexToBinary` | Booter/i386/libsaio/device_inject.c:42-96 | What `convertHexStr2Binary` gives: no buffer for text of length 0 or 1, else the hex digits packed in pairs; `ConvertHexStr2Binary` computes it, and `HexTextRoundTrip` and `ConversionIgnoresNonHex` state its meaning. |
| `DeviceInject.PackPairsLength` | Booter/i386/libsaio/device_inject.c:67-85 | Each pair of digits gives one byte. |
| `DeviceInject.PackPairsAt` | Booter/i386/libsaio/device_inject.c:67-85 | Byte k comes from digits 2k (high nibble) and 2k+1 (low nibble). |
| `DeviceInject.HexDigitsIgnore` | Booter/i386/libsaio/device_inject.c:62-65 | A non-hex character can be inserted anywhere without effect on the digits. |
| `DeviceInject.ConversionIgnoresNonHex` | Booter/i386/libsaio/device_inject.c:42-96 | The conversion ignores inserted non-hex characters. |
| `DeviceInject.AllHexKept` | Booter/i386/libsaio/device_inject.c:62-65 | Text made only of hex digits passes the filter unchanged. |
| `DeviceInject.LowerHexDigit` | Booter/i386/libsaio/device_inject.c:344 | The `%x` digit of a nibble reads back as that nibble. |
| `DeviceInject.HexPair` | Booter/i386/libsaio/device_inject.c:344 | A byte printed with `%02x` is two hex digits that pack back to it. |
| `DeviceInject.HexText` | Booter/i386/libsaio/device_inject.c:341-346 | Bytes printed with `%02x` give two hex digits each. |
| `DeviceInject.HexTextRoundTrip` | Booter/i386/libsaio/device_inject.c:42-96 | Converting the hex text of some bytes gives the bytes back. |
| `DeviceInject.PackHexText` | Booter/i386/libsaio/device_inject.c:67-85 | Packing printed bytes gives the bytes. |
| `DeviceInject.NumberLen` | Booter/i386/libsaio/device_inject.c:165-188 | A number is one or two characters before its stop character; 0 means the parse error. |
| `DeviceInject.NodesOf` | Booter/i386/libsaio/device_inject.c:163-196 | One node per component read. |
| `DeviceInject.SkipNonPci` | Booter/i386/libsaio/device_inject.c:163-164 | Positions that do not start "Pci(0x" are passed over. |
| `DeviceInject.NoPciNoDevice` | Booter/i386/libsaio/device_inject.c:199-200 | A path without a "Pci(0x" component gives NULL. |
| `DeviceInject.LongDeviceNumberRejected` | Booter/i386/libsaio/device_inject.c:168-177 | A device number longer than two characters gives NULL. |
| `DeviceInject.LongFunctionNumberRejected` | Booter/i386/libsaio/device_inject.c:183-192 | A function number longer than two characters gives NULL. |
| `DeviceInject.HexNumber` | Booter/i386/libsaio/device_inject.c:168-171 | A number written with `%x` is one or two hex digits. |
| `DeviceInject.HexNumberValue` | Booter/i386/libsaio/device_inject.c:178-193 | `strtoul(.., 16)` reads a `%x` number back. |
| `DeviceInject.HexNumberDigits` | Booter/i386/libsaio/device_inject.c:178-193 | The digits of a `%x` number have its value. |
| `DeviceInject.ReadHexText` | Booter/i386/libsaio/device_inject.c:168-178 | One or two hex digits in `buff` are read as their value. |
| `DeviceInject.PciTextLayout` | Booter/i386/libsaio/device_inject.c:163-182 | In one "/Pci(0xD,0xF)" component, the numbers sit where the scan looks for them. |
| `DeviceInject.ReadComponent` | Booter/i386/libsaio/device_inject.c:163-196 | A well-formed component is read as its two number texts, and the scan moves past it. |
| `DeviceInject.ComponentChars` | Booter/i386/libsaio/device_inject.c:163-182 | The fixed characters of a component frame its two numbers. |
| `DeviceInject.SkipOne` | Booter/i386/libsaio/device_inject.c:163-164 | A character that does not start "Pci(0x" is passed over. |
| `DeviceInject.ComponentAt` | Booter/i386/libsaio/device_inject.c:159-192 | A component at a position is read as its two numbers. |
| `DeviceInject.CompStep` | Booter/i386/libsaio/device_inject.c:159-192 | Reading one component yields its numbers and moves past it. |
| `DeviceInject.RootSkipped` | Booter/i386/libsaio/device_inject.c:151-154 | The "PciRoot(0x0)" prefix passes the check and holds no component. |
| `DeviceInject.NumbersOfAll` | Booter/i386/libsaio/device_inject.c:163-196 | One pair of number texts per node. |
| `DeviceInject.ScanPciTexts` | Booter/i386/libsaio/device_inject.c:163-196 | The text of several components is read as all their numbers. |
| `DeviceInject.NodeOfNumbers` | Booter/i386/libsaio/device_inject.c:163-196 | Reading back a node's number texts gives the node. |
| `DeviceInject.NodesOfNumbers` | Booter/i386/libsaio/device_inject.c:163-196 | Reading back the texts of several nodes gives the nodes. |
| `DeviceInject.DevicePathRoundTrip` | Booter/i386/libsaio/device_inject.c:140-200 | The device-path text of some PCI nodes parses back to those nodes. |
| `DeviceInject.FivePciNodesAccepted` | Booter/i386/libsaio/device_inject.c:163-196 | Nothing bounds the number of components: five are accepted, although `pci_dev_path` holds four. |
| `DeviceInject.Utf16` | Booter/i386/libsaio/device_inject.c:257-261 | The name is stored one character every other byte. |
| `DeviceInject.Utf16At` | Booter/i386/libsaio/device_inject.c:257-261 | Character k goes to byte 2k, and byte 2k+1 stays zero. |
| `DeviceInject.Record` | Booter/i386/libsaio/device_inject.c:245 | A record is 2·strlen(name) + len + 10 bytes. |
| `DeviceInject.NameSize` | Booter/i386/libsaio/device_inject.c:253-254 | Only the low 16 bits of the name-field size are stored, in bytes 0 and 1. |
| `DeviceInject.RecordLayout` | Booter/i386/libsaio/device_inject.c:245-271 | Byte by byte: the name-field size, the UTF-16 name, a 2-byte NUL, the value size len+4 as a little-endian word, then the value. |
| `DeviceInject.RecordNameSize` | Booter/i386/libsaio/device_inject.c:253-254 | The record starts with 2·strlen(name)+6. |
| `DeviceInject.RecordValueSize` | Booter/i386/libsaio/device_inject.c:263-266 | The value size len+4 follows the name field. |
| `DeviceInject.RecordFields` | Booter/i386/libsaio/device_inject.c:251-271 | The record holds the UTF-16 name with its NUL, and then the value. |
| `DeviceInject.RecordRoundTrip` | Booter/i386/libsaio/device_inject.c:245-271 | A record parses back into its name and value whenever the name size fits 16 bits. |
| `DeviceInject.StoreName` | Booter/i386/libsaio/device_inject.c:252-261 | The name loop writes the record up to the end of the name. |
| `DeviceInject.StoreValue` | Booter/i386/libsaio/device_inject.c:267-271 | The value loop completes the record. |
| `DeviceInject.StoreValueSize` | Booter/i386/libsaio/device_inject.c:263-266 | The NUL and the value-size word follow the name. |
| `DeviceInject.BuildRecord` | Booter/i386/libsaio/device_inject.c:245-272 | The zeroed buffer ends up holding exactly `Record`. |
| `DeviceInject.AddRecordAppends` | Booter/i386/libsaio/device_inject.c:274-287 | On a well-formed device the old data stays a prefix and the record is appended. The length grows by the record size and the device stays well formed. |
| `DeviceInject.TotalLengthReplace` | Booter/i386/libsaio/device_inject.c:285-286 | Replacing a device changes the total by the change in its length. |
| `DeviceInject.ParseByScan` | Booter/i386/libsaio/device_inject.c:146-200 | A path is accepted exactly when it starts with "PciRoot(0x" and the scan finds components. |
| `DeviceInject.ParsePciPath` | Booter/i386/libsaio/device_inject.c:140-200 | The PCI nodes `devprop_add_device` reads from a path, or none where it returns NULL; `ParseByScan` ties it to the scan, `DevicePathRoundTrip` reads nodes back from their text, and `NoPciNoDevice`, `LongDeviceNumberRejected` and `LongFunctionNumberRejected` state the rejections. |
| `DeviceInject.BadDeviceNumber` | Booter/i386/libsaio/device_inject.c:168-177 | A bad device number ends the scan with nothing. |
| `DeviceInject.BadFunctionNumber` | Booter/i386/libsaio/device_inject.c:183-192 | A bad function number ends the scan with nothing. |
| `DeviceInject.ScanPath` | Booter/i386/libsaio/device_inject.c:163-197 | The scan loop yields `ScanResult`. |
| `DeviceInject.ReadPciComponent` | Booter/i386/libsaio/device_inject.c:163-196 | One loop body reads a component, or reports the parse error. |
| `DeviceInject.DevPropString.constructor` | Booter/i386/libsaio/device_inject.c:127-138 | A new string has length 12, WHAT2 0x01000000 and no entries. |
| `DeviceInject.DevPropString.AddDevice` | Booter/i386/libsaio/device_inject.c:140-237 | A rejected path gives NULL and changes nothing. Otherwise one device with the parsed nodes is appended, and the string grows by 24 + 6 per node. |
| `DeviceInject.DevPropString.AddValue` | Booter/i386/libsaio/device_inject.c:239-298 | A NULL name, NULL value or zero length gives 0 and changes nothing. Otherwise the record is appended to the device, and both lengths grow by its size. |
| `DeviceInject.BuiltInIsCString` | Booter/i386/libsaio/device_inject.c:388 | "built-in" holds no NUL. |
| `DeviceInject.BuiltinFlags` | Booter/i386/libsaio/device_inject.c:378-392 | One built-in byte per network device, in turn. |
| `DeviceInject.BuiltinFlagAt` | Booter/i386/libsaio/device_inject.c:382-387 | A device is marked built-in exactly when the latch is clear, it is not Atheros and every earlier device was Atheros. |
| `DeviceInject.CStrWhole` | Booter/i386/libsaio/device_inject.c:245 | A string without NUL is all of its characters. |
| `DeviceInject.AtMostOneBuiltin` | Booter/i386/libsaio/device_inject.c:383-387 | At most one network device is marked built-in. |
| `DeviceInject.InjectGlobals.constructor` | Booter/i386/libsaio/device_inject.c:26-27 | The device count starts at 1 and the latch is clear. |
| `DeviceInject.InjectGlobals.AddNetworkTemplate` | Booter/i386/libsaio/device_inject.c:378-392 | NULL gives 0. Otherwise the one-byte "built-in" property is appended: 1 for the first non-Atheros device, 0 otherwise. The latch is updated and the device counted. |
| `Nvidia.Swap16` | Booter/i386/libsaio/nvidia.c:325-328 | The two bytes of a 16-bit value are exchanged. |
| `Nvidia.Swap16Involutive` | Booter/i386/libsaio/nvidia.c:325-328 | Swapping twice gives the value back. |
| `Nvidia.Read16` | Booter/i386/libsaio/nvidia.c:330-336 | `read16` is the big-endian 16-bit field at the offset. |
| `Nvidia.DcbPointerIsLE16` | Booter/i386/libsaio/nvidia.c:367 | `swap16(read16(rom, 0x36))` is the little-endian word at 0x36. |
| `Nvidia.ParseDcb` | Booter/i386/libsaio/nvidia.c:360-407 | The header checks accept at most 16 records, all lying inside the ROM. |
| `Nvidia.DcbAcceptance` | Booter/i386/libsaio/nvidia.c:360-407 | The check fails on a rejected signature, a zero DCB pointer or a version below 0x14. Otherwise it requires the 0x4edcbdcb signature from version 2.0 on, or "DEV_REC" seven bytes before the table. Only version 3.0 and later has records, capped at 16. |
| `Nvidia.HalfSignatureAccepted` | Booter/i386/libsaio/nvidia.c:362 | As written, one correct signature byte is enough. |
| `Nvidia.ParseDcbIntended` | Booter/i386/libsaio/nvidia.c:360-407 | With the intended test, a ROM lacking either byte is refused, and a signed ROM is parsed exactly as before. |
| `Nvidia.SignatureTestsDiffer` | Booter/i386/libsaio/nvidia.c:362 | The two tests differ exactly on half-signed ROMs. |
| `Nvidia.OutputsUpTo` | Booter/i386/libsaio/nvidia.c:419-434 | The collected outputs skip end-of-records, zero and type-6 records, so every kind is below 16 and not 6. |
| `Nvidia.Kinds` | Booter/i386/libsaio/nvidia.c:430 | The type of each output, in order. |
| `Nvidia.OutputsIncreasing` | Booter/i386/libsaio/nvidia.c:419-434 | The heads bytes lie at strictly increasing offsets, so patching one never touches another. |
| `Nvidia.TmdsFrom` | Booter/i386/libsaio/nvidia.c:460-466 | The first ungrouped TMDS output from an index on. |
| `Nvidia.GroupAround` | Booter/i386/libsaio/nvidia.c:466-497 | A TMDS output is grouped with the analog output just before it and a TV output just after it, and nothing else. |
| `Nvidia.Pass` | Booter/i386/libsaio/nvidia.c:460-500 | One pass groups only ungrouped outputs and marks exactly them. |
| `Nvidia.ChannelsPartition` | Booter/i386/libsaio/nvidia.c:436-515 | Every output ends up on exactly one of the two channels. |
| `Nvidia.LvdsChannels` | Booter/i386/libsaio/nvidia.c:436-454 | With LVDS, channel 1 holds exactly the LVDS outputs and channel 2 the rest. |
| `Nvidia.TmdsChannels` | Booter/i386/libsaio/nvidia.c:455-504 | Without LVDS, the first TMDS output past index 0 and its neighbours go to channel 1, and the next TMDS output to channel 2. |
| `Nvidia.TmdsFromSkips` | Booter/i386/libsaio/nvidia.c:460-466 | After one group, the next pass finds the next TMDS output. |
| `Nvidia.MaskFrom` | Booter/i386/libsaio/nvidia.c:439-515 | The bits of a channel byte from `k` up. |
| `Nvidia.MaskFromBit` | Booter/i386/libsaio/nvidia.c:439-515 | A bit is set exactly for the outputs on the channel. |
| `Nvidia.MaskBit` | Booter/i386/libsaio/nvidia.c:439-515 | Bit i of a channel byte is set exactly when i < 8 and output i is on that channel. |
| `Nvidia.ChannelBytes` | Booter/i386/libsaio/nvidia.c:517-524 | The two channel bytes, smaller first. |
| `Nvidia.EachOutputOneChannel` | Booter/i386/libsaio/nvidia.c:436-524 | With at most 8 outputs, each output's bit is set in exactly one channel byte. |
| `Nvidia.HighOutputsUnassigned` | Booter/i386/libsaio/nvidia.c:439-524 | Outputs from index 8 on fit in no 8-bit channel byte. |
| `Nvidia.HeadsPatched` | Booter/i386/libsaio/nvidia.c:526-532 | Patching heads keeps the ROM size. |
| `Nvidia.HeadsPatchedAt` | Booter/i386/libsaio/nvidia.c:526-532 | Each output's heads byte becomes 1 or 2 for its channel, or stays when the output is on neither; every other byte is unchanged. |
| `Nvidia.PatchOutcome` | Booter/i386/libsaio/nvidia.c:360-407 | The patch fails exactly when the header checks fail, and then changes nothing. |
| `Nvidia.PatchWithFacts` | Booter/i386/libsaio/nvidia.c:409-534 | With a DCB found, LVDS is reported exactly when an LVDS output was collected. Only NVCAP bytes 6 and 8 change, smaller first. |
| `Nvidia.NoRecordsClearChannels` | Booter/i386/libsaio/nvidia.c:409-534 | A table with no records clears both channel bytes and leaves the ROM as it is. |
| `Nvidia.CollectOutputs` | Booter/i386/libsaio/nvidia.c:419-434 | The record loop collects `Outputs`. |
| `Nvidia.GroupTmds` | Booter/i386/libsaio/nvidia.c:466-497 | One case of the `switch` does what `GroupAround` says. |
| `Nvidia.RunPass` | Booter/i386/libsaio/nvidia.c:460-500 | The inner loop does one `Pass`. |
| `Nvidia.GroupRest` | Booter/i386/libsaio/nvidia.c:448-515 | Every ungrouped output is added to channel 2, and all end grouped. |
| `Nvidia.GroupOutputs` | Booter/i386/libsaio/nvidia.c:436-515 | The grouping loops compute `Channels`, and report whether there is LVDS. |
| `Nvidia.PatchHeads` | Booter/i386/libsaio/nvidia.c:526-532 | The heads loop produces `HeadsPatched`. |
| `Nvidia.StoreChannels` | Booter/i386/libsaio/nvidia.c:517-524 | The channel bytes are ordered and stored as NVCAP bytes 6 and 8. |
| `Nvidia.PatchNvidiaRom` | Booter/i386/libsaio/nvidia.c:360-534 | `patch_nvidia_rom` changes the ROM and NVCAP and returns the status, as `PatchSpec` says. |
| `Nvidia.PatchTable` | Booter/i386/libsaio/nvidia.c:409-534 | The loops after the header checks do what `PatchWith` says. |
| `Nvidia.MatchFrom` | Booter/i386/libsaio/nvidia.c:540-544 | The first matching row from `i` on, or 0. |
| `Nvidia.ModelLookup` | Booter/i386/libsaio/nvidia.c:537-546 | The first match past row 0, and row 0 ("Unknown") exactly when none matches. |
| `Nvidia.GetNvidiaModel` | Booter/i386/libsaio/nvidia.c:537-546 | The loop returns that row's name. |
| `DsdtPatcher.FirstAlignedMeaning` | Booter/i386/libsaio/dsdt_patcher.c:27-75 | The 16-byte search returns the first satisfying address within its range and returns none only when no aligned address satisfies. |
| `DsdtPatcher.FirstRsdpMeaning` | Booter/i386/libsaio/dsdt_patcher.c:27-75 | The first RSDP of the wanted kind in 16-byte steps up to 0xFFFFF (signature, checksum of the first 20 bytes, Revision 0 or above 0, and for ACPI 2.0 the extended checksum), with none earlier, and none found only when none exists. |
| `DsdtPatcher.RsdpTest` | Booter/i386/libsaio/dsdt_patcher.c:33-41 | The test one address of the RSDP search applies: the "RSD PTR " signature, a zero checksum of the first 20 bytes, and Revision 0 for ACPI 1.0 or above 0 with a zero extended checksum for ACPI 2.0. `FirstRsdpMeaning` states the search over it. |
| `DsdtPatcher.FindRsdp` | Booter/i386/libsaio/dsdt_patcher.c:27-75 | The loops of `getAddressOfAcpiTable` and `getAddressOfAcpi20Table` return that first RSDP. |
| `DsdtPatcher.RsdpVersionsDisjoint` | Booter/i386/libsaio/dsdt_patcher.c:40-65 | The two searches never return the same structure. |
| `DsdtPatcher.Store` | Booter/i386/libsaio/dsdt_patcher.c:219-241 | A field store into a copied block changes exactly the bytes stored. |
| `DsdtPatcher.SetChecksum` | Booter/i386/libsaio/dsdt_patcher.c:239-241 | Clearing the checksum byte, then storing 256 minus the sum, makes the covered bytes sum to 0 and leaves every other byte alone. |
| `DsdtPatcher.SetResetSupported` | Booter/i386/libsaio/dsdt_patcher.c:220 | `Flags \|= 0x400` sets bit 10 and keeps a byte that has it. |
| `DsdtPatcher.FadtCopy` | Booter/i386/libsaio/dsdt_patcher.c:210-217 | The copy is the FADT's Length bytes, grown to 0x81 with Length 0x81 when the restart fix needs room. |
| `DsdtPatcher.RestartFix` | Booter/i386/libsaio/dsdt_patcher.c:219-228 | The restart fix sets the flag and writes the reset register (I/O port 0xCF9, value 6), and nothing else. |
| `DsdtPatcher.PointAtDsdt` | Booter/i386/libsaio/dsdt_patcher.c:231-235 | DSDT points at the new DSDT, and so does X_DSDT when its 8 bytes lie within Length; nothing else changes. |
| `DsdtPatcher.PatchFadt` | Booter/i386/libsaio/dsdt_patcher.c:219-241 | The FADT edits keep the block size. |
| `DsdtPatcher.PatchFadtSum` | Booter/i386/libsaio/dsdt_patcher.c:219-241 | The patched FADT sums to 0, and only the edited fields differ from the copy. |
| `DsdtPatcher.FadtEdits` | Booter/i386/libsaio/dsdt_patcher.c:219-241 | The checksum is recomputed last, over the edited copy. |
| `DsdtPatcher.PatchFadtRepointed` | Booter/i386/libsaio/dsdt_patcher.c:219-235 | Away from the checksum and PM_Profile, the patched FADT is the repointed copy. |
| `DsdtPatcher.PatchFadtPointers` | Booter/i386/libsaio/dsdt_patcher.c:233 | DSDT reads back as the new DSDT's address. |
| `DsdtPatcher.PatchFadtXPointer` | Booter/i386/libsaio/dsdt_patcher.c:234-235 | X_DSDT reads back as the new DSDT's address when the FADT is long enough. |
| `DsdtPatcher.PatchFadtProfile` | Booter/i386/libsaio/dsdt_patcher.c:349-352 | In the XSDT pass, PM_Profile becomes the platform type. |
| `DsdtPatcher.PatchFadtRestart` | Booter/i386/libsaio/dsdt_patcher.c:219-228 | With the fix on, the flag and the reset register are set in the patched FADT. |
| `DsdtPatcher.Allocate` | Booter/i386/libsaio/dsdt_patcher.c:160-161 | `AllocateKernelMemory` plus `memcpy`: a new block at the cursor, and the cursor moves past it. |
| `DsdtPatcher.Put` | Booter/i386/libsaio/dsdt_patcher.c:253-254 | Rewriting a block changes only that block. |
| `DsdtPatcher.EntryStep` | Booter/i386/libsaio/dsdt_patcher.c:177-246 | One round drops at most one entry. |
| `DsdtPatcher.Walked` | Booter/i386/libsaio/dsdt_patcher.c:177-246 | The walk keeps the slot count, and drops no more entries than rounds run. |
| `DsdtPatcher.WalkRealisesRewrite` | Booter/i386/libsaio/dsdt_patcher.c:177-246 | With null entries copied down, the in-place walk realises the reference list rewrite, and kernel memory agrees. |
| `DsdtPatcher.StepRealisesFate` | Booter/i386/libsaio/dsdt_patcher.c:180-245 | One round appends to the live prefix exactly what the reference step appends. |
| `DsdtPatcher.NullAfterDropAsWritten` | Booter/i386/libsaio/dsdt_patcher.c:179-189 | As written, [SSDT, table, null] with SSDTs dropped leaves [table, table] in the shortened table, where [table, null] is intended. |
| `DsdtPatcher.EntryCount` | Booter/i386/libsaio/dsdt_patcher.c:175 | `(Length - 36) / entry size` entries, all inside the table. |
| `DsdtPatcher.DecodeEntry` | Booter/i386/libsaio/dsdt_patcher.c:176 | An entry's value fits its width. |
| `DsdtPatcher.EncodeEntry` | Booter/i386/libsaio/dsdt_patcher.c:185 | An entry written reads back as its value. |
| `DsdtPatcher.EntryAt` | Booter/i386/libsaio/dsdt_patcher.c:179 | `rsdt_entries[k]` fits its width. |
| `DsdtPatcher.Entries` | Booter/i386/libsaio/dsdt_patcher.c:175-179 | The entry array, element by element. |
| `DsdtPatcher.Encode` | Booter/i386/libsaio/dsdt_patcher.c:185-245 | Writing the entry array keeps the header. |
| `DsdtPatcher.EncodeSlice` | Booter/i386/libsaio/dsdt_patcher.c:185-245 | Entry `k` of the written array is slot `k`'s encoding. |
| `DsdtPatcher.EncodeEntryAt` | Booter/i386/libsaio/dsdt_patcher.c:185-245 | Entry `k` reads back as slot `k`. |
| `DsdtPatcher.EncodeReadsBack` | Booter/i386/libsaio/dsdt_patcher.c:185-245 | The first `m` entries read back as the first `m` slots. |
| `DsdtPatcher.Rewritten` | Booter/i386/libsaio/dsdt_patcher.c:185-245 | The rewritten copy keeps its size. |
| `DsdtPatcher.ShortLength` | Booter/i386/libsaio/dsdt_patcher.c:249 | `Length -= 4*dropoffset` (8 for the XSDT) never goes below the header. |
| `DsdtPatcher.PatchedSdt` | Booter/i386/libsaio/dsdt_patcher.c:248-254 | The finished table keeps its block size. |
| `DsdtPatcher.SdtWalk` | Booter/i386/libsaio/dsdt_patcher.c:172-246 | The walk covers every entry of the copy. |
| `DsdtPatcher.SdtCopy` | Booter/i386/libsaio/dsdt_patcher.c:172-173 | The copy is the table's Length bytes. |
| `DsdtPatcher.SdtBlock` | Booter/i386/libsaio/dsdt_patcher.c:172-255 | The block keeps the copy's size. |
| `DsdtPatcher.EntryCountAfterDrop` | Booter/i386/libsaio/dsdt_patcher.c:249 | The shortened table holds exactly `dropoffset` fewer entries. |
| `DsdtPatcher.PatchedSdtLength` | Booter/i386/libsaio/dsdt_patcher.c:249 | Length reads back as the shortened length. |
| `DsdtPatcher.PatchedSdtSum` | Booter/i386/libsaio/dsdt_patcher.c:253-254 | The table sums to 0 over its new Length. |
| `DsdtPatcher.PatchedSdtBeyondHeader` | Booter/i386/libsaio/dsdt_patcher.c:248-254 | Past the header, the finished table is the rewritten copy. |
| `DsdtPatcher.PatchedSdtEntries` | Booter/i386/libsaio/dsdt_patcher.c:248-254 | The entries within the new Length are the live slots. |
| `DsdtPatcher.RewriteAbandonsOnlyXsdt` | Booter/i386/libsaio/dsdt_patcher.c:204-208 | Only an XSDT walk is abandoned (the `goto drop_xsdt` on a bad FADT), never an RSDT walk. |
| `DsdtPatcher.Rewrite` | Booter/i386/libsaio/dsdt_patcher.c:172-246 | The reference rewrite of an entry list: SSDTs dropped when asked, DSDTs replaced by the new one, usable FADTs by their patched copies, the rest kept, and an XSDT abandoned on an unusable FADT; `RewriteAbandonsOnlyXsdt` and `SdtWalkRealises` state it. |
| `DsdtPatcher.SdtWalkRealises` | Booter/i386/libsaio/dsdt_patcher.c:172-246 | The walk over a copy's entries realises the reference rewrite, and only adds blocks. |
| `DsdtPatcher.SdtPatchHeap` | Booter/i386/libsaio/dsdt_patcher.c:166-255 | After the patch, kernel memory is the reference memory with the table's block rewritten. |
| `DsdtPatcher.SdtPatchAbandoned` | Booter/i386/libsaio/dsdt_patcher.c:273-383 | An abandoned rewrite yields no address, and only an XSDT's is abandoned. |
| `DsdtPatcher.PatchedSdtIsPatchedAs` | Booter/i386/libsaio/dsdt_patcher.c:248-254 | The finished table has the shortened Length, sums to 0 and lists the live slots. |
| `DsdtPatcher.SdtPatchBlock` | Booter/i386/libsaio/dsdt_patcher.c:166-255 | A usable table whose rewrite goes through is copied at the old cursor and patched as the reference list says. |
| `DsdtPatcher.CompactEntries` | Booter/i386/libsaio/dsdt_patcher.c:177-246 | The array loop over the entries, with the null entry copied down, computes the walk. |
| `DsdtPatcher.PatchSdt` | Booter/i386/libsaio/dsdt_patcher.c:166-262 | The copy and patch of an RSDT or XSDT computes `SdtPatch`. |
| `DsdtPatcher.SdtPatch` | Booter/i386/libsaio/dsdt_patcher.c:166-384 | The copy and patch of an RSDT or XSDT and the copy's address, none for an unusable table or an abandoned XSDT; `PatchSdt` computes it, and `SdtPatchHeap`, `SdtPatchBlock`, `SdtPatchAbandoned`, `RsdtPatchAddress` and `PatchTablesXsdt` state its cases. |
| `DsdtPatcher.RsdtPatchAddress` | Booter/i386/libsaio/dsdt_patcher.c:166-262 | A usable RSDT (nonzero, not all ones, Length below 0x10000) always yields its copy's address, and an unusable one yields none. |
| `DsdtPatcher.PatchedRsdp` | Booter/i386/libsaio/dsdt_patcher.c:389-406 | The RSDP copy keeps its length. |
| `DsdtPatcher.PatchedRsdpReadsBack` | Booter/i386/libsaio/dsdt_patcher.c:389-406 | The copy reads back the new pointers. The 20-byte checksum comes out 0, and so does the extended checksum for ACPI 2.0. No other byte changes. |
| `DsdtPatcher.SdtCtx` | Booter/i386/libsaio/dsdt_patcher.c:166-383 | The RSDT pass has 32-bit entries and the XSDT pass 64-bit ones. |
| `DsdtPatcher.PatchTables` | Booter/i386/libsaio/dsdt_patcher.c:166-383 | The values stored as RsdtAddress and XsdtAddress fit their fields. |
| `DsdtPatcher.PatchTablesRsdt` | Booter/i386/libsaio/dsdt_patcher.c:166-262 | RsdtAddress is the copy's address exactly when the RSDT is usable, and 0 otherwise. |
| `DsdtPatcher.PatchTablesXsdt` | Booter/i386/libsaio/dsdt_patcher.c:264-384 | XsdtAddress is all ones exactly when no XSDT copy is kept. |
| `DsdtPatcher.PatchVersionAbsent` | Booter/i386/libsaio/dsdt_patcher.c:141-150 | Without an RSDP of the version, nothing is allocated or registered. |
| `DsdtPatcher.PatchVersionRsdp` | Booter/i386/libsaio/dsdt_patcher.c:151-406 | The RSDP copy at the old cursor sums to 0 and points at the RSDT copy (or 0). For ACPI 2.0 it also passes the extended checksum and holds the XSDT value. |
| `DsdtPatcher.Address32` | Booter/i386/libsaio/dsdt_patcher.c:83-84 | The 32-bit cast of the search result, 0 for none. |
| `DsdtPatcher.NoModRegistrations` | Booter/i386/libsaio/dsdt_patcher.c:78-88 | ACPI 1.0 is always registered, as 0 when absent. ACPI 2.0 is registered exactly when found. |
| `DsdtPatcher.FirmwareRsdpAddress` | Booter/i386/libsaio/dsdt_patcher.c:83-86 | A found RSDP lies in 0xE0000-0xFFFFF, so its 32-bit address is itself and never 0. |
| `DsdtPatcher.SetupAcpiNoMod` | Booter/i386/libsaio/dsdt_patcher.c:78-88 | `setupAcpiNoMod` registers those nodes, while the table has room, and answers 1. |
| `DsdtPatcher.DsdtPath` | Booter/i386/libsaio/dsdt_patcher.c:101-103 | Without a DSDT key, /Extra/DSDT.aml is opened. |
| `DsdtPatcher.OptionsMeaning` | Booter/i386/libsaio/dsdt_patcher.c:125-133 | DropSSDT holds only when set to yes. The restart fix holds on Intel unless set to no. |
| `DsdtPatcher.SetupOf` | Booter/i386/libsaio/dsdt_patcher.c:111-133 | The patch settings carry the new DSDT's address. |
| `DsdtPatcher.Versions` | Booter/i386/libsaio/dsdt_patcher.c:135-420 | At most one registration per round. |
| `DsdtPatcher.AcpiRegistrations` | Booter/i386/libsaio/dsdt_patcher.c:105-420 | Without a DSDT file, the firmware's RSDPs are registered. With one, each found version is registered at its copy, ACPI 1.0 first, and a missing version is not registered. |
| `DsdtPatcher.PatchVersionRegisters` | Booter/i386/libsaio/dsdt_patcher.c:141-420 | A round registers the copy at the cursor it starts from exactly when there is an RSDP. |
| `DsdtPatcher.PatchOneVersion` | Booter/i386/libsaio/dsdt_patcher.c:141-406 | One round's body computes `PatchVersion`. |
| `DsdtPatcher.PatchVersion` | Booter/i386/libsaio/dsdt_patcher.c:141-406 | One round of the version loop: the RSDP copy, then the RSDT's, then for ACPI 2.0 the XSDT's; `PatchOneVersion` computes it, and `PatchVersionAbsent`, `PatchVersionRsdp` and `PatchVersionRegisters` state its cases. |
| `DsdtPatcher.VersionsStep` | Booter/i386/libsaio/dsdt_patcher.c:135-420 | The rounds compose one at a time. |
| `DsdtPatcher.RegisterVersion` | Booter/i386/libsaio/dsdt_patcher.c:141-420 | One round, then its registration, while the table has room. |
| `DsdtPatcher.PatchVersions` | Booter/i386/libsaio/dsdt_patcher.c:135-420 | The version loop, ACPI 1.0 then 2.0, registers `Versions`. |
| `DsdtPatcher.SetupAcpi` | Booter/i386/libsaio/dsdt_patcher.c:91-427 | `setupAcpi` ends with the kernel memory and registrations of `AcpiOutcome`, and answers 1. |
| `DsdtPatcher.AcpiOutcome` | Booter/i386/libsaio/dsdt_patcher.c:91-427 | What `setupAcpi` leaves: kernel memory and the registrations made; `SetupAcpi` computes it and `AcpiRegistrations` states what is registered. |
| `SmbiosPatcher.DescribedFieldsFit` | Booter/i386/libsaio/smbios_patcher.c:223-258 | Every property of a described type lies inside that type's formatted area, past the 4-byte header. |
| `SmbiosPatcher.TextBytes` | Booter/i386/libsaio/smbios_patcher.c:466-468 | The configured text is copied one byte per character. |
| `SmbiosPatcher.StructureSize` | Booter/i386/libsaio/smbios_patcher.c:314-348 | A structure's size is its formatted area, its existing and added strings, and the final NUL. An empty string-set still takes a NUL of its own. |
| `SmbiosPatcher.OwordBytes` | Booter/i386/libsaio/smbios_patcher.c:495-512 | At most sixteen bytes are parsed. |
| `SmbiosPatcher.OwordField` | Booter/i386/libsaio/smbios_patcher.c:486-513 | The field is sixteen bytes: the parsed bytes first, zeros after. |
| `SmbiosPatcher.OwordStart` | Booter/i386/libsaio/smbios_patcher.c:489-494 | Blanks and a "0x"/"0X" prefix are skipped, up to the text's NUL or its size. |
| `SmbiosPatcher.DigitLoopStep` | Booter/i386/libsaio/smbios_patcher.c:495-512 | One character of the digit loop: a non-digit is ignored, and every second digit completes a byte. |
| `SmbiosPatcher.DigitLoopFull` | Booter/i386/libsaio/smbios_patcher.c:495 | Once sixteen bytes are stored, the loop stops. |
| `SmbiosPatcher.DigitLoopEnd` | Booter/i386/libsaio/smbios_patcher.c:495-512 | At the end of the text, the field holds every complete pair of digits. |
| `SmbiosPatcher.DigitValue` | Booter/i386/libsaio/smbios_patcher.c:496-504 | The three range tests give a digit's value exactly for hexadecimal digits. |
| `SmbiosPatcher.OwordDigits` | Booter/i386/libsaio/smbios_patcher.c:495-512 | The digit loop packs pairs of hexadecimal digits, at most sixteen. |
| `SmbiosPatcher.ParseOword` | Booter/i386/libsaio/smbios_patcher.c:482-514 | The SMOWORD branch stores `OwordField` of the text. |
| `SmbiosPatcher.PrefixedStart` | Booter/i386/libsaio/smbios_patcher.c:492-494 | With a "0x" prefix, the digits start at 2. |
| `SmbiosPatcher.OwordRoundTrip` | Booter/i386/libsaio/smbios_patcher.c:482-514 | A UUID written as "0x" and 32 hexadecimal digits reads back as its sixteen bytes. |
| `SmbiosPatcher.NulFrom` | Booter/i386/libsaio/smbios_patcher.c:440-444 | The first NUL at or after a position. |
| `SmbiosPatcher.StringsAppend` | Booter/i386/libsaio/smbios_patcher.c:440-475 | Appending whole strings appends to the string list. |
| `SmbiosPatcher.StringsOne` | Booter/i386/libsaio/smbios_patcher.c:466-469 | A NUL-free text and its NUL form one string. |
| `SmbiosPatcher.StringsCount` | Booter/i386/libsaio/smbios_patcher.c:440-447 | In whole strings, each NUL ends one string, so `nstrings` counts strings. |
| `SmbiosPatcher.TerminatedZeros` | Booter/i386/libsaio/smbios_patcher.c:445-453 | A string-set without a NUL is empty. |
| `SmbiosPatcher.Header` | Booter/i386/libsaio/smbios_patcher.c:558-568 | A synthesized structure starts with a header as long as its description. |
| `SmbiosPatcher.FillLength` | Booter/i386/libsaio/smbios_patcher.c:455-536 | The property loop adds exactly the string bytes the dry run counts. It numbers a new string exactly when it adds bytes. |
| `SmbiosPatcher.AddStringNumbered` | Booter/i386/libsaio/smbios_patcher.c:464-470 | An added string becomes the last string of the set. Its 1-based number is stored at the property's offset, and no other formatted byte changes. |
| `SmbiosPatcher.RebuildOriginalSize` | Booter/i386/libsaio/smbios_patcher.c:428-544 | A rewritten original structure has exactly the size the dry run reserves. |
| `SmbiosPatcher.RebuildDescribedSize` | Booter/i386/libsaio/smbios_patcher.c:557-660 | A synthesized structure has exactly the size the dry run reserves. |
| `SmbiosPatcher.StringsEnd` | Booter/i386/libsaio/smbios_patcher.c:316 | The string-set ends at the first double NUL. |
| `SmbiosPatcher.StructureAt` | Booter/i386/libsaio/smbios_patcher.c:429-447 | A structure read has whole strings and a header, and the next one starts after it, within the table. |
| `SmbiosPatcher.Walk` | Booter/i386/libsaio/smbios_patcher.c:309-350 | Walking `structureCount` structures gives that many structures, each whole. |
| `SmbiosPatcher.ScanStrings` | Booter/i386/libsaio/smbios_patcher.c:440-447 | The scan stops at the double NUL and counts the NULs before it. |
| `SmbiosPatcher.ReadStructure` | Booter/i386/libsaio/smbios_patcher.c:429-447 | The reading loop computes `StructureAt`, with the string count. |
| `SmbiosPatcher.WalkStops` | Booter/i386/libsaio/smbios_patcher.c:309-350 | A walk that runs off the table stays failed. |
| `SmbiosPatcher.WalkStep` | Booter/i386/libsaio/smbios_patcher.c:309-350 | Each round of the walk adds one structure. |
| `SmbiosPatcher.Originals` | Booter/i386/libsaio/smbios_patcher.c:309-350 | Each walked structure is planned as an original. |
| `SmbiosPatcher.Copies` | Booter/i386/libsaio/smbios_patcher.c:364-395 | The structures a description adds, all alike. |
| `SmbiosPatcher.CountCopies` | Booter/i386/libsaio/smbios_patcher.c:364-395 | Copies count only toward their own type. |
| `SmbiosPatcher.MaxSize` | Booter/i386/libsaio/smbios_patcher.c:345-347 | `maxStructureSize` stays within its 16-bit field. |
| `SmbiosPatcher.FreeFrom` | Booter/i386/libsaio/smbios_patcher.c:562-564 | The smallest free handle in a range, or none when all are taken. |
| `SmbiosPatcher.FreeFromFinds` | Booter/i386/libsaio/smbios_patcher.c:562-564 | A free handle with all below it taken is the one found. |
| `SmbiosPatcher.FreeFromNone` | Booter/i386/libsaio/smbios_patcher.c:562-564 | With every handle in range taken, none is found. |
| `SmbiosPatcher.NextFreeFacts` | Booter/i386/libsaio/smbios_patcher.c:562-566 | A new handle is not in use. It is the smallest free one from `nexthandle` on, else the search wrapped round. The search fails only when all 65536 are taken. |
| `SmbiosPatcher.AllocateHandle` | Booter/i386/libsaio/smbios_patcher.c:562-566 | The 16-bit handle search loop. |
| `SmbiosPatcher.RebuildNext` | Booter/i386/libsaio/smbios_patcher.c:428-660 | The real run's step keeps `nexthandle` below 2^16. |
| `SmbiosPatcher.RebuildPlan` | Booter/i386/libsaio/smbios_patcher.c:400-661 | The real run keeps `nexthandle` below 2^16. |
| `SmbiosPatcher.RebuildStep` | Booter/i386/libsaio/smbios_patcher.c:400-661 | The real run goes one structure at a time. |
| `SmbiosPatcher.RebuildPrefixNone` | Booter/i386/libsaio/smbios_patcher.c:557-566 | Once the handle search fails, the rebuild fails. |
| `SmbiosPatcher.DescriptionKindsDistinct` | Booter/i386/libsaio/smbios_patcher.c:249-258 | No two descriptions share a type. |
| `SmbiosPatcher.DescriptionsHoldHeader` | Booter/i386/libsaio/smbios_patcher.c:249-258 | Every description has room for the header. |
| `SmbiosPatcher.SynthesizeStep` | Booter/i386/libsaio/smbios_patcher.c:353-396 | A description brings its own type up to the count needed and leaves the other types alone. |
| `SmbiosPatcher.SynthesizeAppends` | Booter/i386/libsaio/smbios_patcher.c:353-396 | Synthesis keeps the originals first and only appends described structures. |
| `SmbiosPatcher.SynthesizeCounts` | Booter/i386/libsaio/smbios_patcher.c:353-396 | Each described type ends up present as often as required, or as often as it already was if that is more. Other types keep their count. |
| `SmbiosPatcher.SynthesizeDone` | Booter/i386/libsaio/smbios_patcher.c:364 | Once its type is present often enough, a description adds nothing more. |
| `SmbiosPatcher.SynthesizeExtends` | Booter/i386/libsaio/smbios_patcher.c:364-395 | Each copy added is a prefix of the final plan. |
| `SmbiosPatcher.Synthesize` | Booter/i386/libsaio/smbios_patcher.c:353-396 | The structures the descriptions add, each until its type is present often enough; `SynthesizeStep`, `SynthesizeAppends`, `SynthesizeCounts` and `SynthesizeDone` state it. |
| `SmbiosPatcher.PlanOriginalsTerminated` | Booter/i386/libsaio/smbios_patcher.c:309-396 | Every original in the plan has whole strings. |
| `SmbiosPatcher.Plan` | Booter/i386/libsaio/smbios_patcher.c:309-396 | The whole new table: the originals in order, then the synthesized structures; `DryRun` sizes it and `PlanOriginalsTerminated` states its originals are whole. |
| `SmbiosPatcher.RebuiltSize` | Booter/i386/libsaio/smbios_patcher.c:261-661 | With the per-instance key asked first in both runs, the real run writes exactly the length the dry run reserves. |
| `SmbiosPatcher.StringBytesSkip` | Booter/i386/libsaio/smbios_patcher.c:322-343 | Properties of other types add no string bytes. |
| `SmbiosPatcher.DryRunUndersizesAsWritten` | Booter/i386/libsaio/smbios_patcher.c:322-343 | As written, a bare baseboard with `SMboardproduct` set to "" and `SMboardproduct_1` to "X" gets 17 bytes from the dry run (plain key first), but the real run writes 18 (per-instance key first). |
| `SmbiosPatcher.StringsSize` | Booter/i386/libsaio/smbios_patcher.c:322-343 | The dry run's property loop sums the string bytes, with the per-instance key first. |
| `SmbiosPatcher.SizeOf` | Booter/i386/libsaio/smbios_patcher.c:314-348 | The dry run sizes one structure. |
| `SmbiosPatcher.PlanTotals` | Booter/i386/libsaio/smbios_patcher.c:345-351 | The table length, the largest structure and the count all wrap at 2^16, like their fields. |
| `SmbiosPatcher.PlanStep` | Booter/i386/libsaio/smbios_patcher.c:345-351 | Each structure adds its size to the length and may raise the maximum. |
| `SmbiosPatcher.CountStep` | Booter/i386/libsaio/smbios_patcher.c:350 | `tablespresent[type]++`. |
| `SmbiosPatcher.CopiesStep` | Booter/i386/libsaio/smbios_patcher.c:364-395 | One more copy. |
| `SmbiosPatcher.Account` | Booter/i386/libsaio/smbios_patcher.c:345-351 | The dry run's bookkeeping for one structure keeps its invariant. |
| `SmbiosPatcher.DryRun` | Booter/i386/libsaio/smbios_patcher.c:261-398 | `smbios_dry_run` answers the planned totals, and fails exactly when the walk runs off the table. |
| `SmbiosPatcher.DryOriginals` | Booter/i386/libsaio/smbios_patcher.c:308-351 | The first loop sizes every original structure. |
| `SmbiosPatcher.DrySynthesize` | Booter/i386/libsaio/smbios_patcher.c:353-396 | The second loop sizes every structure synthesis adds. |
| `SmbiosPatcher.DryDescription` | Booter/i386/libsaio/smbios_patcher.c:354-395 | One description's `while` loop adds exactly the structures still missing for its type (the configured or default count less those present): the counts and totals afterwards are those of the plan extended by that many copies, and the plan then agrees with `Synthesize` from that description on. |
| `SmbiosPatcher.NumNeeded` | Booter/i386/libsaio/smbios_patcher.c:354-363 | `numnec` is `SMtable<i>`, else 1 with defaults on and a count function, else -1. |
| `SmbiosPatcher.FillStructure` | Booter/i386/libsaio/smbios_patcher.c:455-536 | The real run's property loop. |
| `SmbiosPatcher.ApplyProperty` | Booter/i386/libsaio/smbios_patcher.c:462-534 | One property, by the kind of value it writes. |
| `SmbiosPatcher.Apply` | Booter/i386/libsaio/smbios_patcher.c:462-534 | What one property does to one structure instance, by the kind of value it writes; `ApplyProperty` computes it. |
| `SmbiosPatcher.NumberFor` | Booter/i386/libsaio/smbios_patcher.c:515-534 | A byte or word property's number: the per-instance key, else the plain key, else the automatic value when automatic values are on; `ApplyProperty` stores it. |
| `SmbiosPatcher.Terminate` | Booter/i386/libsaio/smbios_patcher.c:537-542 | An empty string-set gets a NUL of its own, then comes the final NUL. |
| `SmbiosPatcher.EmitOriginal` | Booter/i386/libsaio/smbios_patcher.c:429-543 | An original structure is copied, rewritten and appended, and its handle is marked used. |
| `SmbiosPatcher.EmitDescribed` | Booter/i386/libsaio/smbios_patcher.c:558-659 | A described structure gets a new handle and is filled and appended. It fails only when no handle is free. |
| `SmbiosPatcher.RealRun` | Booter/i386/libsaio/smbios_patcher.c:400-661 | `smbios_real_run` writes `NewTable` of the walked structures, and fails when the walk leaves the table. |
| `SmbiosPatcher.RealOriginals` | Booter/i386/libsaio/smbios_patcher.c:427-545 | The first loop rewrites every original structure. |
| `SmbiosPatcher.RealSynthesize` | Booter/i386/libsaio/smbios_patcher.c:546-661 | The second loop adds the synthesized structures. |
| `SmbiosPatcher.RealDescription` | Booter/i386/libsaio/smbios_patcher.c:547-660 | One description's `while` loop, failing only when the handle search fails. |
| `SmbiosPatcher.EntryBytes` | Booter/i386/libsaio/smbios_patcher.c:284-306 | The new entry point is 0x1f bytes long. |
| `SmbiosPatcher.EntryLayout` | Booter/i386/libsaio/smbios_patcher.c:284-306 | The anchors, length, version, largest structure, table length, address, count and BCD revision sit where the entry point's layout puts them. |
| `SmbiosPatcher.Seal` | Booter/i386/libsaio/smbios_patcher.c:662-665 | The DMI checksum is computed first, then the whole-entry checksum. Both sums come out 0, and no other byte changes. |
| `SmbiosPatcher.SealedEntry` | Booter/i386/libsaio/smbios_patcher.c:662-665 | The sealed entry point is one the scan accepts, and its fields read back as written. |
| `SmbiosPatcher.EntryAtParts` | Booter/i386/libsaio/smbios_patcher.c:681-683 | An entry point is accepted on the "_SM_" and "_DMI_" anchors plus a zero checksum. |
| `SmbiosPatcher.FirstEntry` | Booter/i386/libsaio/smbios_patcher.c:669-692 | The first accepted entry point on 16-byte steps up to 0xFFFFF, and none only when none exists. |
| `SmbiosPatcher.FindEntryPoint` | Booter/i386/libsaio/smbios_patcher.c:669-692 | `getAddressOfSmbiosTable` computes `FirstEntry` from 0xF0000. |
| `SmbiosPatcher.PatchConsistent` | Booter/i386/libsaio/smbios_patcher.c:261-665 | The patched entry point passes the scan and both checksums, points at the new table, and declares the written length (16 bits). |
| `SmbiosPatcher.PatchOf` | Booter/i386/libsaio/smbios_patcher.c:261-665 | The patched entry point and the new table; `PatchConsistent` states that the entry point checks out and points at the table, and `Patch` computes it. |
| `SmbiosPatcher.Patch` | Booter/i386/libsaio/smbios_patcher.c:709-712 | The dry run, then the real run. |
| `SmbiosPatcher.SmbiosCache.constructor` | Booter/i386/libsaio/smbios_patcher.c:696-697 | Both cached pointers start out NULL. |
| `SmbiosPatcher.SmbiosCache.GetSMBIOS` | Booter/i386/libsaio/smbios_patcher.c:694-720 | The original is located once. The patched table is built once, on the first request, and cached. An unknown request gets NULL and changes nothing. |
| `Disk.RetryMeaning` | Booter/i386/libsaio/disk.c:270-280 | The loop makes at most five calls and stops at the first success or corrected ECC error. A failure returns the fifth call's own code after four plain errors. |
| `Disk.LastCorrectedErrorFails` | Booter/i386/libsaio/disk.c:270-280 | A corrected error on the fifth attempt comes back as that error, because `++tries < 5` ends the loop before the ECC test. A corrected error earlier counts as success. |
| `Disk.ReadWithRetries` | Booter/i386/libsaio/disk.c:270-280 | The retry loop computes `Retry`. |
| `Disk.TrackRun` | Booter/i386/libsaio/disk.c:308 | A CHS read caches between 1 and 64 sectors and never crosses the end of the track. |
| `Disk.BiosreadCodes` | Booter/i386/libsaio/disk.c:224-337 | `Biosread` returns 0, -1 or the code the retry loop gave up on. The cache turns valid only on success. |
| `Disk.BiosreadSpec` | Booter/i386/libsaio/disk.c:224-337 | The track cache and return code `Biosread` leaves: a hit is served from the cache, a miss reads the track through EBIOS or CHS with retries; `BiosreadCodes`, `BiosreadReadsSector`, `EbiosCacheHit`, `EbiosCacheMiss` and `FaultFreeRead` state its properties and `Biosread` computes it. |
| `Disk.EbiosCacheHit` | Booter/i386/libsaio/disk.c:257-264 | An EBIOS hit is served from the track buffer, changing only `biosbuf`. |
| `Disk.EbiosCacheMiss` | Booter/i386/libsaio/disk.c:266-281 | An EBIOS miss rounds the cached start down to the drive sector (kept to 32 bits) and claims the full buffer. The cache is valid exactly when the read succeeds. |
| `Disk.ChsDecompose` | Booter/i386/libsaio/disk.c:285-288 | The cylinder, head and sector recompose the sector number, with head and sector in range. |
| `Disk.EbiosHitReadsSector` | Booter/i386/libsaio/disk.c:257-264 | On a hit, the buffer already holds the requested sector. |
| `Disk.EbiosMissReadsSector` | Booter/i386/libsaio/disk.c:266-331 | On a miss, the buffer read from the drive sector holds the requested sector at `secno % divisor`. |
| `Disk.EbiosMissCache` | Booter/i386/libsaio/disk.c:266-331 | A successful miss caches the 64 sectors from the rounded-down start. |
| `Disk.EbiosReadsSector` | Booter/i386/libsaio/disk.c:254-281 | On the EBIOS path, a successful read shows the requested sector and keeps the cache agreeing with the disk. |
| `Disk.ChsHitReadsSector` | Booter/i386/libsaio/disk.c:290-300 | On a CHS hit, the buffer already holds the requested sector. |
| `Disk.ChsReadsSector` | Booter/i386/libsaio/disk.c:282-324 | On the CHS path, a successful read shows the requested sector and keeps the cache agreeing with the disk. |
| `Disk.BiosreadReadsSector` | Booter/i386/libsaio/disk.c:224-337 | A successful `Biosread` shows the requested sector and leaves the cache agreeing with the disk. |
| `Disk.HighSectorAliases` | Booter/i386/libsaio/disk.c:257-267 | As written, the 32-bit cached start aliases sectors 2^32 apart. After sector 2^32 + 5 is read, sector 6 is served from the buffer, which holds sector 2^32 + 6. |
| `Disk.FaultFreeRead` | Booter/i386/libsaio/disk.c:224-337 | A read on a drive whose BIOS call succeeds also succeeds. |
| `Disk.RamdiskRead` | Booter/i386/libsaio/disk.c:353-354 | The RAM-disk reader fills the buffer or fails, and nothing past `byteCount` changes. |
| `Disk.RegularChunk` | Booter/i386/libsaio/disk.c:363-376 | One round of `readBytes` keeps the cache coherent. On success it extends the copied prefix of the disk bytes. |
| `Disk.CopyOut` | Booter/i386/libsaio/disk.c:373 | `bcopy` writes exactly `n` bytes at `at`. |
| `Disk.SectorCache.constructor` | Booter/i386/libsaio/disk.c:226-227 | The statics start zeroed, so the cache starts invalid. |
| `Disk.SectorCache.EbiosPath` | Booter/i386/libsaio/disk.c:254-281 | The EBIOS branch updates the cache state as `EbiosRead` says. |
| `Disk.SectorCache.ChsPath` | Booter/i386/libsaio/disk.c:282-324 | The CHS branch updates the cache state as `ChsRead` says. |
| `Disk.SectorCache.Biosread` | Booter/i386/libsaio/disk.c:224-337 | `Biosread` updates the cache state as `BiosreadSpec` says. |
| `Disk.SectorCache.ReadChunk` | Booter/i386/libsaio/disk.c:363-376 | One round of the loop: success on a fault-free drive, a coherent cache, and a longer copied prefix. |
| `Disk.SectorCache.ReadSector` | Booter/i386/libsaio/disk.c:365-373 | It reads sector `blk`, then copies `n` bytes of it to the buffer, and on failure touches nothing. |
| `Disk.SectorCache.ReadBytes` | Booter/i386/libsaio/disk.c:348-381 | `readBytes` goes to the RAM-disk reader from device 0x100 on. Otherwise it succeeds on a fault-free drive, keeps the cache coherent, and on success fills the buffer with the disk's bytes from `blkno * 512 + byteoff`. |
| `Disk.SectorCache.CachedRead` | Booter/i386/libsaio/disk.c:356-380 | The BIOS loop of `readBytes`, sector by sector, stopping at the first failure. |
| `DiskScan.FieldCopy` | Booter/i386/libsaio/disk.c:589-590 | `strlcpy` into a field of DPISTRLEN characters keeps the text shorter than the field. |
| `DiskScan.FDiskVolumeFlags` | Booter/i386/libsaio/disk.c:493-560 | `newFDiskBVRef` makes a record exactly when the file system has an init function or the boot sector reads. Native boot comes with an init function, foreign boot without one. The record is bootable when both hold, and primary for an active HFS slot. |
| `DiskScan.NewFDiskVolume` | Booter/i386/libsaio/disk.c:493-557 | The record `newFDiskBVRef` makes, or none; `FDiskVolumeFlags` states when it exists and which flags it carries. |
| `DiskScan.GptVolumeFlags` | Booter/i386/libsaio/disk.c:643-725 | `newGPTBVRef` makes a record exactly when the file system has an init function or the boot sector reads. The record is named "----" and typed "GPT HFS+" exactly for the boot and HFS GUIDs. It is native when the file system has an init function or the caller asks for it. The EFI-system, booter and primary flags are those passed in. |
| `DiskScan.ApmVolumeFlags` | Booter/i386/libsaio/disk.c:562-641 | `newAPMBVRef` always makes a record that is native, bootable and a system volume, with name and type within their fields. |
| `DiskScan.ProbeOrder` | Booter/i386/libsaio/disk.c:1071-1116 | `probeFileSystem` returns -1 when the read fails. Otherwise it tries HFS, then ext2, then NTFS, then FAT by its bit count, and returns 0 when none matches. |
| `DiskScan.ProbeFileSystem` | Booter/i386/libsaio/disk.c:1071-1116 | `probeFileSystem` as a partition type byte, -1 for a failed read; `ProbeOrder` states its order and cases. |
| `DiskScan.FDiskWalker.constructor` | Booter/i386/libsaio/disk.c:408-413 | The walker starts with no device. |
| `DiskScan.FDiskWalker.ReadBootSector` | Booter/i386/libsaio/disk.c:1723-1743 | `readBootSector` succeeds exactly when the read works and the 0xAA55 signature is present. The bytes land in the shared buffer whenever the read works. |
| `DiskScan.FDiskWalker.Relocate` | Booter/i386/libsaio/disk.c:480 | `relsect += sExtBase` is written into the table itself. |
| `DiskScan.FDiskWalker.Next` | Booter/i386/libsaio/disk.c:405-489 | The next data partition comes from the MBR slots and then the extended chain. It is never empty or extended, it is relocated in place, and it is numbered by slot, or by depth + 4 in the chain. What it finds is exactly what `NextPart` finds from the cursor, or from the MBR when the drive changes or `partno` is negative, so no partition is skipped and none is made up. |
| `DiskScan.FDiskWalker.Walk` | Booter/i386/libsaio/disk.c:429-486 | The `while (1)` loop, from the cursor: it finds exactly what `NextPart` finds from there, and leaves the cursor just after it. |
| `DiskScan.FDiskWalker.Restart` | Booter/i386/libsaio/disk.c:416-427 | The MBR is fetched and the statics reset: it succeeds exactly when the MBR reads with its signature, and the cursor then stands before the MBR's first slot. |
| `DiskScan.FDiskWalker.Advance` | Booter/i386/libsaio/disk.c:429-486 | One pass of the loop keeps the walk on course for what `NextPart` finds, strictly closer to it; it stops with nothing only when `NextPart` finds nothing, and otherwise with that partition. |
| `DiskScan.FDiskWalker.Visit` | Booter/i386/libsaio/disk.c:431-484 | One slot: the cursor moves past it. An extended or empty slot leaves what `NextPart` finds unchanged; a data entry is relocated and is what `NextPart` finds. |
| `DiskScan.FDiskWalker.Take` | Booter/i386/libsaio/disk.c:479-484 | A data entry is relocated in place and handed out, numbered by depth and slot, as `NextPart` finds it. |
| `DiskScan.FDiskWalker.Load` | Booter/i386/libsaio/disk.c:436-456 | The pending extended table is read from `relsect` plus the first extended block; it loads exactly when that block reads with its signature, and the cursor then stands at `LoadedPos`. |
| `DiskScan.FDiskWalker.LoadTable` | Booter/i386/libsaio/disk.c:441-455 | The statics' side of the load. The extended base takes the block, and so does the first base at depth 0, whether or not the read works. The load succeeds exactly when the block reads with its signature. The buffer then holds the block, and the cursor moves to slot 0 one level deeper with no extended entry pending. |
| `DiskScan.ExtBlock` | Booter/i386/libsaio/disk.c:439 | The block of the pending extended table: its `relsect` plus the first extended block, in 32 bits. |
| `DiskScan.LoadedPos` | Booter/i386/libsaio/disk.c:441-453 | Once an extended table is loaded the cursor stands before its first slot with no extended entry pending. |
| `DiskScan.NextPart` | Booter/i386/libsaio/disk.c:429-486 | The reference walk: the next data slot of the current table, else the extended table it points at; the cursor it returns stands just after the slot found. |
| `DiskScan.Descend` | Booter/i386/libsaio/disk.c:436-458 | A used-up table goes on in the extended table it points at; the cursor returned stands just after the slot found. |
| `DiskScan.NextPartLoads` | Booter/i386/libsaio/disk.c:436-458 | A used-up table goes on in the loaded extended table exactly when one is pending, a load is left and the block reads with its signature; otherwise nothing is found. |
| `DiskScan.NextPartFound` | Booter/i386/libsaio/disk.c:461-484 | What the walk finds is a data entry of the table it ends in, relocated by that table's base and numbered by depth and slot; the depth never decreases. |
| `DiskScan.NextPartIsFirst` | Booter/i386/libsaio/disk.c:429-484 | Found in the same table: no data entry lies between the cursor and it, so none is skipped. |
| `DiskScan.NextPartNone` | Booter/i386/libsaio/disk.c:436-458 | When nothing is found, no data entry is left in the current table. |
| `DiskScan.SpliceKeepsOtherSlots` | Booter/i386/libsaio/disk.c:480 | Writing one slot's `relsect` leaves every other slot's entry unchanged. |
| `DiskScan.FDiskParts` | Booter/i386/libsaio/disk.c:765 | The partitions the scan's loop receives: none without a signed MBR, else the first `limit` the walk from the MBR finds; `SinglePrimary` states a case and `ScanFDisk` is proved against it. |
| `DiskScan.SinglePrimary` | Booter/i386/libsaio/disk.c:405-489 | An MBR whose only used slot is a data partition in slot 0 yields exactly that partition, numbered 1, at its own offset. |
| `DiskScan.FDiskChain` | Booter/i386/libsaio/disk.c:727-969 | The chain of records the FDisk scan builds from `FDiskParts`, newest first; `FDiskRecordsFromParts` bounds it by the partitions. |
| `DiskScan.FDiskRecordsFromParts` | Booter/i386/libsaio/disk.c:765-908 | Every record of the FDisk chain is the record of one of the partitions, and there are no more records than partitions. |
| `DiskScan.BooterVolume` | Booter/i386/libsaio/disk.c:810-826 | The BIOS boot volume after the scan: the record made for the last active booter partition (none when it cannot be made), else the one before; `ScanFDisk` is proved against it. |
| `DiskScan.RelocatedEntry` | Booter/i386/libsaio/disk.c:480 | Writing `relsect` changes that field and nothing else in the entry. |
| `DiskScan.IORound32` | Booter/i386/libsaio/disk.c:1224 | `IORound` on 32-bit values is a multiple of 512, and at least the value unless the sum wraps. |
| `DiskScan.GptHeaderValid` | Booter/i386/libsaio/disk.c:1134-1218 | The header is accepted exactly when every check holds: the MBR signature, exactly one 0xEE slot, "EFI PART", the header size, the CRC and the entry size. |
| `DiskScan.GptHeaderLayout` | Booter/i386/libsaio/disk.c:1210-1224 | An accepted header gives the entry count, entry size and table LBA as stored, and a buffer of whole sectors. |
| `DiskScan.ExactlyOneProtective` | Booter/i386/libsaio/disk.c:1145-1162 | `fdiskID` ends nonzero without a second 0xEE exactly when one slot is protective. |
| `DiskScan.SignatureText` | Booter/i386/libsaio/disk.c:1172 | Comparing the signature as text and as bytes agree. |
| `DiskScan.GptClassification` | Booter/i386/libsaio/disk.c:1256-1357 | Boot and HFS GUIDs give native HFS records. Unknown GUIDs give none, and neither does an EFI system partition that is not HFS or FAT32. The part type is the probed type when positive, and the Booter and EFISystem flags follow the GUID. |
| `DiskScan.GptEntryBytes` | Booter/i386/libsaio/disk.c:1251 | Entry `gptID` is the 128 bytes at `(gptID - 1) * gptSize`. |
| `DiskScan.GptVolumesFromEntries` | Booter/i386/libsaio/disk.c:1245-1360 | Every GPT record comes from a used entry and is numbered by that entry's index. |
| `DiskScan.GptChainOf` | Booter/i386/libsaio/disk.c:1129-1375 | Without a valid table there is no chain. With one, the chain is the records of the entry array. |
| `DiskScan.FDiskClassification` | Booter/i386/libsaio/disk.c:763-905 | Booter slots give no record. HFS and FAT slots give native records. Any other type gets a record only when its boot sector reads. The file system follows the type. |
| `DiskScan.ApmGeometry` | Booter/i386/libsaio/disk.c:986-997 | The sector factor is the block size over 512. |
| `DiskScan.ApmStep` | Booter/i386/libsaio/disk.c:1016-1053 | Entry 0 sets the entry count. Each entry adds a record exactly when it is "Apple_HFS", ahead of the later ones. |
| `DiskScan.ApmVolumesAreHfs` | Booter/i386/libsaio/disk.c:1016-1053 | Every APM record is an "Apple_HFS" entry of the map. |
| `DiskScan.FirstMap` | Booter/i386/libsaio/disk.c:1504-1509 | The first map of the drive in the list, or none. |
| `DiskScan.BootVolumes.constructor` | Booter/i386/libsaio/disk.c:118 | The map list starts empty. |
| `DiskScan.BootVolumes.FindMap` | Booter/i386/libsaio/disk.c:1504-1509 | The lookup loop finds `FirstMap`. |
| `DiskScan.BootVolumes.ScanGpt` | Booter/i386/libsaio/disk.c:1129-1375 | A map is pushed exactly when the table reads and checks out, even if it stays empty. It holds the GPT chain, and the count is its length. The entry loop is `GptWalk`, with one entry per `GptPush`; both are proved equal to `GptVolumes`. |
| `DiskScan.BootVolumes.GptWalk` | Booter/i386/libsaio/disk.c:1245-1360 | The GPT entry loop returns exactly `GptVolumes` of the entries 1 to the header's count. |
| `DiskScan.BootVolumes.GptPush` | Booter/i386/libsaio/disk.c:1245-1360 | One entry of the loop extends the chain from `GptVolumes` of the first id - 1 entries to that of the first id entries. |
| `DiskScan.BootVolumes.ScanFDisk` | Booter/i386/libsaio/disk.c:727-969 | Nothing is scanned when the drive geometry fails. Otherwise every record is a data partition of the drive, and a map is pushed when there are records. An active booter partition becomes the BIOS boot volume. The chain is `FDiskChain` and the boot volume `BooterVolume` of the partitions `FDiskParts` lists. |
| `DiskScan.BootVolumes.ScanStep` | Booter/i386/libsaio/disk.c:765-908 | One round of the scan loop: the walker's next partition is offered and counted, or the walk ends; the scan's invariant is kept. |
| `DiskScan.BootVolumes.Offer` | Booter/i386/libsaio/disk.c:810-907 | One partition: an active booter partition becomes the BIOS boot volume, any other partition's record goes at the head of the drive's chain, which stays `FDiskRecords` of the partitions seen. |
| `DiskScan.BootVolumes.ScanApm` | Booter/i386/libsaio/disk.c:974-1061 | A map is pushed whenever block 0 reads. It holds the APM chain, and the count is its length. The entry loop is `ApmWalk`, with one entry per `ApmNext`; both are proved against `ApmVolumes`. |
| `DiskScan.BootVolumes.ApmWalk` | Booter/i386/libsaio/disk.c:1016-1053 | The APM entry loop returns exactly `ApmVolumes` from the first entry. |
| `DiskScan.BootVolumes.ApmNext` | Booter/i386/libsaio/disk.c:1016-1053 | One entry of the loop: when it stops, the chain so far is the whole chain; otherwise `ApmVolumes` of the remaining entries followed by the chain so far still is. |
| `DiskScan.BootVolumes.ScanBootVolumes` | Booter/i386/libsaio/disk.c:1496-1528 | A drive already mapped gets its chain back and adds its count. Otherwise the chain is `ScanChain`: GPT first, then FDisk, then APM. The map list becomes `ScanMaps`, and whenever the drive now has a map, its first map holds the returned chain and count, so a later call reuses them without rescanning. |
| `DiskScan.ScanChain` | Booter/i386/libsaio/disk.c:1511-1519 | The chain a fresh scan returns: the GPT chain when it is not empty, else the FDisk chain of a readable drive when that is not empty, else the APM chain. `ScanBootVolumes` is proved against it. |
| `DiskScan.ScanMaps` | Booter/i386/libsaio/disk.c:1511-1519 | The map list after a fresh scan. The GPT map is pushed when its table reads. When the GPT chain is empty, the FDisk map is pushed when its chain is not, else the APM map when block 0 reads. `ScanLeavesMap` states what a later lookup finds. |
| `DiskScan.ScanLeavesMap` | Booter/i386/libsaio/disk.c:1503-1519 | After a fresh scan of an unmapped drive, the drive has a map whenever a record was found, and its first map is the returned chain with its length as count. |
| `DiskScan.BootVolumes.ResetBootVolumes` | Booter/i386/libsaio/disk.c:1456-1479 | The drive's first map is unlinked and returned, and the cache is invalidated. Without a map nothing changes. |
| `DiskScan.FreeMap` | Booter/i386/libsaio/disk.c:1482-1494 | Every record of the map is released. |
| `DiskScan.SignedDecimal` | Booter/i386/libsaio/disk.c:1600 | `%d` prints a sign exactly for negatives. |
| `DiskScan.Copies` | Booter/i386/libsaio/disk.c:1565-1620 | One copy per record. |
| `DiskScan.NewFilteredBVChain` | Booter/i386/libsaio/disk.c:1547-1633 | The chain is the filtered copies of every record of every map, in list order, and the count is the number of visible copies. |
| `DiskScan.CopyChain` | Booter/i386/libsaio/disk.c:1567-1619 | The inner loop appends one drive's copies. |
| `DiskScan.CopyRecord` | Booter/i386/libsaio/disk.c:1577-1603 | One copy: marked filtered, made visible when admitted, hidden when named in "Hide Partition". |
| `DiskScan.FilteredCopy` | Booter/i386/libsaio/disk.c:1577-1603 | The copy `newFilteredBVChain` makes of one record; `CopyRecord` computes it and `CopiesMeaning` states it field by field. |
| `DiskScan.CopiesConcat` | Booter/i386/libsaio/disk.c:1565-1620 | Copying runs one after another copies their concatenation. |
| `DiskScan.CopiesMeaning` | Booter/i386/libsaio/disk.c:1577-1603 | Each copy keeps every field but `filtered`, which is set, and `visible`. A copy is visible exactly when it was visible or is admitted, and is not hidden. |
| `DiskScan.CountVisibleBound` | Booter/i386/libsaio/disk.c:1617-1631 | The count never exceeds the records. It equals them exactly when all are visible, and is 0 exactly when none is. |
| `DiskScan.FreeFilteredBVChain` | Booter/i386/libsaio/disk.c:1635-1659 | Filtered copies are released from the head. The first unfiltered record stops the walk with 0. Otherwise the result is 1. |
| `DiskScan.SeekRoundTrip` | Booter/i386/libsaio/disk.c:1786-1790 | `fs_boff * 512 + fs_byteoff` gives the position back, and the offset truncates toward zero as C's `/` and `%` do. |
| `DiskScan.GatherContiguous` | Booter/i386/libsaio/disk.c:1819-1838 | Unless the 32-bit sector number wraps, the requests read the run of sectors from `secno`. |
| `DiskScan.RawChunksSizes` | Booter/i386/libsaio/disk.c:1819-1838 | Every request moves 1 to 64 sectors, and together they move them all. |
| `DiskScan.ChunksStep` | Booter/i386/libsaio/disk.c:1820-1836 | The first request takes up to 64 sectors. A refusal other than a corrected ECC error ends the read with its code. |
| `DiskScan.ReadRequest` | Booter/i386/libsaio/disk.c:1825-1835 | One request fills the track buffer and appends it to the data copied so far. |
| `DiskScan.RawDiskRead` | Booter/i386/libsaio/disk.c:1804-1841 | An unaligned length fails with -1 and touches nothing. Otherwise the cache is invalidated, the result is the first refusal, and on success the buffer holds the sectors from `secno + part_boff`. |
| `DiskScan.WriteStep` | Booter/i386/libsaio/disk.c:1859-1872 | The first request of a write, then the rest. |
| `DiskScan.WriteSizes` | Booter/i386/libsaio/disk.c:1859-1861 | Every write request moves 1 to 64 whole sectors. |
| `DiskScan.WriteComplete` | Booter/i386/libsaio/disk.c:1858-1876 | A successful write hands over every byte, in order. |
| `DiskScan.WriteStopsAtFailure` | Booter/i386/libsaio/disk.c:1865-1869 | A failed write stops at the request the BIOS refused and returns its status. A corrected ECC error is not tolerated. |
| `DiskScan.RawDiskWrite` | Booter/i386/libsaio/disk.c:1843-1877 | An unaligned length fails with -1. Otherwise the cache is invalidated and the requests are issued as `WriteOutcome` says. |
| `Options.Edited` | Booter/i386/boot2/options.c:210-265 | What a key does to the typed line. Backspace removes the last character, if any. A printable character is appended while the line is shorter than `BOOT_STRING_LEN - 1`. Any other key changes nothing. The key is masked to 7 bits. |
| `Options.Step` | Booter/i386/boot2/options.c:210-265 | The corrected keystroke keeps the buffer length and the cursor inside the buffer. |
| `Options.StepAsWritten` | Booter/i386/boot2/options.c:234 | `updateBootArgs` as written clears the cell at the cursor and then steps back. It keeps the buffer length and the cursor inside the buffer. |
| `Options.StepEdits` | Booter/i386/boot2/options.c:210-265 | The corrected keystroke leaves the buffer holding exactly the edited line, NUL-padded, with the cursor at its end. |
| `Options.HoldsLine` | Booter/i386/boot2/options.c:167-171 | The C string of a buffer that holds a line is that line. |
| `Options.BackspaceAsWrittenKeepsChar` | Booter/i386/boot2/options.c:234 | As written, "abc" followed by a backspace moves the cursor to 2, but the buffer still reads "abc" where the edit means "ab". |
| `Options.BackspaceRemovesChar` | Booter/i386/boot2/options.c:210-265 | The corrected backspace after "abc" leaves "ab". |
| `Options.BootArgs.LineIsText` | Booter/i386/boot2/options.c:161-163 | The C string in `gBootArgs` is the typed line. |
| `Options.BootArgs.constructor` | Booter/i386/boot2/options.c:161-163 | The static buffer starts zero-filled, with the cursor at its start. |
| `Options.BootArgs.Clear` | Booter/i386/boot2/options.c:167-171 | `clearBootArgs` moves the cursor to the start and fills the buffer with NUL. |
| `Options.BootArgs.Update` | Booter/i386/boot2/options.c:210-265 | The corrected `updateBootArgs`: the typed line becomes `Edited`, and buffer and cursor follow `Step`. |
| `Options.BootArgs.UpdateAsWritten` | Booter/i386/boot2/options.c:210-265 | `updateBootArgs` as written changes buffer and cursor as `StepAsWritten` says. |
| `Options.BootArgs.AppendFlag` | Booter/i386/boot2/options.c:730-739 | The early 'v' and 's' keys append " -v" or " -s" exactly when asked and `gBootArgsPtr + 3 < gBootArgsEnd`. Otherwise the line stays as it was. `EarlyFlags` shows that the `clearBootArgs` right after wipes what was appended. |
| `Options.BootArgs.EarlyFlags` | Booter/i386/boot2/options.c:730-741 | After the early flags `clearBootArgs` runs at once: the line the prompt starts from is empty and NUL-filled, whatever " -v" or " -s" was appended. |
| `Options.BootArgs.SkipLeadingBlanks` | Booter/i386/boot2/options.c:535-538 | `skipblanks` from the start of the line stops inside the typed line. |
| `Options.BootArgs.ExtractKernelName` | Booter/i386/boot2/options.c:542-576 | `extractKernelName` returns `KernelName`. With no name nothing moves. After a name, a blank is overwritten with NUL and the cursor moves past it. At the line's end the cursor stops there. |
| `Options.SkipBlanks` | Booter/i386/boot2/options.c:535-538 | The first position from `i` that holds neither a space nor a tab. |
| `Options.NameEnd` | Booter/i386/boot2/options.c:562-563 | The scan stops at the first NUL, '=', space or tab. |
| `Options.KernelName` | Booter/i386/boot2/options.c:542-576 | A name is non-empty and holds no NUL, blank or '='. It ends at a NUL or a blank. |
| `Options.KernelNameWord` | Booter/i386/boot2/options.c:542-576 | A word that starts with a letter or '/' and is followed by a blank, or by nothing, is the kernel name. |
| `Options.KeyIsNotKernelName` | Booter/i386/boot2/options.c:568-569 | A word followed by '=' is never a kernel name. |
| `Options.Menu.constructor` | Booter/i386/boot2/options.c:255-265 | No menu is shown at first. |
| `Options.Menu.Show` | Booter/i386/boot2/options.c:281-335 | `showMenu` on an empty menu changes nothing. Otherwise it records the items, height and selection. The window starts at row 0, or is shifted down so that its bottom is the selection. |
| `Options.Menu.Move` | Booter/i386/boot2/options.c:340-531 | `updateMenu` in text mode moves the selection up or down one row, and exactly when the menu is shown and the selection is not at that end. The window scrolls by one row at its edge and keeps its size, and the param of the new selection is reported. The new window is `MoveWindow`'s. |
| `Options.MoveWindow` | Booter/i386/boot2/options.c:340-531 | The window and selection after an arrow on an `n`-item menu; `Menu.Move` computes it and states its cases. |
| `Options.VisibleIndices` | Booter/i386/boot2/options.c:843-852 | The visible records of the chain, in order. There are `CountVisible` of them. |
| `Options.VisibleSorted` | Booter/i386/boot2/options.c:843-852 | The visible indices increase. |
| `Options.VisibleComplete` | Booter/i386/boot2/options.c:843-852 | Every visible record is listed. |
| `Options.VisibleStep` | Booter/i386/boot2/options.c:843-852 | One more record adds its index exactly when it is visible. |
| `Options.BuildMenu` | Booter/i386/boot2/options.c:836-853 | The menu loop fills slots from `gDeviceCount - 1` down. Each visible volume takes exactly one slot, so the first is last. `selectIndex` is the default volume's slot, or 0 when it has none. One record per `PlaceItem`, which keeps the slot invariant. |
| `Options.PlaceItem` | Booter/i386/boot2/options.c:845-852 | One record of the menu loop: the records seen become the visible ones of the longer prefix, and the slot invariant holds for it. |
| `Options.BuildMenuItems` | Booter/i386/boot2/options.c:843-852 | The items: the visible volumes, last first. |
| `Options.ItemsInChain` | Booter/i386/boot2/options.c:843-852 | The loop's items are `BuildMenuItems`, and each names a record of the chain. |
| `Options.ScanEarlyKeys` | Booter/i386/boot2/options.c:717-725 | Keys read before the menu: F8 is seen exactly when 0x4200 was read. 's' or 'v' is seen exactly when the low byte of some key is that letter, in either case. |
| `Options.StartMode` | Booter/i386/boot2/options.c:707-729 | A negative timeout makes the boot quiet. Shift flags in the low nibble add safe mode. F8 cancels quiet mode and sets the timeout to 0. Without F8 the timeout stays. |
| `Options.LastSystemVolumeElsewhere` | Booter/i386/boot2/options.c:811-816 | The 'h' loop picks the last system volume that is not on the boot drive. None exists after it, and there is none at all when it returns nothing. |
| `Options.CdPromptAnswer` | Booter/i386/boot2/options.c:800-818 | At the CD prompt the option key opens the menu. 'h' in the low byte boots the last system volume on another drive, when there is one. Any other key boots the default. |
| `Options.Prompt.constructor` | Booter/i386/boot2/options.c:883-893 | `getBootOptions` sets up the menu of the visible volumes with the default highlighted, and an empty typed line. |
| `Options.Prompt.HandleKey` | Booter/i386/boot2/options.c:895-1032 | One pass of the key loop computes `KeyStep`, the refresh and then the switch; `KeyStepCases` and `KeyStepMoves` state what each key does. |
| `Options.Prompt.Refresh` | Booter/i386/boot2/options.c:903-913 | Before the switch the arrows move the highlight. A change of the prompt's visibility clears the line. The key edits the line exactly when the prompt is shown. It computes `RefreshStep`, and `RefreshKeeps` states what it leaves alone. |
| `Options.Prompt.Dispatch` | Booter/i386/boot2/options.c:915-1031 | The switch on the key computes `DispatchStep` and leaves the highlight alone; `KeyStepCases` states its outcome for each key. |
| `Options.Prompt.Run` | Booter/i386/boot2/options.c:895-1032 | The do-while loop computes `RunKeys` over the keys typed: it ends only on a key that is Return, Escape, F5 or F10, no Escape, F5 or F10 came before that key, and no key after it is used. |
| `Options.Prompt.Highlight` | Booter/i386/boot2/options.c:903 | `updateMenu` moves the highlight as `HighlightStep` says and keeps the menu's items. |
| `Options.Prompt.TypeKey` | Booter/i386/boot2/options.c:904-913 | A change of the prompt's visibility clears the line and the key is typed when the prompt is shown, as `TypeStep` says; the highlight stays. |
| `Options.Prompt.OnReturn` | Booter/i386/boot2/options.c:916-965 | Return computes `DispatchStep` on Return: a '?' line runs a command, any other line boots the highlighted volume; the highlight stays. |
| `Options.Prompt.OnCommand` | Booter/i386/boot2/options.c:921-961 | A '?' line: "norescan" with rescanning on turns it off and ends the loop; any other command clears the line and the loop goes on, as `DispatchStep` says. |
| `Options.Prompt.Pass` | Booter/i386/boot2/options.c:895-1032 | One pass of the do-while on the next key: it ends with the loop's whole `RunKeys` result, or leaves the remaining keys pending. |
| `Options.KeyStep` | Booter/i386/boot2/options.c:902-1031 | One pass of the key loop, `RefreshStep` then `DispatchStep`; `KeyStepCases` and `KeyStepMoves` state what each key does. |
| `Options.KeyStepCases` | Booter/i386/boot2/options.c:915-990 | Escape ends the loop and clears the line. F5 ends it, and drops the volume and clears the line only when rescanning is on. F10 ends it, drops the volume, rescans every drive and clears the line. Return on a '?' line ends the loop exactly for "norescan" with rescanning on, which turns it off, clears the line otherwise, and keeps the volume. Return on another line boots the highlighted volume from its drive. Other keys never end the loop or change the volume, and only the arrows move the highlight. |
| `Options.KeyStepMoves` | Booter/i386/boot2/options.c:903 | An arrow that moves the selection keeps it on the menu and highlights the item under it. |
| `Options.RefreshKeeps` | Booter/i386/boot2/options.c:903-913 | Before the switch nothing changes the chosen volume, the rescan switch or the drive; only the arrows move the highlight, and Return leaves the line as typed. |
| `Options.RunKeys` | Booter/i386/boot2/options.c:895-1032 | The loop over the keys typed: it handles no more keys than there are, all of them when none ends the loop, and at least one when one does. |
| `Options.RunKeysPrefix` | Booter/i386/boot2/options.c:1032 | The keys after the one that ends the loop are never read: the loop over the keys it handled gives the same result. |
| `Options.RunKeysStops` | Booter/i386/boot2/options.c:915-1032 | With a step that ends only on Return, Escape, F5 or F10, the loop ends on one of those keys and no Escape, F5 or F10 came before it. |
| `Options.HandlerStops` | Booter/i386/boot2/options.c:915-1032 | The prompt's key loop ends on Return, Escape, F5 or F10, and no Escape, F5 or F10 came before that key. |
| `Options.ArgText` | Booter/i386/boot2/options.c:1053-1076 | `copyArgument` writes `name=` when named, then the value, then a space. |
| `Options.CopyResult` | Booter/i386/boot2/options.c:1053-1076 | Corrected, the argument is written whole when it fits in the room, and nothing is written otherwise. |
| `Options.CopyOverrunsAsWritten` | Booter/i386/boot2/options.c:1055-1060 | As written, "rd=1234567 " (11 characters) is accepted in a room of 10 and leaves -1, because '=' is not counted in the check. |
| `Options.CopyBudgetAsWritten` | Booter/i386/boot2/options.c:1053-1075 | The room check of `copyArgument` as written: it counts the name, the value and the space but not the `=`, which is taken from the room only after the check passes. `CopyOverrunsAsWritten` shows the overrun. |
| `Options.CopyBudgetCorrected` | Booter/i386/boot2/options.c:1053-1076 | Corrected, an argument is copied exactly when it fits. Unnamed arguments behave as written. |
| `Options.KernelArgs.constructor` | Booter/i386/boot2/options.c:1197-1198 | The command line starts with its initial contents and the cursor at its start. |
| `Options.KernelArgs.Put` | Booter/i386/boot2/options.c:1063-1073 | Writes `s` at the cursor and moves past it. The rest of the line is unchanged. |
| `Options.KernelArgs.CopyArgument` | Booter/i386/boot2/options.c:1053-1076 | Succeeds exactly when the whole argument fits in the room. The line advances by `CopyResult`. |
| `Options.KernelArgs.ProcessBootArgument` | Booter/i386/boot2/options.c:1081-1111 | `processBootArgument` follows `ArgPhase`. A value typed or in the kernel flags is only reported. A value only in the configuration is copied. |
| `Options.KernelArgs.AddBootUuid` | Booter/i386/boot2/options.c:1209-1234 | The boot-uuid step follows `UuidPhase`. |
| `Options.KernelArgs.AddRootDevice` | Booter/i386/boot2/options.c:1236-1258 | The "rd" step follows `RootPhase` and returns `gRootDevice`. |
| `Options.KernelArgs.AddBootDevice` | Booter/i386/boot2/options.c:1237-1257 | With "rd" nowhere: '*' and the boot device, else "*uuid" once a boot-uuid is set, as `DevicePhase` says. |
| `Options.KernelArgs.AddSafeMode` | Booter/i386/boot2/options.c:1269-1275 | "-x" is copied as `SafePhase` says. |
| `Options.KernelArgs.AppendTail` | Booter/i386/boot2/options.c:1278-1294 | The corrected tail is the flags cut to the room with a space, then as much of the typed line as fits, then NUL. All of it ends inside the buffer. The space goes in the cell the line keeps spare, so when the flags are shorter than the room the typed line keeps one character more than the C's count allows. |
| `Options.KernelArgs.ProcessBootOptions` | Booter/i386/boot2/options.c:1116-1317 | No volume gives -1. A foreign volume chain-loads from its drive with 1 and nothing written. A native volume gives 0, with the line and the kernel choice of `NativeOutcome`. |
| `Options.KernelArgs.BuildLine` | Booter/i386/boot2/options.c:1197-1294 | The command line is built from its start in `LineOutcome` order: boot-uuid, rd, -x, then the tail. |
| `Options.UserArgs` | Booter/i386/boot2/options.c:1183-1190 | After `extractKernelName` the typed arguments are the C string at `ArgsStart`. The NUL written over the blank does not reach them. |
| `Options.ChooseKernel` | Booter/i386/boot2/options.c:1182-1195 | A typed name, else the "Kernel" key, else mach_kernel. The kernel counts as overridden exactly when it was typed or is not mach_kernel. |
| `Options.ArgsStart` | Booter/i386/boot2/options.c:1183-1190 | The typed arguments start inside the line. |
| `Options.KernelFlags` | Booter/i386/boot2/options.c:1200-1207 | The configured "Kernel Flags" hold no NUL. They are dropped when "-F" is typed. |
| `Options.UuidArg` | Booter/i386/boot2/options.c:1209-1234 | A boot-uuid is set exactly when one is typed, configured, in the helper's configuration or given by the file system. Nothing copied exceeds the room. |
| `Options.RootArg` | Booter/i386/boot2/options.c:1236-1258 | What "rd" copies never exceeds the room. |
| `Options.UuidStep` | Booter/i386/boot2/options.c:1209-1234 | With its lookups made in the command line as built so far, what is copied never exceeds the room. |
| `Options.RootStep` | Booter/i386/boot2/options.c:1236-1258 | The same holds for "rd". |
| `Options.SafeArg` | Booter/i386/boot2/options.c:1269-1275 | What "-x" copies never exceeds the room. |
| `Options.TailText` | Booter/i386/boot2/options.c:1278-1294 | The tail is at most the room plus the cell kept for the space. |
| `Options.TailOverrunsAsWritten` | Booter/i386/boot2/options.c:1278-1294 | As written, flags exactly as long as the room leave `cntRemaining` at -1. The typed line is then copied with a count of -1. |
| `Options.TailBudgetAsWritten` | Booter/i386/boot2/options.c:1278-1294 | The tail budget as written: flags longer than the room are cut to it, the space after them is counted, and the typed line gets what remains, even -1. `TailOverrunsAsWritten` shows it. |
| `Options.TailKeepsAll` | Booter/i386/boot2/options.c:1278-1294 | When flags and typed line fit, the tail holds all of both. |
| `Options.Advance` | Booter/i386/boot2/options.c:1063-1075 | Writing within the room keeps the line state valid. |
| `Options.ArgPhase` | Booter/i386/boot2/options.c:1081-1111 | `processBootArgument` keeps the line state valid. |
| `Options.UuidPhase` | Booter/i386/boot2/options.c:1209-1234 | The boot-uuid step keeps the line state valid. |
| `Options.RootPhase` | Booter/i386/boot2/options.c:1236-1258 | The "rd" step keeps the line state valid. |
| `Options.DevicePhase` | Booter/i386/boot2/options.c:1237-1257 | The boot-device fallback keeps the line state valid. |
| `Options.UuidPhaseAgrees` | Booter/i386/boot2/options.c:1209-1234 | The boot-uuid step as coded agrees with the reference definition: the first of typed, configured, helper and file-system values is set, and copied unless it was typed. |
| `Options.RootPhaseAgrees` | Booter/i386/boot2/options.c:1236-1258 | The "rd" step as coded agrees with the reference definition: typed, else configured, else '*' and the boot device, else "*uuid", else nothing. |
| `Options.SafePhase` | Booter/i386/boot2/options.c:1269-1275 | The safe-mode step keeps the line state valid. |
| `Options.TailPhase` | Booter/i386/boot2/options.c:1278-1294 | The tail yields a full-length buffer. |
| `Options.LineOutcomeTerminated` | Booter/i386/boot2/options.c:1197-1294 | The command line `processBootOptions` leaves ends with a NUL inside the buffer. |
| `Options.LineOutcome` | Booter/i386/boot2/options.c:1197-1294 | The command line written from the start, and `gRootDevice`, each lookup reading the line as written so far; `BuildLine` computes it and `LineOutcomeTerminated` states that it ends with a NUL in the buffer. |
| `Options.NativeOutcome` | Booter/i386/boot2/options.c:1116-1317 | What `processBootOptions` leaves on a native volume: the command line, the kernel choice and the modes; `ProcessBootOptions` computes it. |
| `Options.Modes` | Booter/i386/boot2/options.c:1296-1311 | `gVerboseMode` ("-v" or "-s"), safe mode ("-x" or "-f") and the MKext cache name, each found through the layered lookup on the finished command line; `NativeOutcome` applies it. |

## Left out

**Hardware, firmware and code outside the core**
- BIOS disk calls (`biosread`, `ebiosread`, `ebioswrite`, `get_drive_info`): a drive is a disk image plus the status codes of its calls. The keyboard, the screen, the PIT and the TSC are not modelled either: keys, shift flags and timer counts are inputs, and nothing is drawn.
- The GUI branches of `getBootOptions` and `updateMenu` are not modelled: the model has no GUI state. Besides drawing, the info menu's choices (options.c:400-436) set `shouldboot`, `gVerboseMode` and `gBootMode`, and append "-v", "-f" or "-s" to `gBootArgs` with no check on the room left; none of this appears in the model. The countdown loops, the banner and help output and the Tab switch between text and graphics mode are drawing with no result to state.
- The control transfers are not modelled: `startprog`, `jump_to_chainbooter`, the kernel hand-off and hibernation resume.
- The HFS+ and NTFS probes, `crc32`, the XML configuration loader, file loading (`LoadFile`, `GetFileInfo`, `loadOverrideConfig`, `loadHelperConfig`) and the device tree are not part of this model. They become parameters: a configuration is a map from key to value, and a file lookup is its result.
- These headers are not part of this model, so their constants are restated in the modules that use them: `fdisk.h`, the `kBVFlag` values, `saio_types.h` (`BOOT_STRING_LEN` = 1024), `multiboot.h`, `cpu.h` (`CALIBRATE_TIME_MSEC` = 30), `efi.h`, `vbe.h`, `appleClut8.h` and `msdos_private.h`. The C library's `strtol`/`strtoul` are not part of this model either: `CLib` restates them with a 32-bit `long`.
- Allocation failure (`malloc` returning NULL) is not modelled, except where the C tests for it and takes another path.

**Disk and DiskScan**
- DiskScan.FDiskWalker.Next: the walk is bounded by a `fuel` number of extended tables per call. `ScanFDisk` and `ScanBootVolumes` also bound the partitions they take with `limit`. A drive whose extended chain loops runs on for ever in the C.
- Disk.BiosreadSpec: a drive whose sector size is below 512 (`Divisor` 0), or a CHS drive with no sectors per track or no heads, gives -1. The C divides by zero there.
- Disk.SectorCache.Biosread: the cached start sector `xsec` keeps the C's 32-bit width, as written. `HighSectorAliases` shows a read above 2^32 sectors being served from the wrong track. This is recorded, not corrected.
- `scanFSLevelBVRSettings`, `getBootVolumeDescription` and the volume labels are not modelled: they read files through the HFS+ and NTFS readers.

**Options**
- Options.NativeOutcome: it always runs the `!shouldboot` tail, which `Modes` models. `shouldboot` is set only by the GUI info menu, which is not modelled, so in text mode the tail always runs.
- Options.KernelArgs.ProcessBootOptions: the lookup of a typed "config" key is not modelled, because the C never uses its value. `setRootVolume` is not modelled either.
- Options.KernelArgs.ProcessBootOptions: `strcpy` into `bootInfo->bootFile` is unbounded in the C, and so is the `VALUE_SIZE` (2048) buffer for "Boot Device". The model keeps the whole text.
- Options.Prompt.OnCommand: "?rd" (options.c:949) changes the RAM-disk state in ramdisk.c:181-200. "m" mounts an image, installs the read hook and scans drive 0x100. "u" unmounts it and clears the hook. "e" and "d" set and clear the bt(0,0) alias. The model does not capture any of this: the RAM-disk reader is an input of `Disk.SectorCache.ReadBytes`, not state the prompt changes. The other '?' commands only print. For every command but "norescan", the model clears the line and stays in the loop, as the C does, without drawing anything.
- Options.CdPromptAnswer: the prompt text and the countdown are left out. The key the countdown returns is an input.
- `selectBootVolume` and `scanDisks` are inputs to the prompt: the default volume and the chain after a rescan.
- Options.KernelArgs.CopyArgument and Options.KernelArgs.AppendTail model the corrected room checks. The as-written overruns are in "## Findings".
- Options.BootArgs.Update models the corrected backspace. The as-written step is `UpdateAsWritten`.

**StringTable**
- StringTable.GetValueForKey: it uses the corrected `GetValueForBootKey`, which stops at the line's NUL. The as-written scan can read past an unterminated quote (see "## Findings"). The two agree on every buffer with nothing after its NUL.
- StringTable.IntForValue: the value is an unbounded integer. The wrap of `getIntForKey`'s 32-bit `int` accumulator on more than nine digits is not modelled.

**Boot**
- Boot.CacheNameBuffer: it requires "rootdevice,bootfile" to fit in the 256 bytes after the 64-byte platform prefix. The C's `sprintf` into `gCacheNameAdler` would overflow it otherwise. `NameCacheFile` carries the same requires.

**Msdos**
- Msdos.FatVolume.GetFileBlock: it returns the corrected `FileBlock`, which counts the FAT12/16 root directory. The source's block is `FileBlockAsWritten`.
- Msdos.Describe: it uses the corrected `ShortName` and `FakeTime`. The source's name and stamp are `DirEntryNameAsWritten` and `FakeTimeAsWritten`.
- Msdos.DirWalker.VisitSlot: it uses the corrected `Visit`, which moves past a long-name part. The source's `continue` (`VisitAsWritten`) re-reads the same slot.
- Msdos.FatVolume.ReadFile: `toread` and `wastoread` are unbounded. The C's `int` would go negative for files of 2^31 bytes or more.
- Msdos.DataOffset: the products are unbounded. The C computes them in 32 bits.
- `getdirpfrompath`, the path lookup, is not modelled: the found entry is a parameter. `MSDOSGetDirEntry`'s directory index bookkeeping and its buffer allocation are not modelled either.

**FakeEfi**
- FakeEfi.GetSmbiosUuid, FakeEfi.SmbiosUuid and FakeEfi.UuidBytes: the walk accepts a type 1 structure once its 4-byte header lies inside the table, so its UUID at offsets 8 to 23 can run past `tableLength`. The model reads those bytes as 0. The C tests and copies whatever memory follows the table (fake_efi.c:533-548). Bytes inside the table are the table's, as `UuidBytes` states.

**Nvidia**
- Nvidia.ParseDcb: reads outside the 64 KiB ROM buffer (a DCB pointer near its end, "DEV_REC" before offset 7) make the parse fail. The C reads whatever memory lies there.
- Nvidia.PatchNvidiaRom: it keeps the as-written signature test, which accepts a ROM with only one of the two signature bytes. `ParseDcbIntended` is the corrected test.

**DeviceInject**
- DeviceInject.NumberLen: a "Pci(0x" component without its ',' or ')' makes the scan fail. The C reads past the string.
- DeviceInject.DevPropString.AddDevice: `pci_dev_path` has room for four nodes, but nothing bounds the count. A fifth is accepted (`FivePciNodesAccepted`), and the overflowing write is not modelled. The `entries` array is allocated once with room for one pointer and never grown, so the C writes past it from the second device on; the model's `entries` is a sequence that grows.
- `devprop_generate_string`, `devprop_free_string` and `setupDeviceProperties` are not modelled: they format or free the string and hand it to the device tree.

**Graphics**
- Graphics.DecodeRLE: it requires the blocks to fit in the output buffer. The C writes past it otherwise.
- `setVESAGraphicsMode` is not modelled: the mode switch itself is a BIOS call. `InitGraphicsMode` returns the arguments it would pass.

**DsdtPatcher**
- DsdtPatcher.SdtWalk and DsdtPatcher.CompactEntries: they copy a null entry down like any other. The source skips it before the copy and leaves the previous pointer in its slot (see "## Findings").
- DsdtPatcher.FadtCopy: memory past the copied FADT is taken as zero when the copy is grown to 0x81 bytes. The C's fresh allocation holds whatever was there.
- DsdtPatcher.Store: a write outside the block is dropped. This happens for a FADT under 44 bytes, or a version 2 RSDP whose Length is under 36. The C writes past the block.
- DsdtPatcher.EntryCount: it is 0 for a Length under 36. The C's unsigned subtraction wraps to a huge count.

**SmbiosPatcher**
- SmbiosPatcher.DryRun, SmbiosPatcher.StringsSize, SmbiosPatcher.SizeOf, SmbiosPatcher.PlanTotals, SmbiosPatcher.PatchOf, SmbiosPatcher.Patch and SmbiosPatcher.SmbiosCache.GetSMBIOS: they take the per-instance key first in the dry run as well. The source's dry run takes the plain key first (see "## Findings").
- SmbiosPatcher.StructureAt: a structure header whose length byte is below 4 makes the whole walk fail, so the table is left unpatched. The C goes on walking from that length.
- SmbiosPatcher.AllocateHandle: it returns None once all 65536 handles are in use. The C's search then loops for ever.
- SmbiosPatcher.NumberFor: the int-typed SMBIOS keys are read as unbounded integers, so `getIntForKey`'s 32-bit wrap is not modelled. The store keeps the low 8 or 16 bits, which agrees with the C whenever the number fits in an `int`.

**Mboot**
- Mboot.ParseArg, Mboot.ChooseDevice, Mboot.MultibootOutcome and Mboot.BootGlobals.Multiboot: they use the corrected `ParseValue`, which refuses a value with no digits. The source accepts a blank value as 0 (see "## Findings").
- `multiboot_LoadExtraDrivers` and the `hi_multiboot` self-relocation are not modelled. `selectAlternateBootDevice` is a parameter.

## Findings

| source | as written | input that shows it | evidently intended | confidence | as-written member | corrected member |
|---|---|---|---|---|---|---|
| Booter/i386/libsaio/stringTable.c:290-294 | `getToken` on an unterminated quoted value stops at the NUL, and `line++` then steps past the terminator, so `getValueForBootKey` goes on scanning bytes after the end of the string | line `k="v` followed by NUL and `x=1`, key `x`: found with value `1` | the scan ends at the first NUL | not executed | `StringTable.BootKeyAsWrittenReadsPastNul` | `StringTable.BootKeyStopsAtNul` |
| Booter/i386/libsaio/fake_efi.c:420-425 | the export of `system-id` is gated by `getBoolForKey(kSystemID)`, whose value is the UUID text, so a UUID given with SystemId is adopted but switches the export off | `SystemId=` any valid UUID text | a UUID in SystemId is exported like any adopted System-ID; only `No` turns the export off | not executed | `FakeEfi.UuidSystemIdNotExported` | `FakeEfi.AdoptedSystemIdExported` |
| Booter/i386/boot2/mboot.c:392-403 | the `biosdev=` test accepts a value when `strtol` stops at NUL, space or tab, even when it read no digit | `biosdev= ` (one space): boot device 0 | a value is accepted only when digits were read | not executed | `Mboot.BlankValueAcceptedAsWritten` | `Mboot.BlankValueRejected` |
| Booter/i386/libsaio/msdos.c:336-340 | `continue` on a skipped long-name part leaves the slot index unchanged, so `getnextdirent` reads the same slot again | a long-name part with count byte 0x54 (ordinal 20, 13·20 > WIN_MAXLEN) that is not the first slot of its block: the walk never ends | the skipped slot is passed over like any other | not executed | `Msdos.MaxLengthNameStalls` | `Msdos.Visit` |
| Booter/i386/libsaio/msdos.c:692 | the listing tests `deName[i]` (a base byte) to decide how to convert extension byte `deName[i+8]` | short name `ABC` with extension byte 0x81: listed with the raw byte, while the lookup (line 557) compares U+00FC | the extension byte is tested and mapped as at line 557 | not executed | `Msdos.ListingNameDiffers` | `Msdos.AsciiNamesAgree` |
| Booter/i386/libsaio/msdos.c:704 | `+` binds tighter than `<<`, so the date is shifted by 16 plus the time | date 0x21 time 1 and date 0x42 time 0 get the same stamp | date in the high half, time in the low half | not executed | `Msdos.FakeTimeCollides` | `Msdos.FakeTimeOrdered` |
| Booter/i386/libsaio/msdos.c:810-811 | the first block of a file leaves out the FAT12/16 root directory sectors that `msdosreadcluster` adds at line 259 | FAT16 with a 32-sector root directory, cluster 2: block 21 where the data start at block 53 | the block where the cluster's data start | not executed | `Msdos.FileBlockMissesRootDir` | `Msdos.FileBlockHoldsData` |
| Booter/i386/libsaio/nvidia.c:362 | the ROM signature test joins the two byte tests with `&&`, so one correct byte is enough | a ROM starting 0x55 0x00 | both signature bytes must be present | not executed | `Nvidia.HalfSignatureAccepted` | `Nvidia.SignatureTestsDiffer` |
| Booter/i386/libsaio/dsdt_patcher.c:179-185 | a NULL entry is skipped before the copy-down at line 185, so after a dropped SSDT the slot it should fill keeps the pointer already there | entries [SSDT, other table, NULL] with DropSSDT: the shortened RSDT holds [other, other] | the shortened table holds [other, NULL], each entry moved down once | not executed | `DsdtPatcher.NullAfterDropAsWritten` | `DsdtPatcher.WalkRealisesRewrite` |
| Booter/i386/libsaio/smbios_patcher.c:330-331 | the dry run looks up the plain key before the per-instance key, while the real run (lines 465-466) asks the per-instance key first, so the space reserved can be smaller than the table written | a bare baseboard structure with `SMboardproduct` empty and `SMboardproduct_1=X`: 17 bytes reserved, 18 written | both runs use the same lookup order, so the reserved size is the written size | not executed | `SmbiosPatcher.DryRunUndersizesAsWritten` | `SmbiosPatcher.RebuiltSize` |
| Booter/i386/boot2/options.c:234 | backspace clears the cell at the cursor and then moves back, so the last character stays | type `abc`, then backspace: the buffer still reads `abc` | the character before the cursor is removed | not executed | `Options.BackspaceAsWrittenKeepsChar` | `Options.BackspaceRemovesChar` |
| Booter/i386/boot2/options.c:1055-1060 | the room check counts the space but not the `=` of a named argument | `rd=1234567` with 10 bytes of room: copied, room left -1 | a named argument is copied only when all its characters fit | not executed | `Options.CopyOverrunsAsWritten` | `Options.CopyBudgetCorrected` |
| Booter/i386/boot2/options.c:1278-1294 | kernel flags that exactly fill the room are copied with the space after them, leaving the room at -1, and the typed line is then copied with a count of -1 | 5 bytes of flags in 5 bytes of room | flags and typed line are cut to the room | not executed | `Options.TailOverrunsAsWritten` | `Options.TailKeepsAll` |
